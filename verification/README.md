# NormalForge / Auto Custom Normals: a verified model of the mesh bookkeeping

The add-on comes in three near-duplicate Blender scripts: `normalforge.py`, `non_destructive_normals.py` and `auto_custom_normals.py`. All three prepare a mesh for custom normals with the same steps:

- Mark the edges to bevel by giving them a bevel weight of 1.0. The trigger is the sharp flag, the seam flag, or the angle between the two faces of the edge.
- Optionally, mark seams from those weights.
- Tag the faces that a bevel will create by giving them their own material slot.
- Select the faces that are not tagged, and let Blender set their normals.
- Remove the tag slot again, and move the faces back so that each points at the material it had before.

`normalforge.py` also has a second way to find the bevel faces. It works on a mesh that was bevelled earlier: it uses face areas alone and a flood fill over face adjacency. Before changing a mesh, every file keeps a one-slot backup of it.

This project models that bookkeeping in Dafny and proves what it promises.

- **Mesh.** The mesh (`BlenderMesh.Mesh`) is a class. Its edge, face and vertex-selection tables are arrays whose rows the operations rewrite in place. Its material-slot list is a sequence.
- **Material library.** `MaterialSlots.MaterialLibrary` maps each material name to its user count.
- **Backups.** The mesh registry and the active object are classes (`MeshStore`). The registry stores meshes by name; the object names its mesh and carries custom properties.
- **Specification functions.** Each operation that changes state is a method. It is proved equal to a function of the old state (`WeighWhere`, `Dropped`, `Begun`/`Ended`, `Detached`, `SetUp`/`CleanedUp`, `Created`/`Restored`, `Detect`). The lemmas prove that function's properties:
  - counts equal set sizes;
  - running a step twice changes nothing;
  - cleaning up after tagging restores every face's material;
  - restoring after a backup gives back the mesh;
  - the confirmed bevel faces are exactly the small faces reachable from a large face.

Code shared by the three files is modelled once:

- `EdgeWeights`: the four propagators. They read the same in `non_destructive_normals.py:66-110` and `auto_custom_normals.py:66-110`. `edges_by_angle` in `normalforge.py` is the angle rule without un-smoothing.
- `FaceSelection`: `select_original_faces_by_material` is the same in all three files. Setting a BMesh face's selection flag also selects its vertices and edges. The model carries this flush, so after a selection helper a vertex or edge is selected exactly when it belongs to a selected face.
- `MaterialSlots`: slot lookup, renumbering and slot removal.
- `KeyedBackup`: the backup store of `normalforge.py` and `auto_custom_normals.py`. The property key is a parameter there.

The per-file modules (`NormalForge`, `NonDestructive`, `AutoCustomNormals`, `SuffixBackup`) keep what differs between the files:

- the default slot in `normalforge.py`;
- the fixed tag material and missing renumbering in `non_destructive_normals.py`;
- the name-suffix backup in `non_destructive_normals.py`;
- the keys and name prefixes.

The median of the face areas is `sorted(areas)[len(areas) // 2]`, as `normalforge.py:583-584` has it. For an even number of faces this is the upper of the two middle areas, not the lower-middle one; the model takes the upper one, as the code does.

## Model

| member | source | states |
|---|---|---|
| EdgeWeights.WeighWhere | non_destructive_normals.py:66-100 | every edge that passes the test gets weight 1.0. With un-smoothing on, it also loses its smooth flag. Its other fields, and every edge that fails the test, are unchanged |
| EdgeWeights.SeamsFromWeight | non_destructive_normals.py:103-110 | an edge's seam becomes its old seam or (weight > 0). A seam is never cleared, and no other field changes |
| EdgeWeights.SharpEdgesToBevelWeight | non_destructive_normals.py:66-73 | the edge table becomes WeighWhere of the non-smooth test, and the count returned is the number of non-smooth edges |
| EdgeWeights.SeamsToBevelWeight | non_destructive_normals.py:76-83 | the edge table becomes WeighWhere of the seam test, and the count is the number of seam edges |
| EdgeWeights.AutoSharpToBevelWeight | non_destructive_normals.py:86-100 | boundary edges, and 2-face edges bent more than the threshold, are weighted and made non-smooth. The count is their number |
| EdgeWeights.MarkSeamsFromBevelWeight | non_destructive_normals.py:103-110 | the edge table becomes SeamsFromWeight, and the count is the number of edges with positive weight |
| EdgeWeights.CountIsMatchingSize | auto_custom_normals.py:66-83 | a loop's running count equals the size of the set of edges that pass its test |
| EdgeWeights.CountZeroIffNone | non_destructive_normals.py:76-83 | the count is 0 exactly when no edge passes the test |
| EdgeWeights.WeighKeepsTest | auto_custom_normals.py:86-100 | a weighted edge still passes the test that selected it |
| EdgeWeights.PropagateTwice | auto_custom_normals.py:66-83 | a second run of a propagator leaves the edges as the first run did and returns the same count |
| EdgeWeights.WeightsStayBinary | auto_custom_normals.py:76-83 | if every weight was 0.0 or 1.0 before a propagator, every weight still is |
| EdgeWeights.AngleRule | auto_custom_normals.py:86-100 | every boundary edge is weighted. A 2-face edge bent by at most the threshold is left as it was, and so is an edge with no face or more than two |
| EdgeWeights.SeamsFromWeightTwice | auto_custom_normals.py:103-110 | marking seams is idempotent, and afterwards the positive-weight count is the same as before |
| FaceSelection.SelectedWhere | normalforge.py:338-342 | a face is selected exactly when it passes the test, and nothing else about it changes |
| FaceSelection.EdgesFlagged | normalforge.py:331-332 | exactly the listed edges are selected, and nothing else about any edge changes |
| FaceSelection.DeselectAll | normalforge.py:329-334 | every vertex, edge and face is deselected, and nothing else changes |
| FaceSelection.FlushToVerts | normalforge.py:339-341 | setting a face's selection flag selects each of its vertices and leaves every other vertex as it was |
| FaceSelection.FlushToEdges | normalforge.py:339-341 | setting a face's selection flag selects each of its edges and changes nothing else about any edge |
| FaceSelection.SelectOnly | non_destructive_normals.py:167-182 | after deselecting everything, exactly the passing faces are selected, together with their vertices and edges, and no other vertex or edge. The count returned is the loop counter over all faces |
| FaceSelection.SelectOriginalFacesByMaterial | non_destructive_normals.py:164-185 | everything is deselected, then exactly the faces whose material index differs from the tag index are selected, with their vertices and edges. The count is their number |
| FaceSelection.SelectFacesByIndices | normalforge.py:638-659 | exactly the faces whose index is listed are selected, with their vertices and edges, and the count is their number |
| FaceSelection.SelectTaggedNgons | normalforge.py:414-433 | exactly the tagged faces with more than four vertices are selected, with their vertices and edges, and the count is their number |
| FaceSelection.CountIsChosenSize | auto_custom_normals.py:175-180 | the counter over the first n faces is the number of passing faces among them |
| FaceSelection.ListedCountIsSetSize | normalforge.py:652-657 | when every listed index is a face, the count is the size of the index set |
| FaceSelection.FlushReachesExactlyChosen | normalforge.py:339-341 | a vertex or edge is reached by the flush exactly when it belongs to some face that passes the test |
| FaceSelection.UntaggedPlusTagged | normalforge.py:338-342 | the number of selected original faces plus the number of tagged faces is the number of faces |
| MaterialSlots.FirstSlotNamed | normalforge.py:250-254 | returns the first slot holding the named material, or None exactly when no slot holds it |
| MaterialSlots.FindSlot | non_destructive_normals.py:124-128 | the enumerate loop with `break` returns FirstSlotNamed |
| MaterialSlots.RenumberedFaces | normalforge.py:260-264 | faces on the tag slot go to 0, faces above it move down by one, and faces below it are unchanged |
| MaterialSlots.RemoveSlot | normalforge.py:269-270 | the slot list loses exactly the slot at the index |
| MaterialSlots.RenumberFaces | auto_custom_normals.py:133-137 | the face-by-face loop leaves the face table equal to RenumberedFaces |
| MaterialSlots.MaterialSlotRemove | non_destructive_normals.py:144-145 | the active slot is deleted, and its material loses one user |
| MaterialSlots.DropSlot | auto_custom_normals.py:129-143 | renumbering followed by slot removal gives the state Dropped |
| MaterialSlots.DetachMaterial | normalforge.py:249-274 | the state equals Detached: the faces move off the first slot holding the name, that slot is deleted, and the material is deleted |
| MaterialSlots.NewMaterial | non_destructive_normals.py:113-118 | a new material with no users enters the library |
| MaterialSlots.AppendMaterial | normalforge.py:244 | a new last slot holds the material, which gains one user |
| MaterialSlots.RemoveMaterial | normalforge.py:272-274 | the material leaves the library |
| MaterialSlots.RenumberKeepsMaterial | normalforge.py:260-270 | after the tag slot is deleted, a face that was not on it points at the same material as before. Faces below the tag keep their index, faces above move down, and tagged faces go to 0 |
| MaterialSlots.DroppedKeepsMaterials | auto_custom_normals.py:129-143 | in the state Dropped, every non-tag face with a valid index still refers to the same material |
| MaterialSlots.DropAppended | auto_custom_normals.py:113-143 | dropping a slot appended last gives back the slot list and the faces |
| NormalForge.EdgesByAngle | normalforge.py:194-206 | boundary edges, and 2-face edges bent more than the threshold, get weight 1.0; the smooth flag is kept. The count is their number |
| NormalForge.Zeroed | normalforge.py:224-225 | every weight becomes 0.0, and nothing else changes |
| NormalForge.PrepareBevelWeights | normalforge.py:209-232 | the edge table and count equal Prepared for the chosen mode |
| NormalForge.AngleModeWeighsExactly | normalforge.py:223-226 | in 'ANGLE' mode the positively weighted edges are exactly the angle-selected ones, and the count is their number |
| NormalForge.WeightModeKeepsWeights | normalforge.py:216-221 | in 'BEVEL_WEIGHT' mode with some positive weight, nothing changes, and the count is the number of positively weighted edges |
| NormalForge.PreparedCountIsWeightedEdges | normalforge.py:209-232 | in either mode the count is the number of edges left with positive weight |
| NormalForge.CreateUniqueTagMaterial | normalforge.py:235-246 | a default slot is added first if the mesh had none, then one new tag slot. The index returned is that of the last slot |
| NormalForge.CleanupTagMaterial | normalforge.py:249-299 | the tag slot's faces are renumbered, the slot is deleted, and the tag material is removed. The same is then done for a `_NF_Default` slot |
| NormalForge.DropDefaultSlot | normalforge.py:276-299 | if a slot holds `_NF_Default`, its faces are renumbered, the slot is deleted and the material is removed; otherwise nothing changes |
| NormalForge.BeginAddsTagSlot | normalforge.py:235-246 | one slot is added, or two when there were none. The last slot holds the tag, its index is at least 1, and the earlier slots and the faces are unchanged |
| NormalForge.BeginThenEndRestores | normalforge.py:235-299 | with a fresh tag, no `_NF_Default` slot and valid face indices, create then cleanup gives back the slots, the faces and the library |
| NormalForge.CreateMeshBackup | normalforge.py:368-380 | the keyed backup is created under "nf_backup_mesh" with a ".nf_backup_" name |
| NormalForge.RestoreMeshBackup | normalforge.py:390-411 | the keyed restore runs under "nf_backup_mesh" |
| KeyedBackup.StoredName | auto_custom_normals.py:195-196 | `obj.get(key)` is truthy exactly when the key is set to a non-empty name, and it yields that name |
| KeyedBackup.HasBackup | normalforge.py:383-387 | has_backup holds exactly when the key is set to a non-empty name and a mesh with that name exists |
| KeyedBackup.CreateMeshBackup | auto_custom_normals.py:194-206 | the old keyed backup is removed, a copy of the object's mesh is stored under the new name, and the key points at it |
| KeyedBackup.RestoreMeshBackup | auto_custom_normals.py:216-237 | with no key or no mesh, it returns false and changes nothing. Otherwise the object takes a copy of the backup, and the old mesh, the backup and the key are deleted |
| KeyedBackup.CreateMakesBackup | auto_custom_normals.py:194-213 | after create, has_backup holds and the backup equals the object's mesh. The replaced backup is gone, and every other mesh is unchanged |
| KeyedBackup.RestoreFailsIffNoBackup | auto_custom_normals.py:209-224 | restore fails exactly when has_backup is false, and a failed restore changes nothing |
| KeyedBackup.RestoreConsumesBackup | auto_custom_normals.py:216-237 | a successful restore installs the backup's content, and afterwards has_backup is false |
| KeyedBackup.CreateThenRestore | normalforge.py:368-411 | create then restore gives the object back its mesh content and leaves no backup |
| AutoCustomNormals.CreateUniqueTagMaterial | auto_custom_normals.py:113-120 | a fresh tag material is appended in one new slot, and the index returned is the old slot count |
| AutoCustomNormals.CleanupTagMaterial | auto_custom_normals.py:123-148 | the tag slot's faces are renumbered, the slot is deleted, and the material is removed |
| AutoCustomNormals.CreateMeshBackup | auto_custom_normals.py:194-206 | the keyed backup is created under "acn_backup_mesh" with an ".acn_backup_" name |
| AutoCustomNormals.RestoreMeshBackup | auto_custom_normals.py:216-237 | the keyed restore runs under "acn_backup_mesh" |
| AutoCustomNormals.BeginAppendsOneSlot | auto_custom_normals.py:117-119 | exactly one slot, holding the tag, is appended at the old slot count. Earlier slots and faces are unchanged |
| AutoCustomNormals.EndWithoutTagSlot | auto_custom_normals.py:123-148 | with no tag slot, no slot and no face changes |
| AutoCustomNormals.BeginThenEndRestores | auto_custom_normals.py:113-148 | with a fresh tag and valid face indices, create then cleanup gives back the slots, the faces and the library |
| NonDestructive.WithTagMaterial | non_destructive_normals.py:113-118 | afterwards the library holds `_ACN_BevelTag` |
| NonDestructive.SetupMaterialTagging | non_destructive_normals.py:121-134 | the index and the state equal SetUp of the old state |
| NonDestructive.CleanupTagMaterial | non_destructive_normals.py:137-150 | the state equals CleanedUp of the old state |
| NonDestructive.SetUpFindsOrAppends | non_destructive_normals.py:121-134 | the index returned is the first slot holding the tag. A slot is appended only when there was none, and the faces are untouched |
| NonDestructive.SetUpIdempotent | non_destructive_normals.py:121-134 | a second setup returns the same index and changes nothing |
| NonDestructive.CleanupRemovesFirstTagSlot | non_destructive_normals.py:137-150 | at most the first tag slot is deleted, no face is renumbered, and other materials are kept. The tag material is kept exactly when it still has users after the removed slot's user is dropped: with its count unchanged when no slot held it, and one lower when a slot did |
| NonDestructive.SetUpThenCleanUp | non_destructive_normals.py:121-150 | with no tag slot before and no unused tag material, setup then cleanup gives back the state |
| SuffixBackup.CreateMeshBackup | non_destructive_normals.py:196-204 | the mesh under name + "_ACN_Backup" is replaced by a copy of the object's mesh, and that copy is returned |
| SuffixBackup.RestoreMeshBackup | non_destructive_normals.py:207-233 | the state equals Restored: the source name is chosen with the suffix test and the fallback lookup |
| SuffixBackup.HasBackup | non_destructive_normals.py:236-238 | when has_backup holds, a restore finds a source. When it does not, a restore still finds one exactly when the object's own mesh name ends with the suffix, and that source is the object's own mesh |
| SuffixBackup.CreateMakesBackup | non_destructive_normals.py:196-204 | after create, has_backup holds and the backup equals the mesh. Other meshes are unchanged |
| SuffixBackup.RestoreSucceedsIff | non_destructive_normals.py:207-238 | restore succeeds exactly when has_backup holds or the mesh name itself ends with the suffix. The fallback lookup finds nothing new, and a failure changes nothing |
| SuffixBackup.CreateThenRestore | non_destructive_normals.py:196-233 | create then restore gives back the mesh content, and removes the backup unless the name ended with the suffix |
| RegionClassifier.Sort | normalforge.py:583 | the result is ascending, has the same length and is a permutation of the input |
| RegionClassifier.InsertAscending | normalforge.py:583 | inserting into an ascending sequence keeps it ascending |
| RegionClassifier.NeighborTable | normalforge.py:604-611 | there is one neighbour set per face |
| RegionClassifier.BuildNeighbors | normalforge.py:604-611 | the triple loop builds NeighborTable |
| RegionClassifier.SplitByArea | normalforge.py:592-598 | the small faces are those with area below the cutoff, and the large faces are the rest |
| RegionClassifier.SeedFrontier | normalforge.py:613-618 | the first frontier is the small neighbours of the large faces |
| RegionClassifier.RegionStep | normalforge.py:625-627 | a small neighbour of a region face is in the region |
| RegionClassifier.FloodFill | normalforge.py:620-627 | the pop-confirm-push loop ends, whatever order faces are popped in, with exactly the least set closed over the seeds |
| RegionClassifier.CollectOriginal | normalforge.py:629-632 | the original faces are the large faces plus the unconfirmed small faces |
| RegionClassifier.DetectBevelFaces | normalforge.py:574-635 | the result equals Detect. It is (0, {}) for fewer than 2 faces, a median ≤ 0, or an empty small or large set |
| RegionClassifier.DetectPartitionsFaces | normalforge.py:629-635 | the count is the number of confirmed faces, and confirmed and original are disjoint. Both are empty on the early returns; otherwise confirmed faces are small, and together the two sets cover every face |
| RegionClassifier.RegionIsClosed | normalforge.py:620-627 | the region holds the seeds and every small neighbour of its faces |
| RegionClassifier.RegionIsUnique | normalforge.py:620-627 | a set of small faces that holds the seeds, is closed under small neighbours and lies inside every such set is the region |
| RegionClassifier.WalkEndsInRegion | normalforge.py:620-627 | the end of every walk through small faces from a seed is confirmed |
| RegionClassifier.RegionIsReachable | normalforge.py:613-627 | a face is confirmed exactly when some walk through small faces reaches it from a small neighbour of a large face |
| RegionClassifier.LinkedViaMembers | normalforge.py:606-610 | a face is in the neighbour set exactly when it is a different face on one of the edges |
| RegionClassifier.NeighborsShareAnEdge | normalforge.py:604-611 | with consistent incidence, two faces are neighbours exactly when they are different and share an edge, so the relation is symmetric |
| RegionClassifier.MedianIsAnArea | normalforge.py:583-584 | the median is the area of some face |
| RegionClassifier.UniformAreasConfirmNothing | normalforge.py:583-602 | when all faces have equal area, the result is (0, {}) |

## Left out

- Operators, panels, property groups and registration are left out. They are user interface and orchestration of `bpy.ops` calls; mode switching (`ensure_object_mode` / `ensure_edit_mode`) and `mesh_select_mode` are not modelled either.
- Some Blender operations are called as black boxes and not modelled: `modifier_apply`, `set_normals_from_faces`, `quads_convert_to_tris` / `tris_convert_to_quads`, `bmesh.from_mesh` / `to_mesh`, and the bevel modifier (`add_bevel_modifier`). `fix_bevel_ngons` is modelled up to its selection count.
- The angle between face normals and the face areas are given reals on each edge and face, not computed. Floating-point rounding is not modelled.
- `bpy.ops.object.material_slot_remove` is modelled as deleting the slot and taking one user from its material. Its own reassignment of face indices is not modelled.
- MaterialSlots.MaterialSlotRemove: a material's user count stops at zero instead of counting the users other objects hold.
- Blender's automatic renaming of clashing datablock names (".001") is not modelled. Tag material names and backup names are fresh tokens given by the caller; `uuid.uuid4()` is replaced by that token.
- The restored mesh gets a caller-given name not in use. In Blender, setting it to the current mesh's name yields a ".001" variant because that name is still taken at that moment.
- NormalForge.CreateUniqueTagMaterial requires that `_NF_Default` is not yet a material name when the mesh has no slots. Otherwise Blender would rename the new material and the cleanup would not find it by name.
- KeyedBackup.CreateMakesBackup: the removal of the replaced backup is only stated when the new name differs from the old one. The two are distinct uuids in the add-on.
- Custom-normal synthesis is not in these files. They only call Blender's `set_normals_from_faces`.
- The object's mesh is always assumed to exist in the mesh registry, and the backup key never names the object's own mesh (KeyedBackup.Consistent). Create and restore keep this invariant.
