/**
 * The parts of auto_custom_normals.py that differ from the other two files:
 * a fresh tag material per run, appended without a default slot and cleaned
 * up with renumbering, and the backup kept under the object key
 * "acn_backup_mesh". The edge-weight loops are those of `EdgeWeights`.
 */
module AutoCustomNormals {
  import opened Wrappers
  import opened BlenderMesh
  import opened MaterialSlots
  import opened MeshStore
  import KeyedBackup

  const TAG_PREFIX: string := "_ACN_Tag_"
  const BACKUP_KEY: string := "acn_backup_mesh"
  const BACKUP_PREFIX: string := ".acn_backup_"

  /** The state after `create_unique_tag_material` with tag material `tag`. */
  function Begun(s: TagState, tag: string): TagState
  {
    WithAppended(WithNewMaterial(s, tag), tag)
  }

  /** `create_unique_tag_material`: a new material `_ACN_Tag_<token>` in a
      new last slot; returns that slot's index and the material's name. */
  method CreateUniqueTagMaterial(mesh: Mesh, lib: MaterialLibrary, token: string)
    returns (tagSlotIndex: nat, tagName: string)
    requires TAG_PREFIX + token !in lib.users
    modifies mesh, lib
    ensures tagName == TAG_PREFIX + token
    ensures StateOf(mesh, lib) == Begun(old(StateOf(mesh, lib)), tagName)
    ensures tagSlotIndex == |old(mesh.materials)|
  {
    tagName := TAG_PREFIX + token;
    NewMaterial(lib, tagName);
    AppendMaterial(mesh, lib, tagName);
    tagSlotIndex := |mesh.materials| - 1;
  }

  /** `cleanup_tag_material`: move the faces off the first slot holding
      `tagName` and delete it, then delete the material. */
  method CleanupTagMaterial(mesh: Mesh, lib: MaterialLibrary, tagName: string)
    modifies mesh, mesh.faces, lib
    ensures StateOf(mesh, lib) == Detached(old(StateOf(mesh, lib)), tagName)
  {
    DetachMaterial(mesh, lib, tagName);
  }

  /** `create_mesh_backup` with the "acn_backup_mesh" key. */
  method CreateMeshBackup(obj: SceneObject, reg: MeshRegistry, token: string)
    requires KeyedBackup.Consistent(StoreOf(obj, reg), BACKUP_KEY) && BACKUP_PREFIX + token !in reg.meshes
    modifies obj, reg
    ensures StoreOf(obj, reg) == KeyedBackup.Created(old(StoreOf(obj, reg)), BACKUP_KEY, BACKUP_PREFIX + token)
  {
    KeyedBackup.CreateMeshBackup(obj, reg, BACKUP_KEY, BACKUP_PREFIX + token);
  }

  /** `restore_mesh_backup` with the "acn_backup_mesh" key. */
  method RestoreMeshBackup(obj: SceneObject, reg: MeshRegistry, restoredName: string) returns (ok: bool)
    requires KeyedBackup.Consistent(StoreOf(obj, reg), BACKUP_KEY) && restoredName !in reg.meshes
    modifies obj, reg
    ensures (ok, StoreOf(obj, reg)) == KeyedBackup.Restored(old(StoreOf(obj, reg)), BACKUP_KEY, restoredName)
  {
    ok := KeyedBackup.RestoreMeshBackup(obj, reg, BACKUP_KEY, restoredName);
  }

  /** Creating the tag appends exactly one slot, holding the tag, after the
      existing ones; the returned index is the old slot count. */
  lemma BeginAppendsOneSlot(s: TagState, tag: string)
    ensures |Begun(s, tag).slots| == |s.slots| + 1
    ensures Begun(s, tag).slots[..|s.slots|] == s.slots
    ensures Begun(s, tag).slots[|s.slots|] == Holds(tag)
    ensures Begun(s, tag).faces == s.faces
  {
  }

  /** With no slot holding the tag material no face and no slot changes;
      only the material itself is deleted. */
  lemma EndWithoutTagSlot(s: TagState, tag: string)
    requires forall j :: 0 <= j < |s.slots| ==> s.slots[j] != Holds(tag)
    ensures Detached(s, tag) == s.(users := s.users - {tag})
  {
  }

  /** Creating the tag material and cleaning it up straight away gives back
      the slot list, every face's material index and the library, provided
      the tag name is fresh and every face refers to an existing slot (or to
      slot 0 when there are none). */
  lemma BeginThenEndRestores(s: TagState, tag: string)
    requires tag !in s.users
    requires forall j :: 0 <= j < |s.slots| ==> s.slots[j] != Holds(tag)
    requires forall i :: 0 <= i < |s.faces| ==> s.faces[i].materialIndex < |s.slots| || s.faces[i].materialIndex == 0
    ensures Detached(Begun(s, tag), tag) == s
  {
    var b := Begun(s, tag);
    FirstSlotIsUnique(b.slots, tag, |s.slots|);
    if |s.slots| == 0 {
      assert Dropped(b, 0).faces == s.faces;
      assert Dropped(b, 0).slots == s.slots;
    } else {
      DropAppended(s, Holds(tag));
    }
    assert Dropped(b, |s.slots|).users == s.users[tag := 0];
  }
}
