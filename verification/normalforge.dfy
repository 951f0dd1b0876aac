/**
 * The parts of normalforge.py that are not shared with the other two files:
 * angle detection without un-smoothing, the weight preparation step with its
 * two modes, and the tag-material lifecycle that inserts a default slot into
 * a mesh that has none. Its backup is kept under the object key
 * "nf_backup_mesh"; the backup rules themselves are those of `KeyedBackup`.
 */
module NormalForge {
  import opened Wrappers
  import opened BlenderMesh
  import opened EdgeWeights
  import opened MaterialSlots
  import opened MeshStore
  import KeyedBackup

  const DEFAULT_MATERIAL: string := "_NF_Default"
  const TAG_PREFIX: string := "_NF_Tag_"
  const SOURCE_BEVEL_WEIGHT: string := "BEVEL_WEIGHT"
  const SOURCE_ANGLE: string := "ANGLE"
  const BACKUP_KEY: string := "nf_backup_mesh"
  const BACKUP_PREFIX: string := ".nf_backup_"

  // ---------------------------------------------------------------------
  // Edge weights.

  /** `edges_by_angle`: weight 1.0 on every boundary edge and on every 2-face
      edge bent more than the threshold; unlike `auto_sharp_to_bevel_weight`
      it leaves the smooth flag alone. */
  method EdgesByAngle(bm: Mesh, angleThreshold: real) returns (count: nat)
    modifies bm.edges
    ensures bm.edges[..] == WeighWhere(old(bm.edges[..]), AngleOrBoundary(angleThreshold), false)
    ensures count == Count(old(bm.edges[..]), AngleOrBoundary(angleThreshold))
  {
    ghost var es := bm.edges[..];
    count := 0;
    for i := 0 to bm.edges.Length
      invariant forall k :: 0 <= k < i ==> bm.edges[k] == WeighWhere(es, AngleOrBoundary(angleThreshold), false)[k]
      invariant forall k :: i <= k < bm.edges.Length ==> bm.edges[k] == es[k]
      invariant count == Count(es[..i], AngleOrBoundary(angleThreshold))
    {
      assert es[..i + 1][..i] == es[..i];
      var faceCount := |bm.edges[i].linkFaces|;
      if faceCount == 2 {
        if bm.edges[i].angle > angleThreshold {
          bm.edges[i] := bm.edges[i].(weight := 1.0);
          count := count + 1;
        }
      } else if faceCount == 1 {
        bm.edges[i] := bm.edges[i].(weight := 1.0);
        count := count + 1;
      }
    }
    assert es[..bm.edges.Length] == es;
  }

  /** Every weight reset to 0.0. */
  function Zeroed(es: seq<Edge>): (r: seq<Edge>)
    ensures |r| == |es|
    ensures forall i :: 0 <= i < |es| ==> r[i].weight == 0.0 && r[i].(weight := es[i].weight) == es[i]
  {
    seq(|es|, i requires 0 <= i < |es| => es[i].(weight := 0.0))
  }

  /** What `prepare_bevel_weights` leaves in the edge table and returns. */
  function Prepared(es: seq<Edge>, source: string, angleThreshold: real): (seq<Edge>, nat)
  {
    if source == SOURCE_BEVEL_WEIGHT then
      if Count(es, PositiveWeight) == 0
      then (WeighWhere(es, AngleOrBoundary(angleThreshold), false), Count(es, AngleOrBoundary(angleThreshold)))
      else (es, Count(es, PositiveWeight))
    else if source == SOURCE_ANGLE then
      (WeighWhere(Zeroed(es), AngleOrBoundary(angleThreshold), false),
       Count(Zeroed(es), AngleOrBoundary(angleThreshold)))
    else (es, 0)
  }

  /** `prepare_bevel_weights`: in "BEVEL_WEIGHT" mode keep the existing
      weights and count them, falling back to angle detection when there are
      none; in "ANGLE" mode reset every weight and detect by angle. */
  method PrepareBevelWeights(bm: Mesh, source: string, angleThreshold: real) returns (count: nat)
    modifies bm.edges
    ensures (bm.edges[..], count) == Prepared(old(bm.edges[..]), source, angleThreshold)
  {
    ghost var es := bm.edges[..];
    count := 0;
    if source == SOURCE_BEVEL_WEIGHT {
      for i := 0 to bm.edges.Length
        invariant count == Count(es[..i], PositiveWeight)
      {
        assert es[..i + 1][..i] == es[..i];
        if bm.edges[i].weight > 0.0 {
          count := count + 1;
        }
      }
      assert es[..bm.edges.Length] == es;
      if count == 0 {
        count := EdgesByAngle(bm, angleThreshold);
      }
    } else if source == SOURCE_ANGLE {
      for i := 0 to bm.edges.Length
        invariant forall k :: 0 <= k < i ==> bm.edges[k] == es[k].(weight := 0.0)
        invariant forall k :: i <= k < bm.edges.Length ==> bm.edges[k] == es[k]
      {
        bm.edges[i] := bm.edges[i].(weight := 0.0);
      }
      assert bm.edges[..] == Zeroed(es);
      count := EdgesByAngle(bm, angleThreshold);
    }
  }

  /** In "ANGLE" mode the edges left with a positive weight are exactly the
      edges the angle rule selects, and the count is their number. */
  lemma AngleModeWeighsExactly(es: seq<Edge>, angleThreshold: real)
    ensures Matching(Prepared(es, SOURCE_ANGLE, angleThreshold).0, PositiveWeight)
         == Matching(es, AngleOrBoundary(angleThreshold))
    ensures Prepared(es, SOURCE_ANGLE, angleThreshold).1 == |Matching(es, AngleOrBoundary(angleThreshold))|
  {
    var rule := AngleOrBoundary(angleThreshold);
    var zeroed := Zeroed(es);
    var r := Prepared(es, SOURCE_ANGLE, angleThreshold).0;
    assert SOURCE_ANGLE != SOURCE_BEVEL_WEIGHT by { assert SOURCE_ANGLE[0] != SOURCE_BEVEL_WEIGHT[0]; }
    assert Matching(r, PositiveWeight) == Matching(es, rule);
    CountAgrees(zeroed, es, rule);
    CountIsMatchingSize(es, rule);
  }

  /** In "BEVEL_WEIGHT" mode, when some edge already has a positive weight,
      nothing changes and the count is the number of such edges. */
  lemma WeightModeKeepsWeights(es: seq<Edge>, angleThreshold: real)
    requires exists i :: 0 <= i < |es| && es[i].weight > 0.0
    ensures Prepared(es, SOURCE_BEVEL_WEIGHT, angleThreshold) == (es, |Matching(es, PositiveWeight)|)
  {
    CountZeroIffNone(es, PositiveWeight);
    CountIsMatchingSize(es, PositiveWeight);
  }

  /** In both modes the returned count is the number of edges the bevel
      modifier will see as weighted (weight > 0) afterwards. */
  lemma PreparedCountIsWeightedEdges(es: seq<Edge>, source: string, angleThreshold: real)
    requires source == SOURCE_BEVEL_WEIGHT || source == SOURCE_ANGLE
    ensures Prepared(es, source, angleThreshold).1 == |Matching(Prepared(es, source, angleThreshold).0, PositiveWeight)|
  {
    var rule := AngleOrBoundary(angleThreshold);
    if source == SOURCE_ANGLE {
      AngleModeWeighsExactly(es, angleThreshold);
    } else if Count(es, PositiveWeight) == 0 {
      CountZeroIffNone(es, PositiveWeight);
      var r := WeighWhere(es, rule, false);
      assert Matching(r, PositiveWeight) == Matching(es, rule);
      CountIsMatchingSize(es, rule);
    } else {
      CountIsMatchingSize(es, PositiveWeight);
    }
  }

  // ---------------------------------------------------------------------
  // Tag material lifecycle.

  /** The state after `create_unique_tag_material` with tag material `tag`. */
  function Begun(s: TagState, tag: string): TagState
  {
    var withDefault :=
      if |s.slots| == 0 then WithAppended(WithNewMaterial(s, DEFAULT_MATERIAL), DEFAULT_MATERIAL) else s;
    WithAppended(WithNewMaterial(withDefault, tag), tag)
  }

  /** The default half of `cleanup_tag_material`: when a slot holds
      `_NF_Default`, its faces move off it, the slot is deleted, and so is the
      material. */
  function DefaultDropped(s: TagState): TagState
  {
    match FirstSlotNamed(s.slots, DEFAULT_MATERIAL)
    case Some(d) => WithoutMaterial(Dropped(s, d), DEFAULT_MATERIAL)
    case None => s
  }

  /** The state after `cleanup_tag_material` for tag material `tag`. */
  function Ended(s: TagState, tag: string): TagState
  {
    DefaultDropped(Detached(s, tag))
  }

  /** `create_unique_tag_material`: a default slot first when the mesh has
      none, then a slot holding a new material `_NF_Tag_<token>`; returns the
      index of that last slot and the material's name. */
  method CreateUniqueTagMaterial(mesh: Mesh, lib: MaterialLibrary, token: string)
    returns (tagSlotIndex: nat, tagName: string)
    requires TAG_PREFIX + token !in lib.users
    requires |mesh.materials| == 0 ==> DEFAULT_MATERIAL !in lib.users
    modifies mesh, lib
    ensures tagName == TAG_PREFIX + token
    ensures StateOf(mesh, lib) == Begun(old(StateOf(mesh, lib)), tagName)
    ensures tagSlotIndex == |mesh.materials| - 1
  {
    if |mesh.materials| == 0 {
      NewMaterial(lib, DEFAULT_MATERIAL);
      AppendMaterial(mesh, lib, DEFAULT_MATERIAL);
    }
    tagName := TAG_PREFIX + token;
    assert tagName != DEFAULT_MATERIAL by { assert tagName[4] != DEFAULT_MATERIAL[4]; }
    NewMaterial(lib, tagName);
    AppendMaterial(mesh, lib, tagName);
    tagSlotIndex := |mesh.materials| - 1;
  }

  /** The default-slot half of `cleanup_tag_material`. */
  method DropDefaultSlot(mesh: Mesh, lib: MaterialLibrary)
    modifies mesh, mesh.faces, lib
    ensures StateOf(mesh, lib) == DefaultDropped(old(StateOf(mesh, lib)))
  {
    var defaultIndex := FindSlot(mesh.materials, DEFAULT_MATERIAL);
    if defaultIndex.Some? {
      var hadDefault := DEFAULT_MATERIAL in lib.users;
      DropSlot(mesh, lib, defaultIndex.value);
      if hadDefault {
        RemoveMaterial(lib, DEFAULT_MATERIAL);
      }
    }
  }

  /** `cleanup_tag_material`: move the faces off the slot holding `tagName`
      and delete it, delete the material; then do the same for a slot holding
      the default material, if there is one. */
  method CleanupTagMaterial(mesh: Mesh, lib: MaterialLibrary, tagName: string)
    modifies mesh, mesh.faces, lib
    ensures StateOf(mesh, lib) == Ended(old(StateOf(mesh, lib)), tagName)
  {
    DetachMaterial(mesh, lib, tagName);
    DropDefaultSlot(mesh, lib);
  }

  /** Creating the tag adds one slot, or two when the mesh had none; the
      returned index is that of the last slot, which holds the tag, and is
      never slot 0. */
  lemma BeginAddsTagSlot(s: TagState, tag: string)
    ensures |Begun(s, tag).slots| == |s.slots| + (if |s.slots| == 0 then 2 else 1)
    ensures Begun(s, tag).slots[|Begun(s, tag).slots| - 1] == Holds(tag)
    ensures |Begun(s, tag).slots| - 1 >= 1
    ensures |s.slots| > 0 ==> Begun(s, tag).slots[..|s.slots|] == s.slots
    ensures Begun(s, tag).faces == s.faces
  {
  }

  /** Creating the tag material and cleaning it up straight away gives back
      the slot list, every face's material index and the library, provided
      the tag name is fresh, no slot holds `_NF_Default`, and every face
      refers to an existing slot (or to slot 0 when there are none). */
  lemma BeginThenEndRestores(s: TagState, tag: string)
    requires tag !in s.users && tag != DEFAULT_MATERIAL
    requires forall j :: 0 <= j < |s.slots| ==> s.slots[j] != Holds(tag) && s.slots[j] != Holds(DEFAULT_MATERIAL)
    requires |s.slots| == 0 ==> DEFAULT_MATERIAL !in s.users
    requires forall i :: 0 <= i < |s.faces| ==> s.faces[i].materialIndex < |s.slots| || s.faces[i].materialIndex == 0
    ensures Ended(Begun(s, tag), tag) == s
  {
    var b := Begun(s, tag);
    if |s.slots| == 0 {
      var d := WithAppended(WithNewMaterial(s, DEFAULT_MATERIAL), DEFAULT_MATERIAL);
      assert b.slots == [Holds(DEFAULT_MATERIAL), Holds(tag)];
      assert FirstSlotNamed(b.slots, tag) == Some(1);
      var afterTag := WithoutMaterial(Dropped(b, 1), tag);
      assert afterTag.slots == [Holds(DEFAULT_MATERIAL)];
      assert afterTag.faces == s.faces;
      assert FirstSlotNamed(afterTag.slots, DEFAULT_MATERIAL) == Some(0);
      var e := WithoutMaterial(Dropped(afterTag, 0), DEFAULT_MATERIAL);
      assert e.slots == s.slots;
      assert e.faces == s.faces;
      assert e.users == s.users;
    } else {
      FirstSlotIsUnique(b.slots, tag, |s.slots|);
      var afterTag := WithoutMaterial(Dropped(b, |s.slots|), tag);
      DropAppended(s, Holds(tag));
      assert afterTag.slots == s.slots;
      assert afterTag.faces == s.faces;
      assert afterTag.users == s.users;
      assert FirstSlotNamed(afterTag.slots, DEFAULT_MATERIAL) == None;
    }
  }

  // ---------------------------------------------------------------------
  // Mesh backup.

  /** `create_mesh_backup` with the "nf_backup_mesh" key; `token` stands for
      the eight hex digits of a fresh uuid. */
  method CreateMeshBackup(obj: SceneObject, reg: MeshRegistry, token: string)
    requires KeyedBackup.Consistent(StoreOf(obj, reg), BACKUP_KEY) && BACKUP_PREFIX + token !in reg.meshes
    modifies obj, reg
    ensures StoreOf(obj, reg) == KeyedBackup.Created(old(StoreOf(obj, reg)), BACKUP_KEY, BACKUP_PREFIX + token)
  {
    KeyedBackup.CreateMeshBackup(obj, reg, BACKUP_KEY, BACKUP_PREFIX + token);
  }

  /** `restore_mesh_backup` with the "nf_backup_mesh" key. */
  method RestoreMeshBackup(obj: SceneObject, reg: MeshRegistry, restoredName: string) returns (ok: bool)
    requires KeyedBackup.Consistent(StoreOf(obj, reg), BACKUP_KEY) && restoredName !in reg.meshes
    modifies obj, reg
    ensures (ok, StoreOf(obj, reg)) == KeyedBackup.Restored(old(StoreOf(obj, reg)), BACKUP_KEY, restoredName)
  {
    ok := KeyedBackup.RestoreMeshBackup(obj, reg, BACKUP_KEY, restoredName);
  }
}
