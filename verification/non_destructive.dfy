/**
 * The tag-material handling of non_destructive_normals.py: one fixed tag
 * material, `_ACN_BevelTag`, reused across runs. Setting up finds the first
 * slot holding it or appends one; cleaning up deletes that slot without
 * renumbering any face and deletes the material once nothing uses it.
 */
module NonDestructive {
  import opened Wrappers
  import opened BlenderMesh
  import opened MaterialSlots

  const TAG_MATERIAL: string := "_ACN_BevelTag"

  /** `get_or_create_tag_material`: the library after the tag material is
      looked up, and made with no users when it is missing. */
  function WithTagMaterial(s: TagState): (r: TagState)
    ensures TAG_MATERIAL in r.users
  {
    if TAG_MATERIAL in s.users then s else WithNewMaterial(s, TAG_MATERIAL)
  }

  /** `setup_material_tagging`: the slot index to tag with, and the new state. */
  function SetUp(s: TagState): (nat, TagState)
  {
    var t := WithTagMaterial(s);
    match FirstSlotNamed(t.slots, TAG_MATERIAL)
    case Some(i) => (i, t)
    case None => (|t.slots|, WithAppended(t, TAG_MATERIAL))
  }

  /** `cleanup_tag_material`: the first slot holding the tag material is
      deleted (faces are not touched), then the material is deleted if it has
      no users left. */
  function CleanedUp(s: TagState): TagState
  {
    var unslotted := match FirstSlotNamed(s.slots, TAG_MATERIAL)
      case Some(i) => s.(slots := RemoveSlot(s.slots, i), users := Unlinked(s.users, s.slots[i]))
      case None => s;
    if TAG_MATERIAL in unslotted.users && unslotted.users[TAG_MATERIAL] == 0
    then WithoutMaterial(unslotted, TAG_MATERIAL)
    else unslotted
  }

  method SetupMaterialTagging(mesh: Mesh, lib: MaterialLibrary) returns (tagSlotIndex: nat)
    modifies mesh, lib
    ensures (tagSlotIndex, StateOf(mesh, lib)) == SetUp(old(StateOf(mesh, lib)))
  {
    if TAG_MATERIAL !in lib.users {
      NewMaterial(lib, TAG_MATERIAL);
    }
    var found := FindSlot(mesh.materials, TAG_MATERIAL);
    if found.Some? {
      tagSlotIndex := found.value;
    } else {
      AppendMaterial(mesh, lib, TAG_MATERIAL);
      tagSlotIndex := |mesh.materials| - 1;
    }
  }

  method CleanupTagMaterial(mesh: Mesh, lib: MaterialLibrary)
    modifies mesh, lib
    ensures StateOf(mesh, lib) == CleanedUp(old(StateOf(mesh, lib)))
  {
    var tagIndex := FindSlot(mesh.materials, TAG_MATERIAL);
    if tagIndex.Some? {
      MaterialSlotRemove(mesh, lib, tagIndex.value);
    }
    if TAG_MATERIAL in lib.users && lib.users[TAG_MATERIAL] == 0 {
      RemoveMaterial(lib, TAG_MATERIAL);
    }
  }

  /** The returned index is the first slot holding the tag material; a slot
      is appended only when there was none, and the faces are untouched. */
  lemma SetUpFindsOrAppends(s: TagState)
    ensures var (i, t) := SetUp(s);
      && FirstSlotNamed(t.slots, TAG_MATERIAL) == Some(i)
      && t.faces == s.faces
      && TAG_MATERIAL in t.users
      && t.slots[..|s.slots|] == s.slots
      && (FirstSlotNamed(s.slots, TAG_MATERIAL).Some? ==> t.slots == s.slots && i == FirstSlotNamed(s.slots, TAG_MATERIAL).value)
      && (FirstSlotNamed(s.slots, TAG_MATERIAL).None? ==> |t.slots| == |s.slots| + 1 && i == |s.slots|)
  {
    var t := WithTagMaterial(s);
    if FirstSlotNamed(t.slots, TAG_MATERIAL).None? {
      var u := WithAppended(t, TAG_MATERIAL);
      FirstSlotIsUnique(u.slots, TAG_MATERIAL, |t.slots|);
    }
  }

  /** A second set-up finds the slot the first one made and changes nothing. */
  lemma SetUpIdempotent(s: TagState)
    ensures SetUp(SetUp(s).1) == SetUp(s)
  {
    SetUpFindsOrAppends(s);
  }

  /** Clean-up deletes at most one slot, the first holding the tag material,
      never renumbers a face and keeps every other material as it was. The tag
      material stays exactly while something still uses it once the removed
      slot's user is dropped, with that user count. */
  lemma CleanupRemovesFirstTagSlot(s: TagState)
    ensures var r := CleanedUp(s);
      && r.faces == s.faces
      && (FirstSlotNamed(s.slots, TAG_MATERIAL).None? ==> r.slots == s.slots)
      && (FirstSlotNamed(s.slots, TAG_MATERIAL).Some? ==>
            var i := FirstSlotNamed(s.slots, TAG_MATERIAL).value;
            r.slots == s.slots[..i] + s.slots[i + 1..])
      && (forall n :: n != TAG_MATERIAL ==> (n in r.users <==> n in s.users))
      && (forall n :: n != TAG_MATERIAL && n in s.users ==> r.users[n] == s.users[n])
      && (TAG_MATERIAL in r.users ==> r.users[TAG_MATERIAL] > 0)
      && (TAG_MATERIAL !in s.users ==> TAG_MATERIAL !in r.users)
      && (FirstSlotNamed(s.slots, TAG_MATERIAL).None? && TAG_MATERIAL in s.users ==>
            && (TAG_MATERIAL in r.users <==> s.users[TAG_MATERIAL] > 0)
            && (s.users[TAG_MATERIAL] > 0 ==> r.users[TAG_MATERIAL] == s.users[TAG_MATERIAL]))
      && (FirstSlotNamed(s.slots, TAG_MATERIAL).Some? && TAG_MATERIAL in s.users ==>
            && (TAG_MATERIAL in r.users <==> s.users[TAG_MATERIAL] > 1)
            && (s.users[TAG_MATERIAL] > 1 ==> r.users[TAG_MATERIAL] == s.users[TAG_MATERIAL] - 1))
  {
  }

  /** Set-up followed by clean-up gives back the state, when no slot held
      the tag material before and the library did not hold it unused. */
  lemma SetUpThenCleanUp(s: TagState)
    requires forall j :: 0 <= j < |s.slots| ==> s.slots[j] != Holds(TAG_MATERIAL)
    requires TAG_MATERIAL in s.users ==> s.users[TAG_MATERIAL] > 0
    ensures CleanedUp(SetUp(s).1) == s
  {
    var t := WithTagMaterial(s);
    var u := WithAppended(t, TAG_MATERIAL);
    FirstSlotIsUnique(u.slots, TAG_MATERIAL, |s.slots|);
    assert RemoveSlot(u.slots, |s.slots|) == s.slots;
    if TAG_MATERIAL in s.users {
      assert s.users[TAG_MATERIAL := s.users[TAG_MATERIAL]] == s.users;
    } else {
      assert s.users[TAG_MATERIAL := 0] - {TAG_MATERIAL} == s.users;
    }
  }
}
