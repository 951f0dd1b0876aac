/**
 * Material slots and the material library, as the tagging code of all three
 * files uses them: look a slot up by material name, move faces off a slot
 * that is about to go away, delete the slot, and create or remove materials.
 */
module MaterialSlots {
  import opened Wrappers
  import opened BlenderMesh

  /** `bpy.data.materials`: each material by name, with its user count. */
  class MaterialLibrary {
    var users: map<string, nat>
  }

  /** The tagging state of one object: its slot list, its faces and the
      material library. */
  datatype TagState = TagState(slots: seq<Slot>, faces: seq<Face>, users: map<string, nat>)

  /** The state of a mesh and a library, as a value. */
  function StateOf(mesh: Mesh, lib: MaterialLibrary): TagState
    reads mesh, mesh.faces, lib
  {
    TagState(mesh.materials, mesh.faces[..], lib.users)
  }

  /** The first slot that holds the material called `name`. */
  function FirstSlotNamed(slots: seq<Slot>, name: string): (r: Option<nat>)
    ensures r.Some? ==> r.value < |slots| && slots[r.value] == Holds(name)
    ensures r.Some? ==> forall j :: 0 <= j < r.value ==> slots[j] != Holds(name)
    ensures r.None? <==> forall j :: 0 <= j < |slots| ==> slots[j] != Holds(name)
  {
    if slots == [] then None
    else if slots[0] == Holds(name) then Some(0)
    else match FirstSlotNamed(slots[1..], name)
      case None => None
      case Some(k) => Some(k + 1)
  }

  /** The slot lookup loop `for i, slot in enumerate(obj.material_slots)`
      that stops at the first slot whose material has the given name. */
  method FindSlot(slots: seq<Slot>, name: string) returns (index: Option<nat>)
    ensures index == FirstSlotNamed(slots, name)
  {
    index := None;
    var i := 0;
    while i < |slots|
      invariant 0 <= i <= |slots|
      invariant forall j :: 0 <= j < i ==> slots[j] != Holds(name)
    {
      if slots[i].Holds? && slots[i].name == name {
        index := Some(i);
        FirstSlotIsUnique(slots, name, i);
        return;
      }
      i := i + 1;
    }
  }

  /** A slot holding `name` with no such slot before it is the first one. */
  lemma FirstSlotIsUnique(slots: seq<Slot>, name: string, i: nat)
    requires i < |slots| && slots[i] == Holds(name)
    requires forall j :: 0 <= j < i ==> slots[j] != Holds(name)
    ensures FirstSlotNamed(slots, name) == Some(i)
  {
    var r := FirstSlotNamed(slots, name);
    assert r.Some?;
    assert !(r.value < i) && !(i < r.value);
  }

  /** Where a face's material index goes when slot `tag` is removed:
      faces on it move to slot 0, faces above it move down by one. */
  function Renumber(index: nat, tag: nat): nat
  {
    if index == tag then 0 else if index > tag then index - 1 else index
  }

  /** The face table after the renumbering loop of `cleanup_tag_material`. */
  function RenumberedFaces(faces: seq<Face>, tag: nat): (r: seq<Face>)
    ensures |r| == |faces|
    ensures forall i :: 0 <= i < |faces| ==>
      r[i].(materialIndex := faces[i].materialIndex) == faces[i]
  {
    seq(|faces|, i requires 0 <= i < |faces| =>
      faces[i].(materialIndex := Renumber(faces[i].materialIndex, tag)))
  }

  /** The slot list with slot `i` deleted, as `material_slot_remove` leaves it. */
  function RemoveSlot(slots: seq<Slot>, i: nat): (r: seq<Slot>)
    requires i < |slots|
    ensures |r| == |slots| - 1
  {
    slots[..i] + slots[i + 1..]
  }

  /** The user counts after a slot holding `slot` is deleted. Blender never
      lets a linked material's count drop below the slots holding it; the
      model does not track other holders, so it stops at zero. */
  function Unlinked(users: map<string, nat>, slot: Slot): map<string, nat>
  {
    if slot.Holds? && slot.name in users && users[slot.name] > 0
    then users[slot.name := users[slot.name] - 1]
    else users
  }

  /** The state after renumbering the faces off slot `tag` and deleting it. */
  function Dropped(s: TagState, tag: nat): TagState
    requires tag < |s.slots|
  {
    TagState(RemoveSlot(s.slots, tag), RenumberedFaces(s.faces, tag), Unlinked(s.users, s.slots[tag]))
  }

  /** `bpy.data.materials.remove`: the material is gone from the library. */
  function WithoutMaterial(s: TagState, name: string): TagState
  {
    s.(users := s.users - {name})
  }

  /** The renumbering loop: `face.material_index` rewritten face by face. */
  method RenumberFaces(faces: array<Face>, tag: nat)
    modifies faces
    ensures faces[..] == RenumberedFaces(old(faces[..]), tag)
  {
    for i := 0 to faces.Length
      invariant forall k :: 0 <= k < i ==> faces[k] == RenumberedFaces(old(faces[..]), tag)[k]
      invariant forall k :: i <= k < faces.Length ==> faces[k] == old(faces[k])
    {
      if faces[i].materialIndex == tag {
        faces[i] := faces[i].(materialIndex := 0);
      } else if faces[i].materialIndex > tag {
        faces[i] := faces[i].(materialIndex := faces[i].materialIndex - 1);
      }
    }
  }

  /** `bpy.ops.object.material_slot_remove()` on the active slot `index`:
      the slot is deleted and its material loses a user. */
  method MaterialSlotRemove(mesh: Mesh, lib: MaterialLibrary, index: nat)
    requires index < |mesh.materials|
    modifies mesh, lib
    ensures mesh.materials == RemoveSlot(old(mesh.materials), index)
    ensures lib.users == Unlinked(old(lib.users), old(mesh.materials[index]))
  {
    var slot := mesh.materials[index];
    mesh.materials := mesh.materials[..index] + mesh.materials[index + 1..];
    if slot.Holds? && slot.name in lib.users && lib.users[slot.name] > 0 {
      lib.users := lib.users[slot.name := lib.users[slot.name] - 1];
    }
  }

  /** Renumber the faces off slot `tag`, then delete the slot: the first half
      of `cleanup_tag_material` in normalforge.py and auto_custom_normals.py. */
  method DropSlot(mesh: Mesh, lib: MaterialLibrary, tag: nat)
    requires tag < |mesh.materials|
    modifies mesh, mesh.faces, lib
    ensures StateOf(mesh, lib) == Dropped(old(StateOf(mesh, lib)), tag)
  {
    RenumberFaces(mesh.faces, tag);
    MaterialSlotRemove(mesh, lib, tag);
  }

  /** `bpy.data.materials.new(name=...)` under a name no material has yet. */
  function WithNewMaterial(s: TagState, name: string): TagState
  {
    s.(users := s.users[name := 0])
  }

  /** `obj.data.materials.append(mat)`: a new last slot holding `name`, and
      one more user of that material. */
  function WithAppended(s: TagState, name: string): TagState
    requires name in s.users
  {
    s.(slots := s.slots + [Holds(name)], users := s.users[name := s.users[name] + 1])
  }

  /** `bpy.data.materials.new`: a fresh material with no users. */
  method NewMaterial(lib: MaterialLibrary, name: string)
    requires name !in lib.users
    modifies lib
    ensures lib.users == old(lib.users)[name := 0]
  {
    lib.users := lib.users[name := 0];
  }

  /** `obj.data.materials.append`: link a library material into a new last slot. */
  method AppendMaterial(mesh: Mesh, lib: MaterialLibrary, name: string)
    requires name in lib.users
    modifies mesh, lib
    ensures StateOf(mesh, lib) == WithAppended(old(StateOf(mesh, lib)), name)
  {
    mesh.materials := mesh.materials + [Holds(name)];
    lib.users := lib.users[name := lib.users[name] + 1];
  }

  /** `bpy.data.materials.remove` on the material called `name`, if any. */
  method RemoveMaterial(lib: MaterialLibrary, name: string)
    modifies lib
    ensures lib.users == old(lib.users) - {name}
  {
    lib.users := lib.users - {name};
  }

  /** The tag half of `cleanup_tag_material` in normalforge.py and
      auto_custom_normals.py: the faces move off the first slot holding
      `name`, that slot is deleted, and the material `name` is deleted. */
  function Detached(s: TagState, name: string): TagState
  {
    var unslotted := match FirstSlotNamed(s.slots, name)
      case Some(i) => Dropped(s, i)
      case None => s;
    WithoutMaterial(unslotted, name)
  }

  method DetachMaterial(mesh: Mesh, lib: MaterialLibrary, name: string)
    modifies mesh, mesh.faces, lib
    ensures StateOf(mesh, lib) == Detached(old(StateOf(mesh, lib)), name)
  {
    var index := FindSlot(mesh.materials, name);
    if index.Some? {
      DropSlot(mesh, lib, index.value);
    }
    if name in lib.users {
      RemoveMaterial(lib, name);
    }
  }

  // ---------------------------------------------------------------------
  // Renumbering keeps every face on the material it had.

  /** After slot `tag` is deleted, a face that was not on it points at the
      same material as before; a face that was on it points at slot 0;
      faces below `tag` keep their index and faces above move down by one. */
  lemma RenumberKeepsMaterial(slots: seq<Slot>, tag: nat, index: nat)
    requires tag < |slots| && index < |slots|
    ensures index < tag ==> Renumber(index, tag) == index
    ensures index > tag ==> Renumber(index, tag) == index - 1
    ensures index == tag ==> Renumber(index, tag) == 0
    ensures index != tag ==>
      Renumber(index, tag) < |RemoveSlot(slots, tag)| &&
      RemoveSlot(slots, tag)[Renumber(index, tag)] == slots[index]
  {
    if index != tag {
      var r := RemoveSlot(slots, tag);
      if index < tag {
        assert r[index] == slots[..tag][index];
      } else {
        assert r[index - 1] == slots[tag + 1..][index - 1 - tag];
      }
    }
  }

  /** The same, for every face of a state: after `Dropped`, every face that
      was on a real slot other than `tag` still refers to the same material. */
  lemma DroppedKeepsMaterials(s: TagState, tag: nat)
    requires tag < |s.slots|
    ensures forall i :: 0 <= i < |s.faces| && s.faces[i].materialIndex < |s.slots| && s.faces[i].materialIndex != tag ==>
      Dropped(s, tag).faces[i].materialIndex < |Dropped(s, tag).slots| &&
      Dropped(s, tag).slots[Dropped(s, tag).faces[i].materialIndex] == s.slots[s.faces[i].materialIndex]
  {
    forall i | 0 <= i < |s.faces| && s.faces[i].materialIndex < |s.slots| && s.faces[i].materialIndex != tag
      ensures Dropped(s, tag).faces[i].materialIndex < |Dropped(s, tag).slots|
      ensures Dropped(s, tag).slots[Dropped(s, tag).faces[i].materialIndex] == s.slots[s.faces[i].materialIndex]
    {
      RenumberKeepsMaterial(s.slots, tag, s.faces[i].materialIndex);
    }
  }

  /** Deleting the last slot when no face refers to it or beyond changes no
      face: the state before an append comes back. */
  lemma DropAppended(s: TagState, slot: Slot)
    requires forall i :: 0 <= i < |s.faces| ==> s.faces[i].materialIndex < |s.slots|
    ensures Dropped(s.(slots := s.slots + [slot]), |s.slots|).slots == s.slots
    ensures Dropped(s.(slots := s.slots + [slot]), |s.slots|).faces == s.faces
  {
    var t := s.(slots := s.slots + [slot]);
    assert RemoveSlot(t.slots, |s.slots|) == s.slots;
    assert RenumberedFaces(s.faces, |s.slots|) == s.faces;
  }
}
