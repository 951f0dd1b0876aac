/**
 * Face selection in edit mode: every selection helper of the add-on first
 * clears the selection flags of all vertices, edges and faces, then selects
 * the faces that pass a test and returns how many it selected. Setting a
 * BMesh face's selection flag also selects the face's vertices and edges,
 * so those end selected exactly when they belong to a selected face.
 */
module FaceSelection {
  import opened BlenderMesh

  /** The tests the selection helpers apply to face `i`. */
  datatype FaceTest =
    | Untagged(tag: int)            // `face.material_index != tag_material_index`
    | Listed(indices: set<nat>)     // `face.index in face_indices`
    | TaggedNgon(tag: int)          // on the tag slot and with more than four vertices

  /** Whether face `f`, found at index `i`, passes the test. */
  predicate Passes(t: FaceTest, f: Face, i: nat)
  {
    match t
    case Untagged(tag) => f.materialIndex != tag
    case Listed(indices) => i in indices
    case TaggedNgon(tag) => f.materialIndex == tag && |f.verts| > 4
  }

  /** The faces (by index) a test selects. */
  function Chosen(faces: seq<Face>, t: FaceTest): set<nat>
  {
    set i: nat | i < |faces| && Passes(t, faces[i], i)
  }

  /** The running `selected` counter over the first `n` faces. */
  function CountPassing(faces: seq<Face>, t: FaceTest, n: nat): nat
    requires n <= |faces|
  {
    if n == 0 then 0
    else CountPassing(faces, t, n - 1) + (if Passes(t, faces[n - 1], n - 1) then 1 else 0)
  }

  /** The face table after selection: exactly the passing faces are selected. */
  function SelectedWhere(faces: seq<Face>, t: FaceTest): (r: seq<Face>)
    ensures |r| == |faces|
    ensures forall i :: 0 <= i < |faces| ==>
      r[i].select == Passes(t, faces[i], i) && r[i].(select := faces[i].select) == faces[i]
  {
    seq(|faces|, i requires 0 <= i < |faces| => faces[i].(select := Passes(t, faces[i], i)))
  }

  /** The edge table with exactly the edges in `chosen` selected. */
  function EdgesFlagged(edges: seq<Edge>, chosen: set<nat>): (r: seq<Edge>)
    ensures |r| == |edges|
    ensures forall i :: 0 <= i < |edges| ==>
      r[i].select == (i in chosen) && r[i].(select := edges[i].select) == edges[i]
  {
    seq(|edges|, i requires 0 <= i < |edges| => edges[i].(select := i in chosen))
  }

  /** The indices a face lists, as a set. */
  function Elements(s: seq<nat>): set<nat>
  {
    set x | x in s
  }

  /** The vertices of the faces among the first `n` that pass `t`: the
      vertices that selecting those faces selects along with them. */
  function VertsOfPassing(faces: seq<Face>, t: FaceTest, n: nat): set<nat>
    requires n <= |faces|
  {
    if n == 0 then {}
    else
      var last := if Passes(t, faces[n - 1], n - 1) then Elements(faces[n - 1].verts) else {};
      VertsOfPassing(faces, t, n - 1) + last
  }

  /** The edges of the faces among the first `n` that pass `t`. */
  function EdgesOfPassing(faces: seq<Face>, t: FaceTest, n: nat): set<nat>
    requires n <= |faces|
  {
    if n == 0 then {}
    else
      var last := if Passes(t, faces[n - 1], n - 1) then Elements(faces[n - 1].edges) else {};
      EdgesOfPassing(faces, t, n - 1) + last
  }

  /** Clears the selection flag of every vertex, edge and face. */
  method DeselectAll(bm: Mesh)
    modifies bm.vertSelected, bm.edges, bm.faces
    ensures forall v :: 0 <= v < bm.vertSelected.Length ==> !bm.vertSelected[v]
    ensures bm.edges[..] == EdgesFlagged(old(bm.edges[..]), {})
    ensures |bm.faces[..]| == |old(bm.faces[..])|
    ensures forall i :: 0 <= i < bm.faces.Length ==> bm.faces[i] == old(bm.faces[i]).(select := false)
  {
    for v := 0 to bm.vertSelected.Length
      modifies bm.vertSelected
      invariant forall k :: 0 <= k < v ==> !bm.vertSelected[k]
    {
      bm.vertSelected[v] := false;
    }
    ghost var es := bm.edges[..];
    for i := 0 to bm.edges.Length
      modifies bm.edges
      invariant forall k :: 0 <= k < i ==> bm.edges[k] == es[k].(select := false)
      invariant forall k :: i <= k < bm.edges.Length ==> bm.edges[k] == es[k]
    {
      bm.edges[i] := bm.edges[i].(select := false);
    }
    for i := 0 to bm.faces.Length
      modifies bm.faces
      invariant forall k :: 0 <= k < i ==> bm.faces[k] == old(bm.faces[k]).(select := false)
      invariant forall k :: i <= k < bm.faces.Length ==> bm.faces[k] == old(bm.faces[k])
    {
      bm.faces[i] := bm.faces[i].(select := false);
    }
  }

  /** The flush that `face.select = True` performs on the face's vertices:
      each of them becomes selected, and no other vertex changes. */
  method FlushToVerts(bm: Mesh, vs: seq<nat>)
    requires forall k :: 0 <= k < |vs| ==> vs[k] < bm.vertSelected.Length
    modifies bm.vertSelected
    ensures forall v :: 0 <= v < bm.vertSelected.Length ==>
      bm.vertSelected[v] == (old(bm.vertSelected[v]) || v in vs)
  {
    for j := 0 to |vs|
      invariant forall v :: 0 <= v < bm.vertSelected.Length ==>
        bm.vertSelected[v] == (old(bm.vertSelected[v]) || v in vs[..j])
    {
      assert vs[..j + 1] == vs[..j] + [vs[j]];
      bm.vertSelected[vs[j]] := true;
    }
    assert vs[..|vs|] == vs;
  }

  /** The same flush on the face's edges: each of them becomes selected,
      and nothing else about any edge changes. */
  method FlushToEdges(bm: Mesh, es: seq<nat>)
    requires forall k :: 0 <= k < |es| ==> es[k] < bm.edges.Length
    modifies bm.edges
    ensures forall e :: 0 <= e < bm.edges.Length ==>
      bm.edges[e] == old(bm.edges[e]).(select := old(bm.edges[e]).select || e in es)
  {
    for j := 0 to |es|
      invariant forall e :: 0 <= e < bm.edges.Length ==>
        bm.edges[e] == old(bm.edges[e]).(select := old(bm.edges[e]).select || e in es[..j])
    {
      assert es[..j + 1] == es[..j] + [es[j]];
      bm.edges[es[j]] := bm.edges[es[j]].(select := true);
    }
    assert es[..|es|] == es;
  }

  /** Deselects everything, then selects the faces passing `t`, counting
      them; selecting a face also selects its vertices and edges. */
  method SelectOnly(bm: Mesh, t: FaceTest) returns (selected: nat)
    requires EdgeRefsValid(bm.faces[..], bm.edges.Length)
    requires VertRefsValid(bm.faces[..], bm.vertSelected.Length)
    modifies bm.vertSelected, bm.edges, bm.faces
    ensures forall v :: 0 <= v < bm.vertSelected.Length ==>
      bm.vertSelected[v] == (v in VertsOfPassing(old(bm.faces[..]), t, bm.faces.Length))
    ensures bm.edges[..] == EdgesFlagged(old(bm.edges[..]), EdgesOfPassing(old(bm.faces[..]), t, bm.faces.Length))
    ensures bm.faces[..] == SelectedWhere(old(bm.faces[..]), t)
    ensures selected == CountPassing(old(bm.faces[..]), t, bm.faces.Length)
  {
    ghost var fs := bm.faces[..];
    ghost var es := bm.edges[..];
    DeselectAll(bm);
    selected := 0;
    for i := 0 to bm.faces.Length
      modifies bm.faces, bm.vertSelected, bm.edges
      invariant forall k :: 0 <= k < i ==> bm.faces[k] == SelectedWhere(fs, t)[k]
      invariant forall k :: i <= k < bm.faces.Length ==> bm.faces[k] == fs[k].(select := false)
      invariant forall v :: 0 <= v < bm.vertSelected.Length ==>
        bm.vertSelected[v] == (v in VertsOfPassing(fs, t, i))
      invariant forall e :: 0 <= e < bm.edges.Length ==>
        bm.edges[e] == es[e].(select := e in EdgesOfPassing(fs, t, i))
      invariant selected == CountPassing(fs, t, i)
    {
      var f := bm.faces[i];
      if Passes(t, f, i) {
        bm.faces[i] := f.(select := true);
        FlushToVerts(bm, f.verts);
        FlushToEdges(bm, f.edges);
        selected := selected + 1;
      }
    }
    assert bm.edges[..] == EdgesFlagged(es, EdgesOfPassing(fs, t, bm.faces.Length));
  }

  /** `select_original_faces_by_material` (the same in all three files):
      selects exactly the faces not on the tag slot, with their vertices and edges. */
  method SelectOriginalFacesByMaterial(bm: Mesh, tagMaterialIndex: int) returns (selected: nat)
    requires EdgeRefsValid(bm.faces[..], bm.edges.Length)
    requires VertRefsValid(bm.faces[..], bm.vertSelected.Length)
    modifies bm.vertSelected, bm.edges, bm.faces
    ensures forall v :: 0 <= v < bm.vertSelected.Length ==>
      bm.vertSelected[v] == (v in VertsOfPassing(old(bm.faces[..]), Untagged(tagMaterialIndex), bm.faces.Length))
    ensures bm.edges[..] == EdgesFlagged(old(bm.edges[..]),
      EdgesOfPassing(old(bm.faces[..]), Untagged(tagMaterialIndex), bm.faces.Length))
    ensures bm.faces[..] == SelectedWhere(old(bm.faces[..]), Untagged(tagMaterialIndex))
    ensures selected == |Chosen(old(bm.faces[..]), Untagged(tagMaterialIndex))|
  {
    selected := SelectOnly(bm, Untagged(tagMaterialIndex));
    CountIsChosenSize(old(bm.faces[..]), Untagged(tagMaterialIndex), bm.faces.Length);
  }

  /** `select_faces_by_indices`: selects exactly the faces whose index is
      listed, with their vertices and edges. */
  method SelectFacesByIndices(bm: Mesh, faceIndices: set<nat>) returns (selected: nat)
    requires EdgeRefsValid(bm.faces[..], bm.edges.Length)
    requires VertRefsValid(bm.faces[..], bm.vertSelected.Length)
    modifies bm.vertSelected, bm.edges, bm.faces
    ensures forall v :: 0 <= v < bm.vertSelected.Length ==>
      bm.vertSelected[v] == (v in VertsOfPassing(old(bm.faces[..]), Listed(faceIndices), bm.faces.Length))
    ensures bm.edges[..] == EdgesFlagged(old(bm.edges[..]),
      EdgesOfPassing(old(bm.faces[..]), Listed(faceIndices), bm.faces.Length))
    ensures bm.faces[..] == SelectedWhere(old(bm.faces[..]), Listed(faceIndices))
    ensures selected == |Chosen(old(bm.faces[..]), Listed(faceIndices))|
  {
    selected := SelectOnly(bm, Listed(faceIndices));
    CountIsChosenSize(old(bm.faces[..]), Listed(faceIndices), bm.faces.Length);
  }

  /** The selection half of `fix_bevel_ngons`: selects exactly the tagged
      faces with more than four vertices, with their vertices and edges,
      and returns their number. */
  method SelectTaggedNgons(bm: Mesh, tagMaterialIndex: int) returns (ngonCount: nat)
    requires EdgeRefsValid(bm.faces[..], bm.edges.Length)
    requires VertRefsValid(bm.faces[..], bm.vertSelected.Length)
    modifies bm.vertSelected, bm.edges, bm.faces
    ensures forall v :: 0 <= v < bm.vertSelected.Length ==>
      bm.vertSelected[v] == (v in VertsOfPassing(old(bm.faces[..]), TaggedNgon(tagMaterialIndex), bm.faces.Length))
    ensures bm.edges[..] == EdgesFlagged(old(bm.edges[..]),
      EdgesOfPassing(old(bm.faces[..]), TaggedNgon(tagMaterialIndex), bm.faces.Length))
    ensures bm.faces[..] == SelectedWhere(old(bm.faces[..]), TaggedNgon(tagMaterialIndex))
    ensures ngonCount == |Chosen(old(bm.faces[..]), TaggedNgon(tagMaterialIndex))|
  {
    ngonCount := SelectOnly(bm, TaggedNgon(tagMaterialIndex));
    CountIsChosenSize(old(bm.faces[..]), TaggedNgon(tagMaterialIndex), bm.faces.Length);
  }

  // ---------------------------------------------------------------------
  // What the selection flush reaches.

  /** A vertex ends selected exactly when it belongs to a selected face, and
      an edge likewise: the flush selects nothing outside the chosen faces. */
  lemma {:induction false} FlushReachesExactlyChosen(faces: seq<Face>, t: FaceTest, n: nat)
    requires n <= |faces|
    ensures forall v :: v in VertsOfPassing(faces, t, n) <==>
      exists i :: 0 <= i < n && Passes(t, faces[i], i) && v in faces[i].verts
    ensures forall e :: e in EdgesOfPassing(faces, t, n) <==>
      exists i :: 0 <= i < n && Passes(t, faces[i], i) && e in faces[i].edges
  {
    if n > 0 {
      FlushReachesExactlyChosen(faces, t, n - 1);
    }
  }

  // ---------------------------------------------------------------------
  // Properties of the counts.

  /** The counter over the first `n` faces is the number of passing faces among them. */
  lemma {:induction false} CountIsChosenSize(faces: seq<Face>, t: FaceTest, n: nat)
    requires n <= |faces|
    ensures CountPassing(faces, t, n) == |set i: nat | i < n && Passes(t, faces[i], i)|
    ensures n == |faces| ==> CountPassing(faces, t, n) == |Chosen(faces, t)|
  {
    var upTo := set i: nat | i < n && Passes(t, faces[i], i);
    if n > 0 {
      CountIsChosenSize(faces, t, n - 1);
      var below := set i: nat | i < n - 1 && Passes(t, faces[i], i);
      if Passes(t, faces[n - 1], n - 1) {
        assert upTo == below + {n - 1};
      } else {
        assert upTo == below;
      }
    } else {
      assert upTo == {};
    }
    assert n == |faces| ==> upTo == Chosen(faces, t);
  }

  /** Selecting by an index set that names only existing faces selects
      exactly as many faces as the set holds. */
  lemma ListedCountIsSetSize(faces: seq<Face>, indices: set<nat>)
    requires forall i :: i in indices ==> i < |faces|
    ensures |Chosen(faces, Listed(indices))| == |indices|
  {
    assert Chosen(faces, Listed(indices)) == indices;
  }

  /** The original faces and the tagged faces together are all faces. */
  lemma {:induction false} UntaggedPlusTagged(faces: seq<Face>, tag: nat, n: nat)
    requires n <= |faces|
    ensures CountPassing(faces, Untagged(tag), n) + |set i: nat | i < n && faces[i].materialIndex == tag| == n
  {
    var tagged := set i: nat | i < n && faces[i].materialIndex == tag;
    if n == 0 {
      assert tagged == {};
    } else {
      UntaggedPlusTagged(faces, tag, n - 1);
      var before := set i: nat | i < n - 1 && faces[i].materialIndex == tag;
      if faces[n - 1].materialIndex == tag {
        assert tagged == before + {n - 1};
      } else {
        assert tagged == before;
      }
    }
  }
}
