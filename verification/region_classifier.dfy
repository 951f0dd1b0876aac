/**
 * `detect_bevel_faces` of normalforge.py: with no tag to go by, classify the
 * faces of an already bevelled mesh from their areas alone. Faces smaller
 * than a fraction of the median area are candidate bevel faces; those that
 * can be reached from a large face through other small faces are confirmed
 * as bevel geometry, and every other face counts as original.
 */
module RegionClassifier {
  import opened Wrappers
  import opened BlenderMesh

  // ---------------------------------------------------------------------
  // Python's `sorted` on the face areas, and the median it yields.

  predicate Ascending(s: seq<real>)
  {
    forall i, j :: 0 <= i < j < |s| ==> s[i] <= s[j]
  }

  function Insert(x: real, s: seq<real>): (r: seq<real>)
    ensures multiset(r) == multiset(s) + multiset{x} && |r| == |s| + 1
  {
    if s == [] || x <= s[0] then [x] + s
    else
      assert s == [s[0]] + s[1..];
      [s[0]] + Insert(x, s[1..])
  }

  /** Inserting into an ascending sequence keeps it ascending. */
  lemma {:induction false} InsertAscending(x: real, s: seq<real>)
    requires Ascending(s)
    ensures Ascending(Insert(x, s))
  {
    if s == [] || x <= s[0] {
    } else {
      var tail := Insert(x, s[1..]);
      InsertAscending(x, s[1..]);
      forall k | 0 <= k < |tail| ensures s[0] <= tail[k] {
        assert tail[k] in multiset(tail);
        if tail[k] != x {
          assert tail[k] in multiset(s[1..]);
          var j :| 0 <= j < |s[1..]| && s[1..][j] == tail[k];
          assert s[1..][j] == s[j + 1];
        }
      }
    }
  }

  /** `sorted(areas)`: the areas in ascending order, the same multiset. */
  function Sort(s: seq<real>): (r: seq<real>)
    ensures Ascending(r) && multiset(r) == multiset(s) && |r| == |s|
  {
    if s == [] then []
    else
      assert s == [s[0]] + s[1..];
      var rest := Sort(s[1..]);
      InsertAscending(s[0], rest);
      Insert(s[0], rest)
  }

  /** `[f.calc_area() for f in bm.faces]`. */
  function Areas(faces: seq<Face>): (r: seq<real>)
    ensures |r| == |faces|
  {
    seq(|faces|, i requires 0 <= i < |faces| => faces[i].area)
  }

  /** `areas[len(areas) // 2]` after sorting: for an even count this is the
      upper of the two middle areas. */
  function MedianArea(faces: seq<Face>): real
    requires |faces| > 0
  {
    Sort(Areas(faces))[|faces| / 2]
  }

  // ---------------------------------------------------------------------
  // The split by area, the adjacency table, and the flood fill's result.

  function Small(faces: seq<Face>, cutoff: real): set<nat>
  {
    set i: nat | i < |faces| && faces[i].area < cutoff
  }

  function Large(faces: seq<Face>, cutoff: real): set<nat>
  {
    set i: nat | i < |faces| && !(faces[i].area < cutoff)
  }

  /** The small/large split, or None where `detect_bevel_faces` gives up:
      fewer than two faces, a median area that is not positive, or a split
      with one side empty. */
  function Split(faces: seq<Face>, ratio: real): Option<(set<nat>, set<nat>)>
  {
    if |faces| < 2 then None
    else
      var median := MedianArea(faces);
      if median <= 0.0 then None
      else
        var cutoff := median * ratio;
        var small, large := Small(faces, cutoff), Large(faces, cutoff);
        if small == {} || large == {} then None else Some((small, large))
  }

  /** The faces other than `self` on one edge. */
  function OthersOn(e: Edge, self: nat): set<nat>
  {
    set l | l in e.linkFaces && l != self
  }

  /** The faces other than `self` on any of the listed edges. */
  function LinkedVia(edgeIds: seq<nat>, edges: seq<Edge>, self: nat): set<nat>
    requires forall k :: 0 <= k < |edgeIds| ==> edgeIds[k] < |edges|
  {
    if edgeIds == [] then {}
    else LinkedVia(edgeIds[..|edgeIds| - 1], edges, self) + OthersOn(edges[edgeIds[|edgeIds| - 1]], self)
  }

  /** The `neighbors` table: for each face, the faces sharing an edge with it. */
  function NeighborTable(faces: seq<Face>, edges: seq<Edge>): (r: seq<set<nat>>)
    requires EdgeRefsValid(faces, |edges|)
    ensures |r| == |faces|
  {
    seq(|faces|, i requires 0 <= i < |faces| => LinkedVia(faces[i].edges, edges, i))
  }

  /** The small faces next to some face of `from`: the flood fill's first frontier. */
  function SeedsFrom(neighbors: seq<set<nat>>, small: set<nat>, from: set<nat>): set<nat>
  {
    set m | m in small && exists idx :: idx in from && idx < |neighbors| && m in neighbors[idx]
  }

  /** `S` holds every seed and every small neighbour of each of its members. */
  ghost predicate ClosedOver(neighbors: seq<set<nat>>, small: set<nat>, seeds: set<nat>, S: set<nat>)
  {
    && seeds <= S
    && forall c, m :: c in S && c < |neighbors| && m in neighbors[c] && m in small ==> m in S
  }

  /** The least set closed over the seeds: the small faces that every such
      set must hold. */
  ghost function BevelRegion(neighbors: seq<set<nat>>, small: set<nat>, seeds: set<nat>): set<nat>
  {
    set x | x in small && forall S :: ClosedOver(neighbors, small, seeds, S) ==> x in S
  }

  /** The faces `detect_bevel_faces` confirms as bevel geometry. */
  ghost function Confirmed(faces: seq<Face>, edges: seq<Edge>, ratio: real): set<nat>
    requires EdgeRefsValid(faces, |edges|)
  {
    match Split(faces, ratio)
    case None => {}
    case Some((small, large)) =>
      var neighbors := NeighborTable(faces, edges);
      BevelRegion(neighbors, small, SeedsFrom(neighbors, small, large))
  }

  /** What `detect_bevel_faces` returns: the number of confirmed bevel faces
      and the set of original face indices. */
  ghost function Detect(faces: seq<Face>, edges: seq<Edge>, ratio: real): (nat, set<nat>)
    requires EdgeRefsValid(faces, |edges|)
  {
    match Split(faces, ratio)
    case None => (0, {})
    case Some((small, large)) =>
      var confirmed := Confirmed(faces, edges, ratio);
      (|confirmed|, large + (small - confirmed))
  }

  // ---------------------------------------------------------------------
  // The algorithm.

  /** The `neighbors` loop: for every face, every face on any of its edges. */
  method BuildNeighbors(bm: Mesh) returns (neighbors: seq<set<nat>>)
    requires EdgeRefsValid(bm.faces[..], bm.edges.Length)
    ensures neighbors == NeighborTable(bm.faces[..], bm.edges[..])
  {
    ghost var faces, edges := bm.faces[..], bm.edges[..];
    neighbors := [];
    for i := 0 to bm.faces.Length
      invariant |neighbors| == i
      invariant forall k :: 0 <= k < i ==> neighbors[k] == LinkedVia(faces[k].edges, edges, k)
    {
      var face := bm.faces[i];
      var adj: set<nat> := {};
      for k := 0 to |face.edges|
        invariant adj == LinkedVia(face.edges[..k], edges, i)
      {
        var edge := bm.edges[face.edges[k]];
        ghost var before := adj;
        for j := 0 to |edge.linkFaces|
          invariant adj == before + set l | l in edge.linkFaces[..j] && l != i
        {
          assert edge.linkFaces[..j + 1] == edge.linkFaces[..j] + [edge.linkFaces[j]];
          var linked := edge.linkFaces[j];
          if linked != i {
            adj := adj + {linked};
          }
        }
        assert edge.linkFaces[..|edge.linkFaces|] == edge.linkFaces;
        assert face.edges[..k + 1][..k] == face.edges[..k];
      }
      assert face.edges[..|face.edges|] == face.edges;
      neighbors := neighbors + [adj];
    }
  }

  /** The seeding loop: the small neighbours of every large face. */
  method SeedFrontier(neighbors: seq<set<nat>>, small: set<nat>, large: set<nat>) returns (frontier: set<nat>)
    requires forall i :: i in large ==> i < |neighbors|
    ensures frontier == SeedsFrom(neighbors, small, large)
  {
    frontier := {};
    var rest := large;
    while rest != {}
      invariant rest <= large
      invariant frontier == SeedsFrom(neighbors, small, large - rest)
      decreases |rest|
    {
      var idx :| idx in rest;
      assert SeedsFrom(neighbors, small, large - (rest - {idx}))
          == SeedsFrom(neighbors, small, large - rest) + neighbors[idx] * small;
      rest := rest - {idx};
      frontier := frontier + neighbors[idx] * small;
    }
  }

  /** A face of the region pulls its small neighbours into the region. */
  lemma RegionStep(neighbors: seq<set<nat>>, small: set<nat>, seeds: set<nat>, c: nat, m: nat)
    requires c in BevelRegion(neighbors, small, seeds) && c < |neighbors|
    requires m in neighbors[c] && m in small
    ensures m in BevelRegion(neighbors, small, seeds)
  {
    forall S | ClosedOver(neighbors, small, seeds, S) ensures m in S {
      assert c in S;
    }
  }

  /** Every small neighbour of a confirmed face is confirmed or waiting. */
  ghost predicate Pending(neighbors: seq<set<nat>>, small: set<nat>, confirmed: set<nat>, frontier: set<nat>)
  {
    forall c, m :: c in confirmed && c < |neighbors| && m in neighbors[c] && m in small ==> m in confirmed + frontier
  }

  /** The fill's invariant, between two pops. */
  ghost predicate FillInvariant(neighbors: seq<set<nat>>, small: set<nat>, seeds: set<nat>,
                                confirmed: set<nat>, frontier: set<nat>)
  {
    && confirmed <= small && frontier <= small
    && seeds <= confirmed + frontier
    && Pending(neighbors, small, confirmed, frontier)
    && confirmed + frontier <= BevelRegion(neighbors, small, seeds)
  }

  /** Popping a face that is already confirmed keeps the invariant. */
  lemma SkipStep(neighbors: seq<set<nat>>, small: set<nat>, seeds: set<nat>,
                 confirmed: set<nat>, frontier: set<nat>, current: nat)
    requires FillInvariant(neighbors, small, seeds, confirmed, frontier)
    requires current in frontier && current in confirmed
    ensures FillInvariant(neighbors, small, seeds, confirmed, frontier - {current})
  {
    assert confirmed + (frontier - {current}) == confirmed + frontier;
  }

  /** The small neighbours of `current` not yet confirmed. */
  function Unconfirmed(neighbors: seq<set<nat>>, small: set<nat>, confirmed: set<nat>, current: nat): set<nat>
    requires current < |neighbors|
  {
    set m | m in neighbors[current] && m in small && m !in confirmed
  }

  /** Confirming a new face and pushing its neighbours keeps the invariant. */
  lemma ConfirmStep(neighbors: seq<set<nat>>, small: set<nat>, seeds: set<nat>,
                    confirmed: set<nat>, frontier: set<nat>, current: nat)
    requires forall i :: i in small ==> i < |neighbors|
    requires FillInvariant(neighbors, small, seeds, confirmed, frontier)
    requires current in frontier && current !in confirmed
    ensures current < |neighbors|
    ensures |small - (confirmed + {current})| < |small - confirmed|
    ensures var confirmed' := confirmed + {current};
      FillInvariant(neighbors, small, seeds, confirmed',
                    (frontier - {current}) + Unconfirmed(neighbors, small, confirmed', current))
  {
    var region := BevelRegion(neighbors, small, seeds);
    var confirmed' := confirmed + {current};
    assert small - confirmed' < small - confirmed;
    var pushed := Unconfirmed(neighbors, small, confirmed', current);
    var frontier' := (frontier - {current}) + pushed;
    forall m | m in pushed ensures m in region {
      RegionStep(neighbors, small, seeds, current, m);
    }
    assert confirmed' + frontier' == confirmed + frontier + pushed;
    forall c, m | c in confirmed' && c < |neighbors| && m in neighbors[c] && m in small
      ensures m in confirmed' + frontier'
    {
      if c == current {
        if m !in confirmed' {
          assert m in pushed;
        }
      } else {
        assert m in confirmed + frontier;
      }
    }
  }

  /** The `while frontier` loop: pop a face (in whatever order), confirm it,
      and push its small neighbours not yet confirmed. */
  method FloodFill(neighbors: seq<set<nat>>, small: set<nat>, seeds: set<nat>) returns (confirmed: set<nat>)
    requires forall i :: i in small ==> i < |neighbors|
    requires seeds <= small
    ensures confirmed == BevelRegion(neighbors, small, seeds)
  {
    confirmed := {};
    var frontier := seeds;
    while frontier != {}
      invariant FillInvariant(neighbors, small, seeds, confirmed, frontier)
      decreases |small - confirmed|, |frontier|
    {
      var current :| current in frontier;
      if current in confirmed {
        SkipStep(neighbors, small, seeds, confirmed, frontier, current);
        frontier := frontier - {current};
        continue;
      }
      ConfirmStep(neighbors, small, seeds, confirmed, frontier, current);
      frontier := frontier - {current};
      confirmed := confirmed + {current};
      frontier := frontier + Unconfirmed(neighbors, small, confirmed, current);
    }
    FillDone(neighbors, small, seeds, confirmed);
  }

  /** With the frontier empty, the confirmed faces are the whole region. */
  lemma FillDone(neighbors: seq<set<nat>>, small: set<nat>, seeds: set<nat>, confirmed: set<nat>)
    requires FillInvariant(neighbors, small, seeds, confirmed, {})
    ensures confirmed == BevelRegion(neighbors, small, seeds)
  {
    assert confirmed + {} == confirmed;
    assert ClosedOver(neighbors, small, seeds, confirmed);
  }

  /** The loop sorting faces into small and large by the cutoff. */
  method SplitByArea(bm: Mesh, cutoff: real) returns (smallFaces: set<nat>, largeFaces: set<nat>)
    ensures smallFaces == Small(bm.faces[..], cutoff)
    ensures largeFaces == Large(bm.faces[..], cutoff)
  {
    smallFaces, largeFaces := {}, {};
    for i := 0 to bm.faces.Length
      invariant smallFaces == set j: nat | j < i && bm.faces[j].area < cutoff
      invariant largeFaces == set j: nat | j < i && !(bm.faces[j].area < cutoff)
    {
      if bm.faces[i].area < cutoff {
        smallFaces := smallFaces + {i};
      } else {
        largeFaces := largeFaces + {i};
      }
    }
  }

  /** The closing loop: the large faces plus the small faces left unconfirmed. */
  method CollectOriginal(smallFaces: set<nat>, largeFaces: set<nat>, confirmed: set<nat>)
    returns (originalIndices: set<nat>)
    ensures originalIndices == largeFaces + (smallFaces - confirmed)
  {
    originalIndices := largeFaces;
    var rest := smallFaces;
    while rest != {}
      invariant rest <= smallFaces
      invariant originalIndices == largeFaces + ((smallFaces - rest) - confirmed)
      decreases |rest|
    {
      var idx :| idx in rest;
      if idx !in confirmed {
        originalIndices := originalIndices + {idx};
      }
      rest := rest - {idx};
    }
  }

  /** `detect_bevel_faces`: returns the number of confirmed bevel faces and
      the indices of the original faces, or `(0, {})` when it gives up. */
  method DetectBevelFaces(bm: Mesh, ratioThreshold: real) returns (bevelCount: nat, originalIndices: set<nat>)
    requires EdgeRefsValid(bm.faces[..], bm.edges.Length)
    ensures (bevelCount, originalIndices) == Detect(bm.faces[..], bm.edges[..], ratioThreshold)
  {
    ghost var faces := bm.faces[..];
    var n := bm.faces.Length;
    if n < 2 {
      return 0, {};
    }
    var areas := Sort(Areas(bm.faces[..]));
    var medianArea := areas[n / 2];
    assert medianArea == MedianArea(faces);
    if medianArea <= 0.0 {
      return 0, {};
    }
    var cutoff := medianArea * ratioThreshold;

    var smallFaces, largeFaces := SplitByArea(bm, cutoff);
    SplitAtCutoff(faces, ratioThreshold, smallFaces, largeFaces);
    if smallFaces == {} || largeFaces == {} {
      return 0, {};
    }

    var neighbors := BuildNeighbors(bm);
    var frontier := SeedFrontier(neighbors, smallFaces, largeFaces);
    var confirmedBevel := FloodFill(neighbors, smallFaces, frontier);
    originalIndices := CollectOriginal(smallFaces, largeFaces, confirmedBevel);
    bevelCount := |confirmedBevel|;
    DetectOnSplit(faces, bm.edges[..], ratioThreshold, smallFaces, largeFaces);
  }

  /** Past the guards on the face count and the median, `Split` is the
      small/large partition at the cutoff unless one side is empty. */
  lemma SplitAtCutoff(faces: seq<Face>, ratio: real, small: set<nat>, large: set<nat>)
    requires |faces| >= 2 && MedianArea(faces) > 0.0
    requires small == Small(faces, MedianArea(faces) * ratio)
    requires large == Large(faces, MedianArea(faces) * ratio)
    ensures small == {} || large == {} ==> Split(faces, ratio) == None
    ensures small != {} && large != {} ==> Split(faces, ratio) == Some((small, large))
  {
  }

  /** Once the split is known, `Detect` is the flood fill's region and its
      complement. */
  lemma DetectOnSplit(faces: seq<Face>, edges: seq<Edge>, ratio: real, small: set<nat>, large: set<nat>)
    requires EdgeRefsValid(faces, |edges|)
    requires Split(faces, ratio) == Some((small, large))
    ensures var neighbors := NeighborTable(faces, edges);
      var region := BevelRegion(neighbors, small, SeedsFrom(neighbors, small, large));
      Detect(faces, edges, ratio) == (|region|, large + (small - region))
  {
  }

  // ---------------------------------------------------------------------
  // What the classification means.

  /** The faces `detect_bevel_faces` returns as confirmed and as original
      never overlap; when it does not give up they cover every face, and the
      confirmed faces are all small. When it gives up both are empty. */
  lemma DetectPartitionsFaces(faces: seq<Face>, edges: seq<Edge>, ratio: real)
    requires EdgeRefsValid(faces, |edges|)
    ensures Detect(faces, edges, ratio).0 == |Confirmed(faces, edges, ratio)|
    ensures Confirmed(faces, edges, ratio) !! Detect(faces, edges, ratio).1
    ensures Split(faces, ratio).None? ==> Confirmed(faces, edges, ratio) == {} && Detect(faces, edges, ratio).1 == {}
    ensures Split(faces, ratio).Some? ==>
      && Confirmed(faces, edges, ratio) <= Split(faces, ratio).value.0
      && forall i: nat :: i in Confirmed(faces, edges, ratio) + Detect(faces, edges, ratio).1 <==> i < |faces|
  {
    match Split(faces, ratio)
    case None =>
    case Some((small, large)) =>
      var cutoff := MedianArea(faces) * ratio;
      assert small == Small(faces, cutoff) && large == Large(faces, cutoff);
      var confirmed := Confirmed(faces, edges, ratio);
      assert confirmed <= small;
      assert small !! large;
      assert forall i: nat :: i in small + large <==> i < |faces|;
  }

  /** The region contains the seeds and is closed under small neighbours. */
  lemma RegionIsClosed(neighbors: seq<set<nat>>, small: set<nat>, seeds: set<nat>)
    requires seeds <= small
    ensures ClosedOver(neighbors, small, seeds, BevelRegion(neighbors, small, seeds))
  {
    var region := BevelRegion(neighbors, small, seeds);
    forall x | x in seeds ensures x in region {
      assert forall S :: ClosedOver(neighbors, small, seeds, S) ==> x in S;
    }
    forall c, m | c in region && c < |neighbors| && m in neighbors[c] && m in small ensures m in region {
      RegionStep(neighbors, small, seeds, c, m);
    }
  }

  /** The region is the only closed set of small faces that lies inside every
      closed set: whatever order the frontier is popped in, the fill ends with
      the same faces confirmed. */
  lemma RegionIsUnique(neighbors: seq<set<nat>>, small: set<nat>, seeds: set<nat>, R: set<nat>)
    requires seeds <= small && R <= small
    requires ClosedOver(neighbors, small, seeds, R)
    requires forall S :: ClosedOver(neighbors, small, seeds, S) ==> R <= S
    ensures R == BevelRegion(neighbors, small, seeds)
  {
    RegionIsClosed(neighbors, small, seeds);
    var region := BevelRegion(neighbors, small, seeds);
    assert R <= region;
  }

  /** A walk from a seed through small faces, each step to a neighbour. */
  ghost predicate SmallWalk(neighbors: seq<set<nat>>, small: set<nat>, seeds: set<nat>, p: seq<nat>)
  {
    && |p| > 0 && p[0] in seeds
    && (forall k :: 0 <= k < |p| ==> p[k] in small)
    && (forall k :: 0 <= k < |p| - 1 ==> p[k] < |neighbors| && p[k + 1] in neighbors[p[k]])
  }

  lemma {:induction false} WalkEndsInRegion(neighbors: seq<set<nat>>, small: set<nat>, seeds: set<nat>, p: seq<nat>)
    requires SmallWalk(neighbors, small, seeds, p)
    ensures p[|p| - 1] in BevelRegion(neighbors, small, seeds)
  {
    if |p| == 1 {
      assert forall S :: ClosedOver(neighbors, small, seeds, S) ==> p[0] in S;
    } else {
      var q := p[..|p| - 1];
      assert forall k :: 0 <= k < |q| ==> q[k] == p[k];
      assert SmallWalk(neighbors, small, seeds, q);
      WalkEndsInRegion(neighbors, small, seeds, q);
      RegionStep(neighbors, small, seeds, p[|p| - 2], p[|p| - 1]);
    }
  }

  /** The small faces at the end of some walk from a seed. */
  ghost function Reached(neighbors: seq<set<nat>>, small: set<nat>, seeds: set<nat>): set<nat>
  {
    set y | y in small && exists p :: SmallWalk(neighbors, small, seeds, p) && p[|p| - 1] == y
  }

  /** A walk extended by one small neighbour of its last face is a walk. */
  lemma ExtendWalk(neighbors: seq<set<nat>>, small: set<nat>, seeds: set<nat>, p: seq<nat>, m: nat)
    requires SmallWalk(neighbors, small, seeds, p)
    requires p[|p| - 1] < |neighbors| && m in neighbors[p[|p| - 1]] && m in small
    ensures SmallWalk(neighbors, small, seeds, p + [m])
  {
    var p' := p + [m];
    assert forall k :: 0 <= k < |p| ==> p'[k] == p[k];
  }

  /** The faces reached by walks are closed over the seeds. */
  lemma ReachedIsClosed(neighbors: seq<set<nat>>, small: set<nat>, seeds: set<nat>)
    requires seeds <= small
    ensures ClosedOver(neighbors, small, seeds, Reached(neighbors, small, seeds))
  {
    var reached := Reached(neighbors, small, seeds);
    forall y | y in seeds ensures y in reached {
      assert SmallWalk(neighbors, small, seeds, [y]);
    }
    forall c, m | c in reached && c < |neighbors| && m in neighbors[c] && m in small ensures m in reached {
      var p :| SmallWalk(neighbors, small, seeds, p) && p[|p| - 1] == c;
      ExtendWalk(neighbors, small, seeds, p, m);
      assert (p + [m])[|p + [m]| - 1] == m;
    }
  }

  /** A face is confirmed exactly when some walk through small faces leads to
      it from a small neighbour of a large face. */
  lemma RegionIsReachable(neighbors: seq<set<nat>>, small: set<nat>, seeds: set<nat>, x: nat)
    requires seeds <= small
    ensures x in BevelRegion(neighbors, small, seeds) <==>
      exists p :: SmallWalk(neighbors, small, seeds, p) && p[|p| - 1] == x
  {
    forall p | SmallWalk(neighbors, small, seeds, p) && p[|p| - 1] == x
      ensures x in BevelRegion(neighbors, small, seeds)
    {
      WalkEndsInRegion(neighbors, small, seeds, p);
    }
    ReachedIsClosed(neighbors, small, seeds);
    if x in BevelRegion(neighbors, small, seeds) {
      assert x in Reached(neighbors, small, seeds);
    }
  }

  lemma {:induction false} LinkedViaMembers(edgeIds: seq<nat>, edges: seq<Edge>, self: nat, m: nat)
    requires forall k :: 0 <= k < |edgeIds| ==> edgeIds[k] < |edges|
    ensures m in LinkedVia(edgeIds, edges, self) <==>
      m != self && exists k :: 0 <= k < |edgeIds| && m in edges[edgeIds[k]].linkFaces
  {
    if edgeIds != [] {
      var init := edgeIds[..|edgeIds| - 1];
      LinkedViaMembers(init, edges, self, m);
      assert forall k :: 0 <= k < |init| ==> init[k] == edgeIds[k];
    }
  }

  /** On a mesh whose face-edge incidence is consistent, two faces are
      neighbours exactly when they are different and share an edge; in
      particular the relation is symmetric. */
  lemma NeighborsShareAnEdge(faces: seq<Face>, edges: seq<Edge>, a: nat, b: nat)
    requires IncidenceConsistent(faces, edges)
    requires a < |faces| && b < |faces|
    ensures b in NeighborTable(faces, edges)[a] <==>
      a != b && exists e :: e in faces[a].edges && e in faces[b].edges
  {
    var ids := faces[a].edges;
    LinkedViaMembers(ids, edges, a, b);
    if b in NeighborTable(faces, edges)[a] {
      var k :| 0 <= k < |ids| && b in edges[ids[k]].linkFaces;
      assert ids[k] in faces[b].edges;
    }
    if a != b && exists e :: e in faces[a].edges && e in faces[b].edges {
      var e :| e in faces[a].edges && e in faces[b].edges;
      var k :| 0 <= k < |ids| && ids[k] == e;
      assert b in edges[ids[k]].linkFaces;
    }
  }

  /** The median is the area of one of the faces. */
  lemma MedianIsAnArea(faces: seq<Face>)
    requires |faces| > 0
    ensures exists i :: 0 <= i < |faces| && faces[i].area == MedianArea(faces)
  {
    var sorted := Sort(Areas(faces));
    assert sorted[|faces| / 2] in multiset(sorted);
    assert sorted[|faces| / 2] in multiset(Areas(faces));
    var i :| 0 <= i < |faces| && Areas(faces)[i] == sorted[|faces| / 2];
  }

  /** When every face has the same area nothing is classified: all faces
      land on one side of the cutoff. */
  lemma UniformAreasConfirmNothing(faces: seq<Face>, edges: seq<Edge>, ratio: real, area: real)
    requires EdgeRefsValid(faces, |edges|)
    requires forall i :: 0 <= i < |faces| ==> faces[i].area == area
    ensures Detect(faces, edges, ratio) == (0, {})
  {
    if |faces| >= 2 {
      MedianIsAnArea(faces);
      assert MedianArea(faces) == area;
      var cutoff := area * ratio;
      if area < cutoff {
        assert Large(faces, cutoff) == {};
      } else {
        assert Small(faces, cutoff) == {};
      }
    }
  }
}
