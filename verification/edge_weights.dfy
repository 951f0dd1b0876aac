/**
 * The edge-weight propagators shared by the three add-on files: each walks
 * the edge table once, sets the "bevel_weight_edge" layer to 1.0 on the edges
 * its test selects (optionally clearing their smooth flag) and counts them;
 * a follow-on pass marks a seam on every positively weighted edge.
 */
module EdgeWeights {
  import opened BlenderMesh

  /** The per-edge tests the propagators and counters use. */
  datatype Test =
    | NotSmooth                      // `not edge.smooth`: the sharp flag
    | IsSeam                         // `edge.seam`
    | AngleOrBoundary(threshold: real) // a 2-face edge bent more than `threshold`, or a 1-face edge
    | PositiveWeight                 // `edge[layer] > 0.0`

  predicate Holds(t: Test, e: Edge)
  {
    match t
    case NotSmooth => !e.smooth
    case IsSeam => e.seam
    case AngleOrBoundary(threshold) =>
      (|e.linkFaces| == 2 && e.angle > threshold) || |e.linkFaces| == 1
    case PositiveWeight => e.weight > 0.0
  }

  /** The edges (by index) that a test selects. */
  function Matching(es: seq<Edge>, t: Test): set<nat>
  {
    set i: nat | i < |es| && Holds(t, es[i])
  }

  /** The running `count` of a propagator loop: selected edges, counted left to right. */
  function Count(es: seq<Edge>, t: Test): nat
  {
    if es == [] then 0
    else Count(es[..|es| - 1], t) + (if Holds(t, es[|es| - 1]) then 1 else 0)
  }

  /** What a propagator does to one selected edge. */
  function Weigh(e: Edge, unsmooth: bool): Edge
  {
    if unsmooth then e.(weight := 1.0, smooth := false) else e.(weight := 1.0)
  }

  /** The edge table after a propagator: every selected edge weighed, every
      other edge as it was. */
  function WeighWhere(es: seq<Edge>, t: Test, unsmooth: bool): (r: seq<Edge>)
    ensures |r| == |es|
    ensures forall i :: 0 <= i < |es| && Holds(t, es[i]) ==>
      r[i].weight == 1.0 && r[i].smooth == (es[i].smooth && !unsmooth) &&
      r[i].linkFaces == es[i].linkFaces && r[i].angle == es[i].angle &&
      r[i].seam == es[i].seam && r[i].select == es[i].select
    ensures forall i :: 0 <= i < |es| && !Holds(t, es[i]) ==> r[i] == es[i]
  {
    seq(|es|, i requires 0 <= i < |es| => if Holds(t, es[i]) then Weigh(es[i], unsmooth) else es[i])
  }

  /** The edge table after `mark_seams_from_bevel_weight`. */
  function SeamsFromWeight(es: seq<Edge>): (r: seq<Edge>)
    ensures |r| == |es|
    ensures forall i :: 0 <= i < |es| ==>
      r[i].seam == (es[i].seam || es[i].weight > 0.0) && r[i].(seam := es[i].seam) == es[i]
  {
    seq(|es|, i requires 0 <= i < |es| => if es[i].weight > 0.0 then es[i].(seam := true) else es[i])
  }

  // ---------------------------------------------------------------------
  // The propagators (non_destructive_normals.py and auto_custom_normals.py
  // hold the same four functions).

  /** `sharp_edges_to_bevel_weight`: weight 1.0 on every edge that is not smooth. */
  method SharpEdgesToBevelWeight(bm: Mesh) returns (count: nat)
    modifies bm.edges
    ensures bm.edges[..] == WeighWhere(old(bm.edges[..]), NotSmooth, false)
    ensures count == Count(old(bm.edges[..]), NotSmooth)
  {
    ghost var es := bm.edges[..];
    count := 0;
    for i := 0 to bm.edges.Length
      invariant forall k :: 0 <= k < i ==> bm.edges[k] == WeighWhere(es, NotSmooth, false)[k]
      invariant forall k :: i <= k < bm.edges.Length ==> bm.edges[k] == es[k]
      invariant count == Count(es[..i], NotSmooth)
    {
      assert es[..i + 1][..i] == es[..i];
      if !bm.edges[i].smooth {
        bm.edges[i] := bm.edges[i].(weight := 1.0);
        count := count + 1;
      }
    }
    assert es[..bm.edges.Length] == es;
  }

  /** `seams_to_bevel_weight`: weight 1.0 on every seam edge. */
  method SeamsToBevelWeight(bm: Mesh) returns (count: nat)
    modifies bm.edges
    ensures bm.edges[..] == WeighWhere(old(bm.edges[..]), IsSeam, false)
    ensures count == Count(old(bm.edges[..]), IsSeam)
  {
    ghost var es := bm.edges[..];
    count := 0;
    for i := 0 to bm.edges.Length
      invariant forall k :: 0 <= k < i ==> bm.edges[k] == WeighWhere(es, IsSeam, false)[k]
      invariant forall k :: i <= k < bm.edges.Length ==> bm.edges[k] == es[k]
      invariant count == Count(es[..i], IsSeam)
    {
      assert es[..i + 1][..i] == es[..i];
      if bm.edges[i].seam {
        bm.edges[i] := bm.edges[i].(weight := 1.0);
        count := count + 1;
      }
    }
    assert es[..bm.edges.Length] == es;
  }

  /** `auto_sharp_to_bevel_weight`: weight 1.0 and smooth cleared on every
      boundary edge and on every 2-face edge bent more than the threshold;
      edges with no face or more than two faces are skipped. */
  method AutoSharpToBevelWeight(bm: Mesh, threshold: real) returns (count: nat)
    modifies bm.edges
    ensures bm.edges[..] == WeighWhere(old(bm.edges[..]), AngleOrBoundary(threshold), true)
    ensures count == Count(old(bm.edges[..]), AngleOrBoundary(threshold))
  {
    ghost var es := bm.edges[..];
    count := 0;
    for i := 0 to bm.edges.Length
      invariant forall k :: 0 <= k < i ==> bm.edges[k] == WeighWhere(es, AngleOrBoundary(threshold), true)[k]
      invariant forall k :: i <= k < bm.edges.Length ==> bm.edges[k] == es[k]
      invariant count == Count(es[..i], AngleOrBoundary(threshold))
    {
      assert es[..i + 1][..i] == es[..i];
      var faceCount := |bm.edges[i].linkFaces|;
      if faceCount == 2 {
        if bm.edges[i].angle > threshold {
          bm.edges[i] := bm.edges[i].(weight := 1.0, smooth := false);
          count := count + 1;
        }
      } else if faceCount == 1 {
        bm.edges[i] := bm.edges[i].(weight := 1.0, smooth := false);
        count := count + 1;
      }
    }
    assert es[..bm.edges.Length] == es;
  }

  /** `mark_seams_from_bevel_weight`: a seam on every edge whose weight is
      positive; returns how many such edges there are. */
  method MarkSeamsFromBevelWeight(bm: Mesh) returns (count: nat)
    modifies bm.edges
    ensures bm.edges[..] == SeamsFromWeight(old(bm.edges[..]))
    ensures count == Count(old(bm.edges[..]), PositiveWeight)
  {
    ghost var es := bm.edges[..];
    count := 0;
    for i := 0 to bm.edges.Length
      invariant forall k :: 0 <= k < i ==> bm.edges[k] == SeamsFromWeight(es)[k]
      invariant forall k :: i <= k < bm.edges.Length ==> bm.edges[k] == es[k]
      invariant count == Count(es[..i], PositiveWeight)
    {
      assert es[..i + 1][..i] == es[..i];
      if bm.edges[i].weight > 0.0 {
        bm.edges[i] := bm.edges[i].(seam := true);
        count := count + 1;
      }
    }
    assert es[..bm.edges.Length] == es;
  }

  // ---------------------------------------------------------------------
  // Properties of the propagators.

  /** The returned count is the number of edges the test selects. */
  lemma {:induction false} CountIsMatchingSize(es: seq<Edge>, t: Test)
    ensures Count(es, t) == |Matching(es, t)|
  {
    if es != [] {
      var n := |es| - 1;
      var prefix := es[..n];
      CountIsMatchingSize(prefix, t);
      var rest := if Holds(t, es[n]) then {n} else {};
      forall i: nat ensures i in Matching(es, t) <==> i in Matching(prefix, t) + rest {
        if i < n { assert prefix[i] == es[i]; }
      }
      assert Matching(es, t) == Matching(prefix, t) + rest;
      assert n !in Matching(prefix, t);
    }
  }

  /** A propagator reports zero exactly when no edge passes its test (the
      "no sharp edges found" / "no seams found" outcome). */
  lemma {:induction false} CountZeroIffNone(es: seq<Edge>, t: Test)
    ensures Count(es, t) == 0 <==> forall i :: 0 <= i < |es| ==> !Holds(t, es[i])
  {
    if es != [] {
      var n := |es| - 1;
      CountZeroIffNone(es[..n], t);
      assert forall i :: 0 <= i < n ==> es[..n][i] == es[i];
    }
  }

  /** Weighing an edge never changes whether it passes the test that chose it. */
  lemma WeighKeepsTest(e: Edge, t: Test, unsmooth: bool)
    requires Holds(t, e)
    ensures Holds(t, Weigh(e, unsmooth))
  {
  }

  /** The count is a function of what each edge is, position by position. */
  lemma {:induction false} CountAgrees(es: seq<Edge>, fs: seq<Edge>, t: Test)
    requires |es| == |fs|
    requires forall i :: 0 <= i < |es| ==> (Holds(t, es[i]) <==> Holds(t, fs[i]))
    ensures Count(es, t) == Count(fs, t)
  {
    if es != [] {
      var n := |es| - 1;
      CountAgrees(es[..n], fs[..n], t);
    }
  }

  /** Running a propagator a second time changes nothing and reports the
      same count. */
  lemma PropagateTwice(es: seq<Edge>, t: Test, unsmooth: bool)
    ensures WeighWhere(WeighWhere(es, t, unsmooth), t, unsmooth) == WeighWhere(es, t, unsmooth)
    ensures Count(WeighWhere(es, t, unsmooth), t) == Count(es, t)
  {
    var once := WeighWhere(es, t, unsmooth);
    forall i | 0 <= i < |es| ensures Holds(t, once[i]) <==> Holds(t, es[i]) {
      if Holds(t, es[i]) { WeighKeepsTest(es[i], t, unsmooth); }
    }
    CountAgrees(once, es, t);
  }

  /** Weights stay binary: if every weight was 0.0 or 1.0, it still is. */
  lemma WeightsStayBinary(es: seq<Edge>, t: Test, unsmooth: bool)
    requires forall i :: 0 <= i < |es| ==> es[i].weight == 0.0 || es[i].weight == 1.0
    ensures forall i :: 0 <= i < |es| ==>
      WeighWhere(es, t, unsmooth)[i].weight == 0.0 || WeighWhere(es, t, unsmooth)[i].weight == 1.0
  {
  }

  /** The angle rule never weights a 2-face edge bent by at most the
      threshold, nor an edge with no face or more than two, and always
      weights a boundary edge. */
  lemma AngleRule(es: seq<Edge>, threshold: real, unsmooth: bool, i: nat)
    requires i < |es|
    ensures |es[i].linkFaces| == 1 ==> WeighWhere(es, AngleOrBoundary(threshold), unsmooth)[i].weight == 1.0
    ensures (|es[i].linkFaces| == 2 && es[i].angle <= threshold) || |es[i].linkFaces| == 0 || |es[i].linkFaces| > 2
      ==> WeighWhere(es, AngleOrBoundary(threshold), unsmooth)[i] == es[i]
  {
  }

  /** Marking seams from weights is idempotent, never clears a seam, and
      leaves the weights alone. */
  lemma SeamsFromWeightTwice(es: seq<Edge>)
    ensures SeamsFromWeight(SeamsFromWeight(es)) == SeamsFromWeight(es)
    ensures Count(SeamsFromWeight(es), PositiveWeight) == Count(es, PositiveWeight)
  {
    var once := SeamsFromWeight(es);
    CountAgrees(once, es, PositiveWeight);
  }
}
