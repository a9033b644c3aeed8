/** A stream tree as a value: the paths of its nodes, each with the node's count.
    Edges need no mention, because the parent of a node is the node at its longest
    proper prefix. `MergeModel` says what one merge does to such a value, without
    pointers; module `StreamTree` proves that the linked nodes follow it. */
module TrieModel {
  import opened Bytes

  type Model = map<Path, int>

  /** `p` is a prefix of some node's path. */
  ghost predicate Covered(P: set<Path>, p: Path) {
    exists q :: q in P && p <= q
  }

  /** `t` leaves the tree after `k` bytes. */
  ghost predicate LeavesAt(P: set<Path>, t: Path, k: int) {
    0 <= k <= |t| && Covered(P, t[..k]) && forall j :: k < j <= |t| ==> !Covered(P, t[..j])
  }

  lemma {:induction false} LeavesSomewhere(P: set<Path>, t: Path, n: nat)
    requires P != {} && n <= |t|
    requires forall j :: n < j <= |t| ==> !Covered(P, t[..j])
    ensures exists k :: LeavesAt(P, t, k)
  {
    if n == 0 || Covered(P, t[..n]) {
      assert n == 0 ==> forall q :: q in P ==> t[..n] <= q;
      assert LeavesAt(P, t, n);
    } else {
      LeavesSomewhere(P, t, n - 1);
    }
  }

  /** The longest prefix of `t` that the tree covers: where `t` leaves the tree. */
  ghost function Fork(P: set<Path>, t: Path): (f: Path)
    requires P != {}
    ensures f <= t && Covered(P, f)
    ensures forall k :: |f| < k <= |t| ==> !Covered(P, t[..k])
  {
    LeavesSomewhere(P, t, |t|);
    var k :| LeavesAt(P, t, k);
    t[..k]
  }

  lemma ForkIs(P: set<Path>, t: Path, f: Path)
    requires f <= t && |f| < |t| && Covered(P, f) && !Covered(P, t[..|f| + 1])
    ensures !Covered(P, t) && Fork(P, t) == f
  {
    CoveredPrefix(P, t[..|f| + 1], t);
    assert forall g :: g <= t && |f| < |g| ==> t[..|f| + 1] <= g;
    var g := Fork(P, t);
    CoveredPrefix(P, t[..|f| + 1], g);
    assert t[..|f|] == f;
  }

  lemma CoveredPrefix(P: set<Path>, x: Path, u: Path)
    ensures Covered(P, u) && x <= u ==> Covered(P, x)
  {
    if Covered(P, u) && x <= u {
      var q :| q in P && u <= q;
      assert x <= q;
    }
  }

  /** A merge walks into the node at `p` when `t` agrees with the first byte of the
      edge that leads to it. */
  ghost predicate Entered(P: set<Path>, p: Path, t: Path) {
    forall q :: q in P && Proper(q, p) ==> p[..|q| + 1] <= t
  }

  ghost function MergePaths(P: set<Path>, t: Path): set<Path>
    requires P != {}
  {
    if Covered(P, t) then P else P + {t, Fork(P, t)}
  }

  /** One merge: every node walked into is counted, and a stream that leaves the tree
      adds a leaf and, where it leaves inside an edge, the upper half of that edge. */
  ghost function MergeModel(C: Model, t: Path): (C': Model)
    requires C != map[]
    ensures C'.Keys == MergePaths(C.Keys, t)
  {
    map p | p in MergePaths(C.Keys, t) ::
      if p !in C then 1 else if Entered(C.Keys, p, t) then C[p] + 1 else C[p]
  }

  /** The node a stream is recorded at: the one whose path every path through `t` extends. */
  ghost predicate IsLocus(P: set<Path>, t: Path, p: Path) {
    p in P && t <= p && forall q :: q in P && t <= q ==> p <= q
  }

  ghost function LocusOf(P: set<Path>, t: Path): (p: Path)
    ensures (exists q :: IsLocus(P, t, q)) ==> IsLocus(P, t, p)
  {
    if exists q :: IsLocus(P, t, q) then
      var q :| IsLocus(P, t, q);
      q
    else
      t
  }

  lemma LocusUnique(P: set<Path>, t: Path, p: Path)
    requires IsLocus(P, t, p)
    ensures LocusOf(P, t) == p
  {
    var q := LocusOf(P, t);
    assert IsLocus(P, t, q);
    assert p <= q && q <= p;
  }

  /** Wherever two paths part, there is a node. */
  ghost predicate Forked(P: set<Path>) {
    forall a, b, k :: a in P && b in P && Parts(a, b, k) ==> a[..k] in P
  }

  predicate Parts(a: Path, b: Path, k: int) {
    0 <= k < |a| && k < |b| && a[..k] == b[..k] && a[k] != b[k]
  }

  // ---------------------------------------------------------------- one merge

  /** The set of prefixes grows by exactly the prefixes of the merged stream. */
  lemma MergeCovers(P: set<Path>, t: Path, p: Path)
    requires P != {}
    ensures Covered(MergePaths(P, t), p) <==> Covered(P, p) || p <= t
  {
    var P' := MergePaths(P, t);
    if Covered(P', p) {
      var q :| q in P' && p <= q;
      assert q in P || q <= t;
    }
    if p <= t && Covered(P, t) {
      var q :| q in P && t <= q;
      assert p <= q;
    }
    assert p <= t && !Covered(P, t) ==> t in P';
  }

  lemma LastCommon(a: Path, b: Path) returns (k: int)
    requires !(a <= b) && !(b <= a)
    ensures Parts(a, b, k)
  {
    k := 0;
    while a[k] == b[k]
      invariant 0 <= k < |a| && k < |b| && a[..k] == b[..k]
      decreases |a| - k
    {
      k := k + 1;
      assert a[..k] == b[..k];
      assert k == |a| ==> a <= b;
      assert k == |b| ==> b <= a;
    }
  }

  lemma PrefixesNeverPart(a: Path, b: Path, t: Path, k: int)
    requires a <= t && b <= t
    ensures !Parts(a, b, k)
  {
  }

  lemma PrefixesAgree(t: Path, p: Path, q: Path, k: int)
    requires t <= p && t <= q && Parts(p, q, k)
    ensures |t| <= k
  {
  }

  lemma MergeForked(P: set<Path>, t: Path)
    requires P != {} && Forked(P)
    ensures Forked(MergePaths(P, t))
  {
    var P' := MergePaths(P, t);
    if !Covered(P, t) {
      var f := Fork(P, t);
      forall a, b, k | a in P' && b in P' && Parts(a, b, k)
        ensures a[..k] in P'
      {
        if a in P && b in P {
        } else if b in P {
          ForkedAt(P, t, a, b, k);
        } else if a in P {
          ForkedAt(P, t, b, a, k);
        } else {
          PrefixesNeverPart(a, b, t, k);
        }
      }
    }
  }

  /** Where a new path parts from an old one there is a node: an old one, or the fork. */
  lemma ForkedAt(P: set<Path>, t: Path, a: Path, b: Path, k: nat)
    requires P != {} && Forked(P) && !Covered(P, t)
    requires a in {t, Fork(P, t)} && b in P && Parts(a, b, k)
    ensures a[..k] in P + {Fork(P, t)}
  {
    var f := Fork(P, t);
    assert a <= t && a[..k] == t[..k];
    assert Covered(P, t[..k]) by { assert t[..k] <= b; }
    assert k <= |f|;
    if k == |f| {
      assert a[..k] == f;
    } else {
      var q :| q in P && f <= q;
      assert Parts(q, b, k);
    }
  }

  lemma PartsBelow(P: set<Path>, t: Path, p: Path, q: Path)
    requires Forked(P) && p in P && q in P && t <= p && t <= q
    requires !(p <= q) && !(q <= p)
    ensures exists m :: m in P && t <= m && |m| < |p|
  {
    var k := LastCommon(p, q);
    assert |t| <= k by { PrefixesAgree(t, p, q, k); }
    assert t <= p[..k];
  }

  /** In a tree that has a node at every parting, a covered stream has a locus: shrink
      any path through it to the shortest one. */
  lemma LocusExists(P: set<Path>, t: Path, p: Path) returns (m: Path)
    requires Forked(P) && p in P && t <= p
    ensures IsLocus(P, t, m)
    decreases |p|
  {
    if q :| q in P && t <= q && |q| < |p| {
      m := LocusExists(P, t, q);
    } else {
      m := p;
      forall q | q in P && t <= q
        ensures p <= q
      {
        if !(p <= q) {
          PartsBelow(P, t, p, q);
        }
      }
    }
  }

  /** After a merge the stream has a locus, at its own path exactly when it did not end
      strictly inside an edge. */
  lemma MergeLocus(P: set<Path>, t: Path)
    requires P != {} && Forked(P)
    ensures IsLocus(MergePaths(P, t), t, LocusOf(MergePaths(P, t), t))
    ensures LocusOf(MergePaths(P, t), t) == t <==> !Covered(P, t) || t in P
  {
    var P' := MergePaths(P, t);
    if t in P' {
      assert IsLocus(P', t, t);
      LocusUnique(P', t, t);
    } else {
      var p :| p in P && t <= p;
      var m := LocusExists(P, t, p);
      LocusUnique(P', t, m);
    }
  }

  // ---------------------------------------------------------------- whole runs

  /** The paths of the tree after merging a list of streams under the header `r`. */
  ghost function RunPaths(r: Path, ss: seq<Path>): (P: set<Path>)
    ensures r in P
  {
    if ss == [] then {r} else
      MergePaths(RunPaths(r, ss[..|ss| - 1]), r + ss[|ss| - 1])
  }

  lemma RunNothing(r: Path)
    ensures RunPaths(r, []) == {r}
  {
  }

  lemma RunSnoc(r: Path, ss: seq<Path>, s: Path)
    ensures RunPaths(r, ss + [s]) == MergePaths(RunPaths(r, ss), r + s)
  {
    assert (ss + [s])[..|ss|] == ss;
  }

  /** Order does not matter for the prefixes: after any run the tree covers exactly the
      prefixes of the merged streams. */
  lemma {:induction false} RunCovers(r: Path, ss: seq<Path>, p: Path)
    ensures Covered(RunPaths(r, ss), p) <==> p <= r || exists s :: s in ss && p <= r + s
  {
    if ss == [] {
      assert Covered({r}, p) <==> p <= r;
      assert RunPaths(r, ss) == {r};
    } else {
      var ss', s := ss[..|ss| - 1], ss[|ss| - 1];
      assert ss == ss' + [s];
      RunCovers(r, ss', p);
      MergeCovers(RunPaths(r, ss'), r + s, p);
    }
  }

  /** ... and has a node at every parting of two paths. */
  lemma {:induction false} RunForked(r: Path, ss: seq<Path>)
    ensures Forked(RunPaths(r, ss))
  {
    if ss == [] {
      assert RunPaths(r, ss) == {r};
    } else {
      RunForked(r, ss[..|ss| - 1]);
      MergeForked(RunPaths(r, ss[..|ss| - 1]), r + ss[|ss| - 1]);
    }
  }

  /** The tree has two different ways to go on from `p`. */
  ghost predicate Branches(P: set<Path>, p: Path) {
    exists a: Byte, b: Byte :: a != b && Covered(P, p + [a]) && Covered(P, p + [b])
  }

  ghost predicate Ends(r: Path, ss: seq<Path>, p: Path) {
    exists s :: s in ss && p == r + s
  }

  /** No node is idle: every node below the header ends a merged stream or branches. */
  lemma {:induction false} RunJustified(r: Path, ss: seq<Path>, p: Path)
    requires p in RunPaths(r, ss)
    ensures r <= p
    ensures p == r || Ends(r, ss, p) || Branches(RunPaths(r, ss), p)
  {
    if ss == [] {
    } else {
      var ss', s := ss[..|ss| - 1], ss[|ss| - 1];
      assert ss == ss' + [s];
      RunSnoc(r, ss', s);
      var P := RunPaths(r, ss');
      if p in P {
        RunJustified(r, ss', p);
      }
      MergeJustified(P, r, ss', s, p);
    }
  }

  lemma MergeJustified(P: set<Path>, r: Path, ss: seq<Path>, s: Path, p: Path)
    requires r in P && p in MergePaths(P, r + s)
    requires p in P ==> r <= p && (p == r || Ends(r, ss, p) || Branches(P, p))
    ensures r <= p
    ensures p == r || Ends(r, ss + [s], p) || Branches(MergePaths(P, r + s), p)
  {
    if p in P {
      if Branches(P, p) {
        MergeBranches(P, r + s, p);
      } else if p != r {
        var e :| e in ss && p == r + e;
        assert e in ss + [s];
      }
    } else if p == r + s {
      assert s in ss + [s];
    } else {
      ForkBelow(P, r, r + s);
      ForkBranches(P, r + s);
    }
  }

  lemma MergeBranches(P: set<Path>, t: Path, p: Path)
    requires P != {} && Branches(P, p)
    ensures Branches(MergePaths(P, t), p)
  {
    var a: Byte, b: Byte :| a != b && Covered(P, p + [a]) && Covered(P, p + [b]);
    MergeCovers(P, t, p + [a]);
    MergeCovers(P, t, p + [b]);
  }

  lemma ForkBelow(P: set<Path>, r: Path, t: Path)
    requires r in P && r <= t
    ensures r <= Fork(P, t)
  {
    assert Covered(P, r) by { assert r <= r; }
    assert t[..|r|] == r;
  }

  lemma ForkBranches(P: set<Path>, t: Path)
    requires P != {} && !Covered(P, t) && Fork(P, t) !in P
    ensures Branches(MergePaths(P, t), Fork(P, t))
  {
    var f := Fork(P, t);
    assert f != t;
    var q :| q in P && f <= q;
    assert f != q;
    var a, b := q[|f|], t[|f|];
    assert f + [a] <= q;
    assert f + [b] <= t;
    assert t[..|f| + 1] == f + [b];
  }

  /** A stream that the tree covers adds no node, any other one or two. */
  lemma MergeBound(P: set<Path>, t: Path)
    requires P != {}
    ensures Covered(P, t) ==> MergePaths(P, t) == P
    ensures !Covered(P, t) ==> |MergePaths(P, t)| == |P| + (if Fork(P, t) in P then 1 else 2)
  {
    if !Covered(P, t) {
      assert t !in P by { assert t in P ==> t <= t; }
      var f := Fork(P, t);
      assert f != t;
      if f in P {
        assert MergePaths(P, t) == P + {t};
      } else {
        assert MergePaths(P, t) == P + {f} + {t};
      }
    }
  }

  /** `k >= 1` different streams give at most `2k - 1` nodes below the header. */
  lemma {:induction false} RunBound(r: Path, ss: seq<Path>)
    ensures ss != [] ==> |RunPaths(r, ss)| <= 2 * |Distinct(ss)|
  {
    if ss != [] {
      var ss', s := ss[..|ss| - 1], ss[|ss| - 1];
      assert ss == ss' + [s];
      RunSnoc(r, ss', s);
      RunBound(r, ss');
      if ss' == [] {
        FirstMerge(r, r + s);
        assert |{r, r + s}| <= 2;
        assert s in Distinct(ss) by { assert s in ss; }
      } else {
        BoundStep(r, ss', s);
      }
    }
  }

  lemma FirstMerge(r: Path, t: Path)
    requires r <= t
    ensures MergePaths({r}, t) == {r, t}
  {
    if r == t {
      assert Covered({r}, t);
    } else {
      assert Covered({r}, r);
      ForkIs({r}, t, r);
    }
  }

  lemma BoundStep(r: Path, ss: seq<Path>, s: Path)
    requires |RunPaths(r, ss)| <= 2 * |Distinct(ss)|
    ensures |MergePaths(RunPaths(r, ss), r + s)| <= 2 * |Distinct(ss + [s])|
  {
    var P, D := RunPaths(r, ss), Distinct(ss);
    assert Distinct(ss + [s]) == D + {s};
    SubsetSize(D, D + {s});
    MergeBound(P, r + s);
    RunCovers(r, ss, r + s);
    if !Covered(P, r + s) {
      assert s !in D by { assert s in ss ==> r + s <= r + s; }
    }
  }

  ghost function Distinct(ss: seq<Path>): set<Path> {
    set s | s in ss
  }

  lemma SubsetSize<T>(a: set<T>, b: set<T>)
    requires a <= b
    ensures |a| <= |b|
  {
    assert b == a + (b - a);
  }

  // ---------------------------------------------------------------- counts

  /** The tree after merging a list of streams, with the counts. */
  ghost function Run(r: Path, ss: seq<Path>): (C: Model)
    ensures C.Keys == RunPaths(r, ss)
  {
    if ss == [] then map[r := 0] else
      MergeModel(Run(r, ss[..|ss| - 1]), r + ss[|ss| - 1])
  }

  lemma FirstModel(C: Model, r: Path, t: Path)
    requires C.Keys == {r} && C[r] == 0 && Proper(r, t)
    ensures C != map[] && MergeModel(C, t) == map[r := 1, t := 1]
  {
    hide MergePaths, Entered;
    FirstMerge(r, t);
    RootEntered(r, t);
  }

  lemma RootEntered(r: Path, t: Path)
    ensures Entered({r}, r, t)
  {
  }

  lemma RunModelSnoc(r: Path, ss: seq<Path>, s: Path)
    ensures Run(r, ss + [s]) == MergeModel(Run(r, ss), r + s)
  {
    assert (ss + [s])[..|ss|] == ss;
  }

  /** How many of the merged streams walk into the node at `p`. */
  ghost function Through(P: set<Path>, p: Path, r: Path, ss: seq<Path>): nat {
    if ss == [] then 0 else
      Through(P, p, r, ss[..|ss| - 1]) + (if Entered(P, p, r + ss[|ss| - 1]) then 1 else 0)
  }

  /** Every count is the number of streams through its node. */
  ghost predicate Exact(C: Model, r: Path, ss: seq<Path>) {
    forall p :: p in C ==> C[p] == Through(C.Keys, p, r, ss)
  }

  /** The merge divides an edge: the stream leaves the tree where there is no node. */
  ghost predicate Splits(P: set<Path>, t: Path)
    requires P != {}
  {
    !Covered(P, t) && Fork(P, t) !in P
  }

  /** Counts are not in general the number of streams through a node. Exact counts stay
      exact exactly when the merge does not divide an edge: the upper half of a divided
      edge starts again at 1. */
  lemma CountsStayExact(r: Path, ss: seq<Path>, s: Path)
    requires Exact(Run(r, ss), r, ss)
    ensures Exact(Run(r, ss + [s]), r, ss + [s]) <==> !Splits(Run(r, ss).Keys, r + s)
  {
    hide Run, Fork, Through, Entered, MergePaths, Covered;
    var C, t := Run(r, ss), r + s;
    RunModelSnoc(r, ss, s);
    if Splits(C.Keys, t) {
      SplitCount(C, t);
      SplitThrough(r, ss, s);
    } else {
      forall e | e in ss
        ensures Covered(C.Keys, r + e)
      {
        RunCovers(r, ss, r + e);
        assert r + e <= r + e;
      }
      forall p | p in MergeModel(C, t)
        ensures MergeModel(C, t)[p] == Through(MergePaths(C.Keys, t), p, r, ss + [s])
      {
        CountExact(C, r, ss, s, p);
      }
    }
  }

  lemma SplitCount(C: Model, t: Path)
    requires C != map[] && Splits(C.Keys, t)
    ensures Fork(C.Keys, t) in MergeModel(C, t) && MergeModel(C, t)[Fork(C.Keys, t)] == 1
  {
    hide Fork;
  }

  lemma CountExact(C: Model, r: Path, ss: seq<Path>, s: Path, p: Path)
    requires Exact(C, r, ss) && C != map[] && !Splits(C.Keys, r + s) && p in MergeModel(C, r + s)
    requires forall e :: e in ss ==> Covered(C.Keys, r + e)
    ensures MergeModel(C, r + s)[p] == Through(MergePaths(C.Keys, r + s), p, r, ss + [s])
  {
    hide Fork, Covered, Entered;
    var t := r + s;
    assert (ss + [s])[..|ss|] == ss;
    if p in C {
      EnteredKept(C.Keys, t, p, t);
      ThroughKept(C.Keys, t, p, r, ss);
    } else {
      LeafThrough(C.Keys, t, r, ss);
      EndEntered(MergePaths(C.Keys, t), t);
    }
  }

  lemma EndEntered(P: set<Path>, t: Path)
    ensures Entered(P, t, t)
  {
  }

  lemma EnteredKept(P: set<Path>, t: Path, p: Path, u: Path)
    requires P != {} && !Splits(P, t) && p in P
    ensures Entered(MergePaths(P, t), p, u) <==> Entered(P, p, u)
  {
    if !Covered(P, t) {
      assert !Proper(t, p);
    }
  }

  lemma {:induction false} ThroughKept(P: set<Path>, t: Path, p: Path, r: Path, ss: seq<Path>)
    requires P != {} && !Splits(P, t) && p in P
    ensures Through(MergePaths(P, t), p, r, ss) == Through(P, p, r, ss)
  {
    if ss != [] {
      ThroughKept(P, t, p, r, ss[..|ss| - 1]);
      EnteredKept(P, t, p, r + ss[|ss| - 1]);
    }
  }

  lemma {:induction false} LeafThrough(P: set<Path>, t: Path, r: Path, ss: seq<Path>)
    requires P != {} && !Covered(P, t) && Fork(P, t) in P
    requires forall e :: e in ss ==> Covered(P, r + e)
    ensures Through(MergePaths(P, t), t, r, ss) == 0
  {
    if ss != [] {
      LeafThrough(P, t, r, ss[..|ss| - 1]);
      var f, u := Fork(P, t), r + ss[|ss| - 1];
      assert f != t;
      assert !Covered(P, t[..|f| + 1]);
      CoveredPrefix(P, t[..|f| + 1], u);
      assert f in MergePaths(P, t) && Proper(f, t);
    }
  }

  lemma {:induction false} ThroughSome(P: set<Path>, p: Path, r: Path, ss: seq<Path>, s: Path)
    requires s in ss && p <= r + s
    ensures Through(P, p, r, ss) >= 1
  {
    var ss', l := ss[..|ss| - 1], ss[|ss| - 1];
    assert ss == ss' + [l];
    if l == s {
      assert Entered(P, p, r + s);
    } else {
      ThroughSome(P, p, r, ss', s);
    }
  }

  /** The fork of a divided edge has the new stream and an old one through it. */
  lemma SplitThrough(r: Path, ss: seq<Path>, s: Path)
    requires Splits(Run(r, ss).Keys, r + s)
    ensures Through(MergePaths(Run(r, ss).Keys, r + s), Fork(Run(r, ss).Keys, r + s), r, ss + [s]) >= 2
  {
    hide Run, Fork;
    var P, t := Run(r, ss).Keys, r + s;
    var f := Fork(P, t);
    ForkBelow(P, r, t);
    var q :| q in P && f <= q;
    assert f != q;
    RunCovers(r, ss, q);
    assert Covered(P, q) by { assert q <= q; }
    var e :| e in ss && q <= r + e;
    ThroughSome(MergePaths(P, t), f, r, ss, e);
    assert (ss + [s])[..|ss|] == ss;
    assert Entered(MergePaths(P, t), f, t);
  }

  // ---------------------------------------------------------------- one byte per node

  /** All prefixes that reach beyond the header. */
  ghost function Prefixes(P: set<Path>, r: Path): set<Path> {
    set q, k | q in P && |r| <= k <= |q| :: q[..k]
  }

  /** Every edge cut into single bytes; each new node takes the count of the edge it was cut from. */
  ghost function Simplified(C: Model, r: Path): (C': Model)
    ensures C'.Keys == Prefixes(C.Keys, r)
  {
    map p | p in Prefixes(C.Keys, r) :: var q := LocusOf(C.Keys, p); if q in C then C[q] else 0
  }

  /** Every node that was there keeps its count, and every new one counts what the next node
      below it does. */
  lemma SimplifiedCounts(C: Model, r: Path, p: Path) returns (q: Path)
    requires Forked(C.Keys) && p in Simplified(C, r)
    ensures q in C && p <= q && Simplified(C, r)[p] == C[q]
    ensures forall m :: m in C && p <= m ==> q <= m
    ensures p in C ==> q == p
  {
    hide Forked;
    var u, k :| u in C.Keys && |r| <= k <= |u| && p == u[..k];
    q := LocusExists(C.Keys, p, u);
    LocusUnique(C.Keys, p, q);
  }
}
