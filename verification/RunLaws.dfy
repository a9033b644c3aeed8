/** What a whole run of merges leaves behind: which paths have a node, when the order of
    the streams matters for that, and when all counts are right. */
module RunLaws {
  import opened Bytes
  import opened TrieModel

  // ---------------------------------------------------------------- which paths have a node

  /** No stream before the `i`th one goes on beyond its end. */
  predicate Fresh(ss: seq<Path>, i: nat)
    requires i < |ss|
  {
    forall j :: 0 <= j < i ==> !Proper(ss[i], ss[j])
  }

  /** Some stream ends at `p`, and came before all streams that go on beyond `p`. */
  predicate EndsFresh(r: Path, ss: seq<Path>, p: Path) {
    exists i :: 0 <= i < |ss| && p == r + ss[i] && Fresh(ss, i)
  }

  lemma FreshKept(r: Path, ss: seq<Path>, s: Path, p: Path)
    requires EndsFresh(r, ss, p)
    ensures EndsFresh(r, ss + [s], p)
  {
    var i :| 0 <= i < |ss| && p == r + ss[i] && Fresh(ss, i);
    assert (ss + [s])[i] == ss[i] && Fresh(ss + [s], i);
  }

  lemma FreshBefore(r: Path, ss: seq<Path>, s: Path, p: Path)
    requires EndsFresh(r, ss + [s], p)
    ensures EndsFresh(r, ss, p) || (p == r + s && Fresh(ss + [s], |ss|))
  {
    var i :| 0 <= i < |ss + [s]| && p == r + (ss + [s])[i] && Fresh(ss + [s], i);
    if i < |ss| {
      assert forall j :: 0 <= j <= i ==> ss[j] == (ss + [s])[j];
      assert Fresh(ss, i);
    }
  }

  /** The last stream is fresh exactly when it is covered by nothing but itself. */
  lemma LastFresh(r: Path, ss: seq<Path>, s: Path)
    ensures !Covered(RunPaths(r, ss), r + s) ==> Fresh(ss + [s], |ss|)
    ensures Fresh(ss + [s], |ss|) && Covered(RunPaths(r, ss), r + s) ==> s == [] || EndsFresh(r, ss, r + s)
  {
    hide RunPaths, Covered;
    RunCovers(r, ss, r + s);
    var all := ss + [s];
    assert forall j :: 0 <= j < |ss| ==> all[j] == ss[j];
    if !Covered(RunPaths(r, ss), r + s) {
      assert forall j :: 0 <= j < |ss| && Proper(s, ss[j]) ==> r + s <= r + ss[j];
    } else if s != [] && Fresh(all, |ss|) {
      var e :| e in ss && r + s <= r + e;
      SuffixOrder(r, s, e);
      var j :| 0 <= j < |ss| && ss[j] == e;
      assert e == s;
      assert Fresh(ss, j);
    }
  }

  lemma SuffixOrder(r: Path, s: Path, e: Path)
    requires r + s <= r + e
    ensures s <= e
  {
    assert (r + s)[|r|..] == s && (r + e)[|r|..] == e;
    assert forall k :: 0 <= k < |s| ==> s[k] == (r + s)[|r| + k] == (r + e)[|r| + k] == e[k];
  }

  lemma BranchIsNode(P: set<Path>, p: Path)
    requires Forked(P) && Branches(P, p)
    ensures p in P
  {
    var a: Byte, b: Byte :| a != b && Covered(P, p + [a]) && Covered(P, p + [b]);
    var x :| x in P && p + [a] <= x;
    var y :| y in P && p + [b] <= y;
    assert Parts(x, y, |p|);
    assert x[..|p|] == p;
  }

  /** After any run, exactly these paths have a node: the header, every point below it
      where streams part, and the end of every stream that came before its extensions. */
  lemma {:induction false} NodesOfRun(r: Path, ss: seq<Path>, p: Path)
    ensures p in RunPaths(r, ss) <==>
      p == r || (r <= p && Branches(RunPaths(r, ss), p)) || EndsFresh(r, ss, p)
  {
    hide Branches, EndsFresh, Covered, Fork, Forked, RunPaths;
    if ss == [] {
      RunNothing(r);
      NoneBranches(r, p);
    } else {
      var init, s := ss[..|ss| - 1], ss[|ss| - 1];
      assert ss == init + [s];
      NodesOfRun(r, init, p);
      RunSnoc(r, init, s);
      RunForked(r, ss);
      if Branches(RunPaths(r, ss), p) {
        BranchIsNode(RunPaths(r, ss), p);
      }
      NodeJustified(r, init, s, p);
      FreshIsNode(r, init, s, p);
    }
  }

  lemma NoneBranches(r: Path, p: Path)
    ensures !(r <= p && Branches({r}, p)) && !EndsFresh(r, [], p)
  {
  }

  lemma NodeJustified(r: Path, ss: seq<Path>, s: Path, p: Path)
    requires p in RunPaths(r, ss) ==> p == r || (r <= p && Branches(RunPaths(r, ss), p)) || EndsFresh(r, ss, p)
    ensures p in MergePaths(RunPaths(r, ss), r + s) ==>
      p == r || (r <= p && Branches(MergePaths(RunPaths(r, ss), r + s), p)) || EndsFresh(r, ss + [s], p)
  {
    hide Branches, EndsFresh, Covered, RunPaths;
    var P, t := RunPaths(r, ss), r + s;
    if p in P {
      if r <= p && Branches(P, p) {
        MergeBranches(P, t, p);
      } else if EndsFresh(r, ss, p) {
        FreshKept(r, ss, s, p);
      }
    } else if p == t {
      LastFresh(r, ss, s);
      if !Covered(P, t) {
        EndsLast(r, ss, s);
      }
    } else if p in MergePaths(P, t) {
      ForkBelow(P, r, t);
      ForkBranches(P, t);
    }
  }

  lemma EndsLast(r: Path, ss: seq<Path>, s: Path)
    requires Fresh(ss + [s], |ss|)
    ensures EndsFresh(r, ss + [s], r + s)
  {
    assert (ss + [s])[|ss|] == s;
  }

  lemma FreshIsNode(r: Path, ss: seq<Path>, s: Path, p: Path)
    requires EndsFresh(r, ss, p) ==> p in RunPaths(r, ss)
    requires p == r + s ==> (EndsFresh(r, ss, r + s) ==> r + s in RunPaths(r, ss))
    ensures EndsFresh(r, ss + [s], p) ==> p in MergePaths(RunPaths(r, ss), r + s)
  {
    hide EndsFresh, Covered, RunPaths;
    if EndsFresh(r, ss + [s], p) {
      FreshBefore(r, ss, s, p);
      LastFresh(r, ss, s);
      assert s == [] ==> r + s == r;
    }
  }

  // ---------------------------------------------------------------- the order of the streams

  ghost predicate OrderIrrelevant(r: Path, ss: seq<Path>) {
    forall tt {:trigger RunPaths(r, tt)} :: multiset(tt) == multiset(ss) ==> RunPaths(r, tt) == RunPaths(r, ss)
  }

  /** Every stream that another one extends is empty, or ends where streams part. */
  ghost predicate ExtendedAtBranches(r: Path, ss: seq<Path>) {
    forall s, u :: s in ss && u in ss && Proper(s, u) ==> s == [] || Branches(RunPaths(r, ss), r + s)
  }

  lemma SameMembers(ss: seq<Path>, tt: seq<Path>)
    requires multiset(tt) == multiset(ss)
    ensures forall s :: s in tt <==> s in ss
  {
    forall s
      ensures s in tt <==> s in ss
    {
      assert s in tt <==> s in multiset(tt);
      assert s in ss <==> s in multiset(ss);
    }
  }

  lemma SameBranches(r: Path, ss: seq<Path>, tt: seq<Path>, p: Path)
    requires forall s :: s in tt <==> s in ss
    ensures Branches(RunPaths(r, tt), p) <==> Branches(RunPaths(r, ss), p)
  {
    hide Covered, RunPaths;
    forall q
      ensures Covered(RunPaths(r, tt), q) <==> Covered(RunPaths(r, ss), q)
    {
      RunCovers(r, tt, q);
      RunCovers(r, ss, q);
    }
  }

  /** The set of nodes is the same for all orders of the streams if and only if every
      stream that another one extends is empty or ends where streams part anyway. */
  lemma OrderMatters(r: Path, ss: seq<Path>)
    ensures OrderIrrelevant(r, ss) <==> ExtendedAtBranches(r, ss)
  {
    hide RunPaths, Branches;
    if ExtendedAtBranches(r, ss) {
      forall tt {:trigger RunPaths(r, tt)} | multiset(tt) == multiset(ss)
        ensures RunPaths(r, tt) == RunPaths(r, ss)
      {
        SameMembers(ss, tt);
        OtherOrder(r, ss, tt);
      }
    }
    if OrderIrrelevant(r, ss) {
      forall s, u | s in ss && u in ss && Proper(s, u) && s != []
        ensures Branches(RunPaths(r, ss), r + s)
      {
        BothOrders(r, ss, s, u);
      }
    }
  }

  lemma OtherOrder(r: Path, ss: seq<Path>, tt: seq<Path>)
    requires (forall s :: s in tt <==> s in ss) && ExtendedAtBranches(r, ss)
    ensures RunPaths(r, tt) == RunPaths(r, ss)
  {
    hide RunPaths, Branches;
    forall p
      ensures p in RunPaths(r, tt) <==> p in RunPaths(r, ss)
    {
      NodesOfRun(r, tt, p);
      NodesOfRun(r, ss, p);
      SameBranches(r, ss, tt, p);
      FreshInOther(r, ss, tt, p);
      FreshInOther(r, tt, ss, p);
    }
  }

  lemma FreshInOther(r: Path, ss: seq<Path>, tt: seq<Path>, p: Path)
    requires forall s :: s in tt <==> s in ss
    requires forall s, u :: s in ss && u in ss && Proper(s, u) ==>
      r + s == r || (r + s == p ==> Branches(RunPaths(r, ss), p))
    ensures EndsFresh(r, ss, p) ==> EndsFresh(r, tt, p) || p == r || (r <= p && Branches(RunPaths(r, ss), p))
  {
    hide RunPaths, Branches;
    if EndsFresh(r, ss, p) {
      var i :| 0 <= i < |ss| && p == r + ss[i] && Fresh(ss, i);
      var s := ss[i];
      assert s in ss && s in tt;
      var j :| 0 <= j < |tt| && tt[j] == s;
      if !Fresh(tt, j) {
        var k :| 0 <= k < j && Proper(tt[j], tt[k]);
        assert tt[k] in ss;
      } else {
        assert p == r + tt[j];
      }
    }
  }

  /** The stream at `k` first, and the others in order. */
  function First(ss: seq<Path>, k: nat): (tt: seq<Path>)
    requires k < |ss|
    ensures multiset(tt) == multiset(ss)
  {
    assert ss == ss[..k] + [ss[k]] + ss[k + 1..];
    [ss[k]] + ss[..k] + ss[k + 1..]
  }

  lemma BothOrders(r: Path, ss: seq<Path>, s: Path, u: Path)
    requires OrderIrrelevant(r, ss) && s in ss && u in ss && Proper(s, u) && s != []
    ensures Branches(RunPaths(r, ss), r + s)
  {
    hide RunPaths, Branches;
    var i :| 0 <= i < |ss| && ss[i] == s;
    var k :| 0 <= k < |ss| && ss[k] == u;
    var front, back := First(ss, i), First(ss, k);
    assert front[0] == s && back[0] == u;
    assert EndsFresh(r, front, r + s) by { assert Fresh(front, 0); }
    NodesOfRun(r, front, r + s);
    assert RunPaths(r, front) == RunPaths(r, ss) == RunPaths(r, back);
    NodesOfRun(r, back, r + s);
    NotFreshBehind(r, back, s, u);
  }

  lemma NotFreshBehind(r: Path, ss: seq<Path>, s: Path, u: Path)
    requires ss != [] && ss[0] == u && Proper(s, u)
    ensures !EndsFresh(r, ss, r + s)
  {
    forall i | 0 <= i < |ss| && r + s == r + ss[i]
      ensures !Fresh(ss, i)
    {
      SuffixOrder(r, s, ss[i]);
      SuffixOrder(r, ss[i], s);
    }
  }

  /** Two streams for which the order does matter. */
  lemma PrefixFirstOrLast()
    ensures !OrderIrrelevant([], [[1], [1, 2]])
    ensures [1] in RunPaths([], [[1], [1, 2]]) && [1] !in RunPaths([], [[1, 2], [1]])
  {
    hide RunPaths, Branches;
    var e, x, y: Path := [], [1], [1, 2];
    var ss, tt := [x, y], [y, x];
    assert e + x == x;
    assert EndsFresh(e, ss, x) by { assert ss[0] == x && Fresh(ss, 0); }
    NodesOfRun(e, ss, x);
    NodesOfRun(e, tt, x);
    NotFreshBehind(e, tt, x, y);
    OneWayOn(tt);
    assert multiset(tt) == multiset(ss);
  }

  lemma OneWayOn(ss: seq<Path>)
    requires ss == [[1, 2], [1]]
    ensures !Branches(RunPaths([], ss), [1])
  {
    hide RunPaths, Covered;
    var p: Path := [1];
    forall a: Byte | Covered(RunPaths([], ss), p + [a])
      ensures a == 2
    {
      RunCovers([], ss, p + [a]);
      var s :| s in ss && p + [a] <= [] + s;
      assert (p + [a])[1] == a;
    }
  }

  // ---------------------------------------------------------------- counts

  /** Some node has been counted less often than streams run through it. */
  ghost predicate Deficient(C: Model, r: Path, ss: seq<Path>) {
    exists p :: p in C && C[p] < Through(C.Keys, p, r, ss)
  }

  /** Once a node is counted too little, some node stays so: without a division both
      numbers of the node grow together, and a division leaves a new one behind. */
  lemma DeficientStays(r: Path, ss: seq<Path>, s: Path)
    requires Deficient(Run(r, ss), r, ss) || Splits(Run(r, ss).Keys, r + s)
    ensures Deficient(Run(r, ss + [s]), r, ss + [s])
  {
    hide Run, Fork, Through, Entered, MergePaths, Covered;
    var C, t := Run(r, ss), r + s;
    RunModelSnoc(r, ss, s);
    if Splits(C.Keys, t) {
      SplitCount(C, t);
      SplitThrough(r, ss, s);
    } else {
      var p :| p in C && C[p] < Through(C.Keys, p, r, ss);
      DeficientNode(C, r, ss, s, p);
    }
  }

  lemma DeficientNode(C: Model, r: Path, ss: seq<Path>, s: Path, p: Path)
    requires C != map[] && p in C && C[p] < Through(C.Keys, p, r, ss) && !Splits(C.Keys, r + s)
    ensures p in MergeModel(C, r + s)
    ensures MergeModel(C, r + s)[p] < Through(MergePaths(C.Keys, r + s), p, r, ss + [s])
  {
    hide Fork, Covered, Entered;
    EnteredKept(C.Keys, r + s, p, r + s);
    ThroughKept(C.Keys, r + s, p, r, ss);
    assert (ss + [s])[..|ss|] == ss;
  }

  /** No merge of the run divides an edge. */
  ghost predicate NeverSplits(r: Path, ss: seq<Path>) {
    forall i :: 0 <= i < |ss| ==> !Splits(RunPaths(r, ss[..i]), r + ss[i])
  }

  lemma NeverSplitsSnoc(r: Path, ss: seq<Path>, s: Path)
    ensures NeverSplits(r, ss + [s]) <==> NeverSplits(r, ss) && !Splits(RunPaths(r, ss), r + s)
  {
    hide RunPaths, Splits;
    var all := ss + [s];
    assert all[..|ss|] == ss && all[|ss|] == s;
    assert forall i :: 0 <= i < |ss| ==> all[..i] == ss[..i] && all[i] == ss[i];
  }

  lemma {:induction false} ExactUntilSplit(r: Path, ss: seq<Path>)
    ensures if NeverSplits(r, ss) then Exact(Run(r, ss), r, ss) else Deficient(Run(r, ss), r, ss)
  {
    hide Run, RunPaths, Splits, Exact, Deficient, NeverSplits;
    if ss == [] {
      NothingCounted(r);
    } else {
      var init, s := ss[..|ss| - 1], ss[|ss| - 1];
      assert ss == init + [s];
      ExactUntilSplit(r, init);
      NeverSplitsSnoc(r, init, s);
      if NeverSplits(r, init) && !Splits(RunPaths(r, init), r + s) {
        CountsStayExact(r, init, s);
      } else {
        DeficientStays(r, init, s);
      }
    }
  }

  lemma NothingCounted(r: Path)
    ensures NeverSplits(r, []) && Exact(Run(r, []), r, [])
  {
  }

  /** All counts of a tree are the numbers of streams through its nodes if and only if no
      merge since the tree was new divided an edge. */
  lemma CountsExact(r: Path, ss: seq<Path>)
    ensures Exact(Run(r, ss), r, ss) <==> NeverSplits(r, ss)
  {
    hide Run, Through, NeverSplits;
    ExactUntilSplit(r, ss);
  }

  /** Two streams that part within a byte string leave a node that is counted once for both. */
  lemma PartedStreams()
    ensures var ss: seq<Path> := [[1, 2], [1, 3]];
      && !NeverSplits([], ss) && !Exact(Run([], ss), [], ss)
      && [1] in Run([], ss) && Run([], ss)[[1]] == 1 && Through(RunPaths([], ss), [1], [], ss) == 2
  {
    hide Run, RunPaths, Covered;
    var e, x, y, f: Path := [], [1, 2], [1, 3], [1];
    var one, ss := [x], [x, y];
    OneStream(x);
    PartAtOne();
    assert y[..2] == y;
    ForkIs({e, x}, y, f);
    assert one + [y] == ss && e + y == y;
    assert ss[..1] == one && ss[1] == y;
    assert Splits(RunPaths(e, ss[..1]), e + ss[1]);
    CountsExact(e, ss);
    RunModelSnoc(e, one, y);
    RunSnoc(e, one, y);
    SplitCount(Run(e, one), y);
    SplitThrough(e, one, y);
    AtMost(RunPaths(e, ss), f, ss);
  }

  lemma OneStream(x: Path)
    requires x != []
    ensures RunPaths([], [x]) == {[], x}
  {
    hide RunPaths, MergePaths;
    var e: Path := [];
    RunNothing(e);
    RunSnoc(e, [], x);
    assert [] + [x] == [x] && e + x == x;
    FirstMerge(e, x);
  }

  lemma PartAtOne()
    ensures Covered({[], [1, 2]}, [1]) && !Covered({[], [1, 2]}, [1, 3])
  {
    var x: Path, y: Path := [1, 2], [1, 3];
    assert [1] <= x && x[1] != y[1];
  }

  lemma {:induction false} AtMost(P: set<Path>, p: Path, ss: seq<Path>)
    ensures Through(P, p, [], ss) <= |ss|
  {
    if ss != [] {
      AtMost(P, p, ss[..|ss| - 1]);
    }
  }
}
