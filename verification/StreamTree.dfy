/** The linked nodes of a stream tree, after `Node.java` and the private `merge` and
    `simplifyNodes` of `Tree.java`. */
module StreamTree {
  import opened Bytes
  import opened TrieModel

  class Node {
    var data: seq<Byte>
    var parent: Node?
    var count: int
    var childNodes: map<Byte, Node>

    /** The bytes from the root down to this node. Nothing can change it, so `Linked`
        (the parent links really spell these bytes) is what keeps a recorded packet readable. */
    ghost const path: Path

    constructor (data: seq<Byte>, ghost path: Path)
      ensures this.data == data && parent == null && count == 1 && childNodes == map[]
      ensures this.path == path
    {
      this.data, parent, count, childNodes := data, null, 1, map[];
      this.path := path;
    }

    method IncrementCount()
      modifies this`count
      ensures count == old(count) + 1
    {
      count := count + 1;
    }

    method AddChild(node: Node)
      requires node.data != []
      modifies this`childNodes, node`parent
      ensures node.parent == this
      ensures childNodes == old(childNodes)[node.data[0] := node]
    {
      node.parent := this;
      childNodes := childNodes[node.data[0] := node];
    }

    /** Splits the edge to this node: a new node takes its first `index` bytes and its
        place below the parent, and this node stays on as the lower half. */
    method Divide(index: int)
      requires parent != null && 0 < index < |data| && path == parent.path + data
      modifies this`data, this`parent, parent`childNodes
      ensures parent != null && fresh(parent)
      ensures parent.path == old(parent.path + data[..index])
      ensures parent.data == old(data)[..index] && data == old(data)[index..]
      ensures parent.parent == old(parent) && parent.count == 1
      ensures parent.childNodes == map[data[0] := this]
      ensures old(parent).childNodes == old(parent.childNodes)[old(data)[0] := parent]
    {
      var node := new Node(data[..index], parent.path + data[..index]);
      parent.AddChild(node);
      data := data[index..];
      node.AddChild(this);
    }
  }

  /** `n` hangs below its parent, in the slot of its first byte. */
  ghost predicate Attached(n: Node, S: set<Node>)
    reads n`data, n`parent, S`childNodes
  {
    && n.parent != null && n.parent in S
    && n.data != [] && n.path == n.parent.path + n.data
    && n.data[0] in n.parent.childNodes && n.parent.childNodes[n.data[0]] == n
  }

  ghost predicate Slot(n: Node, b: Byte, S: set<Node>)
    reads n`childNodes, S`data, S`parent
  {
    b in n.childNodes ==>
      var c := n.childNodes[b];
      c in S && c.parent == n && c.data != [] && c.data[0] == b
  }

  /** The nodes `S` form one tree below `root`. Paths grow strictly from parent to child,
      so there are no cycles. */
  ghost predicate Linked(root: Node, S: set<Node>)
    reads S`data, S`parent, S`childNodes
  {
    && root in S && root.parent == null && root.path == root.data
    && (forall n {:trigger Attached(n, S)} :: n in S && n != root ==> Attached(n, S))
    && (forall n, b {:trigger Slot(n, b, S)} :: n in S ==> Slot(n, b, S))
  }

  ghost function Paths(S: set<Node>): set<Path> {
    set n | n in S :: n.path
  }

  /** `S` is the tree with the paths and counts of `C`. */
  ghost predicate Shows(S: set<Node>, C: Model)
    reads S`count
  {
    C.Keys == Paths(S) && forall n :: n in S ==> C[n.path] == n.count
  }

  /** Where the edge to `n` begins in its path. */
  ghost function Start(n: Node): nat
    reads n`parent
  {
    if n.parent == null then 0 else |n.parent.path|
  }

  /** The linked nodes `S` below `root` are the tree `C`. */
  ghost predicate Is(root: Node, S: set<Node>, C: Model)
    reads S
  {
    Linked(root, S) && Shows(S, C)
  }

  /** The path up to the first byte of the edge that leads to `n`. */
  ghost function Entry(n: Node): Path
    requires n.parent != null && |n.parent.path| < |n.path|
    reads n`parent
  {
    n.path[..|n.parent.path| + 1]
  }

  // ---------------------------------------------------------------- shape of the tree

  lemma {:induction false} RootFirst(root: Node, S: set<Node>, n: Node)
    requires Linked(root, S) && n in S
    ensures root.path <= n.path
    ensures n != root ==> |root.path| < |n.path|
    decreases |n.path|
  {
    if n != root {
      assert Attached(n, S);
      RootFirst(root, S, n.parent);
    }
  }

  /** Two nodes below one parent that share the first byte are one node: whatever
      enters an edge runs through it to its end. */
  lemma {:induction false} SharedEdge(root: Node, S: set<Node>, n: Node, m: Node)
    requires Linked(root, S) && n in S && m in S && n != root
    requires Attached(n, S) && Entry(n) <= m.path
    ensures n.path <= m.path
    decreases |n.path| + |m.path|
  {
    RootFirst(root, S, n.parent);
    assert m != root;
    assert Attached(m, S);
    var p, q := n.parent, m.parent;
    assert p.path == m.path[..|p.path|] && q.path == m.path[..|q.path|];
    if |q.path| > |p.path| {
      SharedEdge(root, S, n, q);
    } else if |q.path| == |p.path| {
      SamePath(root, S, p, q);
      assert n.data[0] == Entry(n)[|p.path|] == m.path[|p.path|] == m.data[0];
    } else {
      assert Entry(m) <= p.path;
      SharedEdge(root, S, m, p);
    }
  }

  lemma {:induction false} SamePath(root: Node, S: set<Node>, n: Node, m: Node)
    requires Linked(root, S) && n in S && m in S && n.path == m.path
    ensures n == m
    decreases |n.path| + |m.path|
  {
    RootFirst(root, S, n);
    RootFirst(root, S, m);
    if n != root {
      assert Attached(n, S) && Attached(m, S);
      var p, q := n.parent, m.parent;
      if |p.path| == |q.path| {
        assert p.path == n.path[..|p.path|] == q.path;
        SamePath(root, S, p, q);
        assert n.data[0] == n.path[|p.path|] == m.data[0];
      } else if |p.path| < |q.path| {
        assert Entry(n) <= q.path;
        SharedEdge(root, S, n, q);
      } else {
        assert Entry(m) <= p.path;
        SharedEdge(root, S, m, p);
      }
    }
  }

  /** Every longer path goes on through a child. */
  lemma {:induction false} NextStep(root: Node, S: set<Node>, n: Node, m: Node)
    requires Linked(root, S) && n in S && m in S && Proper(n.path, m.path)
    ensures m.path[|n.path|] in n.childNodes
    decreases |m.path|
  {
    RootFirst(root, S, n);
    assert Attached(m, S);
    var q := m.parent;
    assert q.path == m.path[..|q.path|];
    if |n.path| < |q.path| {
      NextStep(root, S, n, q);
    } else if |n.path| == |q.path| {
      SamePath(root, S, n, q);
    } else {
      assert Entry(m) <= n.path;
      SharedEdge(root, S, m, n);
    }
  }

  // ---------------------------------------------------------------- where a stream goes

  /** `Entered` in terms of the links: the stream agrees with the first byte of the edge. */
  ghost predicate EntersNode(root: Node, S: set<Node>, n: Node, t: Path)
    requires Linked(root, S) && n in S
    reads S`data, S`parent, S`childNodes
  {
    n == root || (assert Attached(n, S); Entry(n) <= t)
  }

  /** The entered nodes form one chain down from the root. */
  lemma EnteredChain(root: Node, S: set<Node>, n: Node, m: Node, t: Path)
    requires Linked(root, S) && n in S && m in S && n != root && m != root
    requires EntersNode(root, S, n, t) && EntersNode(root, S, m, t)
    ensures n.parent != null && m.parent != null
    ensures n == m || n.path <= m.parent.path || m.path <= n.parent.path
  {
    assert Attached(n, S) && Attached(m, S);
    var p, q := n.parent, m.parent;
    if |p.path| < |q.path| {
      assert Entry(n) <= q.path;
      SharedEdge(root, S, n, q);
    } else if |q.path| < |p.path| {
      assert Entry(m) <= p.path;
      SharedEdge(root, S, m, p);
    } else {
      assert p.path == Entry(n)[..|p.path|] == t[..|p.path|] == Entry(m)[..|p.path|] == q.path;
      SamePath(root, S, p, q);
      assert n.data[0] == Entry(n)[|p.path|] == Entry(m)[|p.path|] == m.data[0];
    }
  }

  lemma EnteredIsEntry(root: Node, S: set<Node>, n: Node, t: Path)
    requires Linked(root, S) && n in S && root.path <= t
    ensures EntersNode(root, S, n, t) <==> Entered(Paths(S), n.path, t)
  {
    RootFirst(root, S, n);
    if n == root {
      forall q | q in Paths(S) && Proper(q, n.path)
        ensures n.path[..|q| + 1] <= t
      {
      }
    } else {
      assert Attached(n, S);
      assert n.parent.path in Paths(S) && Proper(n.parent.path, n.path);
      forall q | q in Paths(S) && Proper(q, n.path)
        ensures |q| <= |n.parent.path|
      {
        var m :| m in S && m.path == q;
        if |q| > |n.parent.path| {
          assert Entry(n) <= m.path;
          SharedEdge(root, S, n, m);
        }
      }
      if EntersNode(root, S, n, t) {
        forall q | q in Paths(S) && Proper(q, n.path)
          ensures n.path[..|q| + 1] <= t
        {
          assert n.path[..|q| + 1] == Entry(n)[..|q| + 1];
        }
      }
    }
  }

  // ---------------------------------------------------------------- merge

  /** Hangs a new leaf with the bytes `rest` below `at`. */
  method HangLeaf(root: Node, ghost S: set<Node>, at: Node, rest: seq<Byte>) returns (leaf: Node)
    requires Linked(root, S) && at in S && rest != [] && rest[0] !in at.childNodes
    modifies at`childNodes
    ensures fresh(leaf) && leaf.path == at.path + rest && leaf.count == 1
    ensures Linked(root, S + {leaf})
  {
    leaf := new Node(rest, at.path + rest);
    at.AddChild(leaf);
    forall n | n in S && n != root
      ensures Attached(n, S + {leaf})
    {
      assert old(Attached(n, S));
    }
    forall n, b | n in S + {leaf}
      ensures Slot(n, b, S + {leaf})
    {
      assert n in S ==> old(Slot(n, b, S));
    }
  }

  /** Divides the edge to `n` and keeps the tree linked. */
  method DivideEdge(root: Node, ghost S: set<Node>, n: Node, index: int)
    requires Linked(root, S) && n in S && n != root && n.parent != null && 0 < index < |n.data|
    modifies n`data, n`parent, n.parent`childNodes
    ensures n.parent != null && fresh(n.parent) && n.parent.count == 1
    ensures n.parent.path == old(n.parent.path + n.data[..index])
    ensures n.data == old(n.data)[index..] && n.parent.childNodes == map[n.data[0] := n]
    ensures Linked(root, S + {n.parent})
  {
    assert Attached(n, S);
    ghost var p := n.parent;
    n.Divide(index);
    ghost var u := n.parent;
    ghost var S' := S + {u};
    forall m | m in S' && m != root
      ensures Attached(m, S')
    {
      assert m in S ==> old(Attached(m, S));
    }
    forall m, b | m in S'
      ensures Slot(m, b, S')
    {
      assert m in S ==> old(Slot(m, b, S));
      assert m == n ==> old(Slot(p, b, S));
    }
  }

  /** The nodes that a merge of `t` has counted once it stands at `cur`: those entered above it. */
  ghost predicate Counted(root: Node, S: set<Node>, visited: set<Node>, cur: Node, t: Path)
    requires Linked(root, S)
    reads S`data, S`parent, S`childNodes
  {
    && cur in S && cur != root && EntersNode(root, S, cur, t)
    && forall n {:trigger n in visited} :: n in S ==>
      (n in visited <==> EntersNode(root, S, n, t) && |n.path| < |cur.path|)
  }

  lemma CountedBelow(root: Node, S: set<Node>, visited: set<Node>, cur: Node, t: Path, c: Node)
    requires Linked(root, S) && Counted(root, S, visited, cur, t)
    requires c in S && c != root && c.parent == cur && EntersNode(root, S, c, t)
    ensures Counted(root, S, visited + {cur}, c, t)
  {
    assert Attached(c, S) && Attached(cur, S);
    RootFirst(root, S, cur);
    forall n | n in S
      ensures n in visited + {cur} <==> EntersNode(root, S, n, t) && |n.path| < |c.path|
    {
      RootFirst(root, S, n);
      if n != root && EntersNode(root, S, n, t) && |n.path| < |c.path| {
        EnteredChain(root, S, n, c, t);
        assert Attached(n, S);
        if n.path == cur.path {
          SamePath(root, S, n, cur);
        }
      }
    }
  }

  /** A merge of `t` walks into exactly the nodes `V`. */
  ghost predicate EnteredAre(S: set<Node>, V: set<Node>, t: Path) {
    forall n {:trigger n in V} :: n in S ==> (n in V <==> Entered(Paths(S), n.path, t))
  }

  /** The walk is over at `cur`: with `cur`, exactly the entered nodes are counted. */
  lemma CountedAll(root: Node, S: set<Node>, visited: set<Node>, cur: Node, t: Path)
    requires Linked(root, S) && Counted(root, S, visited, cur, t) && root.path <= t
    requires cur.path <= t ==> |cur.path| == |t| || t[|cur.path|] !in cur.childNodes
    ensures EnteredAre(S, visited + {cur}, t)
  {
    RootFirst(root, S, cur);
    assert Attached(cur, S);
    forall n | n in S
      ensures n in visited + {cur} <==> Entered(Paths(S), n.path, t)
    {
      RootFirst(root, S, n);
      EnteredIsEntry(root, S, n, t);
      if n != root && EntersNode(root, S, n, t) && n != cur {
        EnteredChain(root, S, n, cur, t);
        if cur.path <= n.parent.path {
          NotEnteredBelow(root, S, cur, n, t);
        }
      }
    }
  }

  lemma NotEnteredBelow(root: Node, S: set<Node>, cur: Node, n: Node, t: Path)
    requires Linked(root, S) && cur in S && n in S && n != root && n.parent != null && cur.path <= n.parent.path
    requires cur.path <= t ==> |cur.path| == |t| || t[|cur.path|] !in cur.childNodes
    ensures !EntersNode(root, S, n, t)
  {
    assert Attached(n, S);
    if EntersNode(root, S, n, t) {
      assert n.path[|cur.path|] == Entry(n)[|cur.path|] == t[|cur.path|];
      NextStep(root, S, cur, n);
    }
  }

  // The three ways a walk ends, in terms of the paths.

  lemma EndsInside(root: Node, S: set<Node>, cur: Node, t: Path)
    requires Linked(root, S) && cur in S && cur != root
    requires EntersNode(root, S, cur, t) && t <= cur.path
    ensures Covered(Paths(S), t) && IsLocus(Paths(S), t, cur.path)
  {
    assert cur.path in Paths(S);
    forall q | q in Paths(S) && t <= q
      ensures cur.path <= q
    {
      var m :| m in S && m.path == q;
      SharedEdge(root, S, cur, m);
    }
  }

  lemma EndsAtNode(root: Node, S: set<Node>, cur: Node, t: Path)
    requires Linked(root, S) && cur in S && Proper(cur.path, t)
    requires t[|cur.path|] !in cur.childNodes
    ensures cur.path in Paths(S) && !Covered(Paths(S), t) && Fork(Paths(S), t) == cur.path
  {
    var f := cur.path;
    assert cur.path in Paths(S);
    if Covered(Paths(S), t[..|f| + 1]) {
      var q :| q in Paths(S) && t[..|f| + 1] <= q;
      var m :| m in S && m.path == q;
      assert q[|f|] == t[..|f| + 1][|f|] == t[|f|];
      assert q[..|f|] == t[..|f| + 1][..|f|] == f;
      NextStep(root, S, cur, m);
    }
    ForkIs(Paths(S), t, f);
  }

  lemma EndsByParting(root: Node, S: set<Node>, cur: Node, t: Path, k: int)
    requires Linked(root, S) && cur in S && cur != root && EntersNode(root, S, cur, t)
    requires cur.parent != null && |cur.parent.path| < k && Parts(cur.path, t, k)
    ensures cur.path in Paths(S)
    ensures !Covered(Paths(S), t) && Fork(Paths(S), t) == t[..k] && t[..k] !in Paths(S)
  {
    assert Attached(cur, S);
    var f := t[..k];
    assert f <= cur.path && cur.path in Paths(S);
    if Covered(Paths(S), t[..k + 1]) {
      var q :| q in Paths(S) && t[..k + 1] <= q;
      var m :| m in S && m.path == q;
      assert q[k] == t[..k + 1][k] == t[k];
      assert Entry(cur) <= t[..k + 1];
      SharedEdge(root, S, cur, m);
    }
    ForkIs(Paths(S), t, f);
    if f in Paths(S) {
      var m :| m in S && m.path == f;
      assert Entry(cur) <= f;
      SharedEdge(root, S, cur, m);
    }
  }

  /** A merge of `t` stands at `cur` with the first `k` bytes of `t` matched. */
  ghost predicate At(root: Node, S: set<Node>, visited: set<Node>, cur: Node, t: Path, k: int)
    reads S`data, S`parent, S`childNodes
  {
    && cur in S && cur != root && cur !in visited && visited <= S
    && Linked(root, S) && Counted(root, S, visited, cur, t) && Attached(cur, S)
    && Start(cur) <= k <= |cur.path| && k <= |t| && cur.path[..k] == t[..k]
  }

  /** The counts of `C`, with the nodes in `V` counted once more. */
  ghost predicate Tallied(S: set<Node>, C: Model, V: set<Node>)
    reads S`count
  {
    C.Keys == Paths(S) && forall n :: n in S ==> n.count == C[n.path] + (if n in V then 1 else 0)
  }

  /** Nothing more of `t` can be matched from `cur`. */
  ghost predicate Stuck(cur: Node, t: Path, k: int)
    requires 0 <= k <= |t| && k <= |cur.path|
    reads cur`childNodes
  {
    || k == |t|
    || (k == |cur.path| && t[k] !in cur.childNodes)
    || (k < |cur.path| && cur.path[k] != t[k])
  }

  lemma FirstStep(root: Node, S: set<Node>, b: Byte, t: Path)
    requires Linked(root, S) && b in root.childNodes && root.path + [b] <= t
    ensures At(root, S, {root}, root.childNodes[b], t, |root.path|)
    ensures Start(root.childNodes[b]) == |root.path|
  {
    var c := root.childNodes[b];
    assert Slot(root, b, S) && Attached(c, S);
    assert Entry(c) == root.path + [b];
    forall n | n in S
      ensures n in {root} <==> EntersNode(root, S, n, t) && |n.path| < |c.path|
    {
      RootFirst(root, S, n);
      if n != root {
        assert Attached(n, S);
        RootFirst(root, S, n.parent);
        if EntersNode(root, S, n, t) {
          EnteredChain(root, S, n, c, t);
        }
      }
    }
  }

  lemma StepDown(root: Node, S: set<Node>, visited: set<Node>, cur: Node, t: Path, b: Byte)
    requires At(root, S, visited, cur, t, |cur.path|)
    requires b in cur.childNodes && cur.path + [b] <= t
    ensures At(root, S, visited + {cur}, cur.childNodes[b], t, |cur.path|)
    ensures Start(cur.childNodes[b]) == |cur.path|
    ensures |cur.path| < |cur.childNodes[b].path| && cur.childNodes[b].path[|cur.path|] == b
  {
    var c := cur.childNodes[b];
    assert Slot(cur, b, S) && Attached(c, S);
    assert Entry(c) == cur.path + [b];
    CountedBelow(root, S, visited, cur, t, c);
  }

  lemma EdgeByte(root: Node, S: set<Node>, visited: set<Node>, cur: Node, t: Path, k: int)
    requires At(root, S, visited, cur, t, k)
    ensures cur in S && cur !in visited && Start(cur) <= k <= |cur.path| && k <= |t|
    ensures |cur.path| == Start(cur) + |cur.data|
    ensures if k < |cur.path| then cur.data[k - Start(cur)] == cur.path[k] else cur.path == t[..k]
  {
  }

  lemma MatchByte(root: Node, S: set<Node>, visited: set<Node>, cur: Node, t: Path, k: int)
    requires At(root, S, visited, cur, t, k) && k < |cur.path| && k < |t| && cur.path[k] == t[k]
    ensures At(root, S, visited, cur, t, k + 1)
  {
    assert cur.path[..k + 1] == cur.path[..k] + [cur.path[k]];
    assert t[..k + 1] == t[..k] + [t[k]];
  }

  lemma ExtendPrefix(p: Path, t: Path, k: int)
    requires k == |p| < |t| && p == t[..k]
    ensures p + [t[k]] <= t
  {
  }

  method CountOnce(n: Node, ghost S: set<Node>, ghost C: Model, ghost V: set<Node>)
    requires n in S && n !in V && Tallied(S, C, V)
    modifies n`count
    ensures Tallied(S, C, V + {n})
  {
    n.IncrementCount();
  }

  /** The loop of `merge` up to its end or its first `break`. */
  method Walk(root: Node, stream: seq<Byte>, start: Node, ghost S: set<Node>, ghost C: Model)
    returns (currentNode: Node, i: int, currentIndex: int, ghost visited: set<Node>)
    requires At(root, S, {root}, start, root.path + stream, |root.path|)
    requires Start(start) == |root.path| && Tallied(S, C, {root})
    modifies S`count
    ensures 0 <= i <= |stream|
    ensures At(root, S, visited, currentNode, root.path + stream, |root.path| + i)
    ensures currentIndex == |root.path| + i - Start(currentNode)
    ensures Stuck(currentNode, root.path + stream, |root.path| + i)
    ensures Tallied(S, C, visited)
  {
    hide At, Tallied, Start;
    EdgeByte(root, S, {root}, start, root.path + stream, |root.path|);
    ghost var t := root.path + stream;
    currentNode := start;
    var data := currentNode.data;
    currentIndex := 0;
    i := 0;
    visited := {root};
    while i < |stream|
      invariant 0 <= i <= |stream|
      invariant At(root, S, visited, currentNode, t, |root.path| + i)
      invariant currentIndex == |root.path| + i - Start(currentNode)
      invariant data == currentNode.data
      invariant Tallied(S, C, visited)
    {
      EdgeByte(root, S, visited, currentNode, t, |root.path| + i);
      assert t[|root.path| + i] == stream[i];
      if currentIndex >= |data| {
        if stream[i] !in currentNode.childNodes {
          break;
        }
        ExtendPrefix(currentNode.path, t, |root.path| + i);
        StepDown(root, S, visited, currentNode, t, stream[i]);
        CountOnce(currentNode, S, C, visited);
        visited := visited + {currentNode};
        currentNode := currentNode.childNodes[stream[i]];
        currentIndex := 0;
        data := currentNode.data;
        EdgeByte(root, S, visited, currentNode, t, |root.path| + i);
      }
      if data[currentIndex] != stream[i] {
        break;
      }
      MatchByte(root, S, visited, currentNode, t, |root.path| + i);
      currentIndex := currentIndex + 1;
      i := i + 1;
    }
  }

  /** The counts after a merge, once the nodes are in place. */
  lemma CountsShown(S: set<Node>, S': set<Node>, V: set<Node>, t: Path, C: Model)
    requires C != map[] && Tallied(S, C, V)
    requires EnteredAre(S, V, t)
    requires S <= S' && Paths(S') == MergePaths(Paths(S), t)
    requires forall n :: n in S' - S ==> n.count == 1 && n.path !in Paths(S)
    ensures Shows(S', MergeModel(C, t))
  {
    forall n | n in S'
      ensures MergeModel(C, t)[n.path] == n.count
    {
      assert n.path in Paths(S');
      assert n in S ==> n.path in Paths(S);
    }
  }

  lemma PathsOfMore(S: set<Node>, n: Node)
    ensures Paths(S + {n}) == Paths(S) + {n.path}
  {
  }

  lemma OnlyRootEntered(root: Node, S: set<Node>, t: Path)
    requires Linked(root, S) && Proper(root.path, t) && t[|root.path|] !in root.childNodes
    ensures EnteredAre(S, {root}, t)
  {
    forall n | n in S
      ensures n in {root} <==> Entered(Paths(S), n.path, t)
    {
      EnteredIsEntry(root, S, n, t);
      if n != root {
        assert Attached(n, S);
        RootFirst(root, S, n.parent);
        NotEnteredBelow(root, S, root, n, t);
      }
    }
  }

  lemma OwnLocus(P: set<Path>, t: Path)
    requires P != {} && !Covered(P, t)
    ensures t !in P && IsLocus(MergePaths(P, t), t, t)
  {
    assert t in P ==> t <= t;
  }

  /** The stream leaves the tree at the node `at`. */
  method LeaveAtNode(root: Node, at: Node, rest: seq<Byte>, ghost S: set<Node>, ghost t: Path)
    returns (leaf: Node)
    requires Linked(root, S) && at in S && rest != [] && t == at.path + rest
    requires rest[0] !in at.childNodes
    modifies at`childNodes
    ensures fresh(leaf) && leaf.count == 1 && leaf.path == t && t !in Paths(S)
    ensures Linked(root, S + {leaf})
    ensures Paths(S) != {} && Paths(S + {leaf}) == MergePaths(Paths(S), t) && IsLocus(Paths(S + {leaf}), t, t)
  {
    EndsAtNode(root, S, at, t);
    OwnLocus(Paths(S), t);
    leaf := HangLeaf(root, S, at, rest);
    PathsOfMore(S, leaf);
  }

  /** The stream leaves the tree inside the edge to `n`. */
  method LeaveInsideEdge(root: Node, n: Node, index: int, rest: seq<Byte>, ghost S: set<Node>, ghost t: Path)
    returns (leaf: Node, ghost upper: Node)
    requires Linked(root, S) && n in S && n != root && EntersNode(root, S, n, t)
    requires Attached(n, S) && 0 < index < |n.data| && rest != [] && rest[0] != n.data[index]
    requires t == n.parent.path + n.data[..index] + rest
    modifies n`data, n`parent, n.parent`childNodes
    ensures fresh(leaf) && leaf.count == 1 && leaf.path == t && t !in Paths(S)
    ensures fresh(upper) && upper.count == 1 && upper.path !in Paths(S)
    ensures Linked(root, S + {upper, leaf})
    ensures Paths(S) != {} && Paths(S + {upper, leaf}) == MergePaths(Paths(S), t)
    ensures IsLocus(Paths(S + {upper, leaf}), t, t)
  {
    ghost var k := |n.parent.path| + index;
    assert t[..k] == n.parent.path + n.data[..index];
    assert t[k] == rest[0] && n.path[k] == n.data[index];
    assert n.path[..k] == n.parent.path + n.data[..index];
    EndsByParting(root, S, n, t, k);
    OwnLocus(Paths(S), t);
    DivideEdge(root, S, n, index);
    upper := n.parent;
    leaf := HangLeaf(root, S + {upper}, n.parent, rest);
    PathsOfMore(S, upper);
    PathsOfMore(S + {upper}, leaf);
    assert S + {upper} + {leaf} == S + {upper, leaf};
  }

  /** The tree `S` after a merge of `t` into the tree `C`, and the node `leaf` it returned. */
  ghost predicate Merged(root: Node, S: set<Node>, leaf: Node, t: Path, C: Model)
    requires C != map[]
    reads S
  {
    Is(root, S, MergeModel(C, t)) && leaf in S && IsLocus(MergePaths(C.Keys, t), t, leaf.path)
  }

  /** The stream stops at `cur`, goes on past `cur`, or parts inside the edge to `cur`. */
  ghost predicate Ending(root: Node, S: set<Node>, cur: Node, index: int, rest: seq<Byte>, t: Path)
    requires Linked(root, S)
    reads S`data, S`parent, S`childNodes
  {
    && cur in S && cur != root && EntersNode(root, S, cur, t) && Attached(cur, S)
    && (rest == [] ==> t <= cur.path)
    && (rest != [] && index >= |cur.data| ==> t == cur.path + rest && rest[0] !in cur.childNodes)
    && (rest != [] && index < |cur.data| ==>
      0 < index && cur.data[index] != rest[0] && t == cur.parent.path + cur.data[..index] + rest)
  }

  lemma SplitAt(t: Path, p: Path, k: int)
    requires 0 <= k <= |t| && k <= |p| && p[..k] == t[..k]
    ensures t == p[..k] + t[k..]
    ensures k == |p| ==> t == p + t[k..]
    ensures k == |t| ==> t <= p
  {
  }

  lemma EndingAt(root: Node, S: set<Node>, visited: set<Node>, cur: Node, t: Path, k: int)
    requires At(root, S, visited, cur, t, k) && Stuck(cur, t, k) && root.path <= t
    ensures Ending(root, S, cur, k - Start(cur), t[k..], t)
    ensures EnteredAre(S, visited + {cur}, t)
  {
    EdgeByte(root, S, visited, cur, t, k);
    CountedAll(root, S, visited, cur, t);
    SplitAt(t, cur.path, k);
    assert cur.path[Start(cur)] == Entry(cur)[Start(cur)] == t[Start(cur)];
    if k < |t| && k < |cur.path| {
      assert cur.path[..k] == cur.parent.path + cur.data[..k - Start(cur)] by {
        assert cur.path == cur.parent.path + cur.data;
      }
    }
  }

  /** The step of `merge` that ends the loop. */
  method Finish(root: Node, cur: Node, index: int, rest: seq<Byte>, ghost S: set<Node>, ghost t: Path)
    returns (lastNode: Node?, ghost S': set<Node>)
    requires Linked(root, S) && Ending(root, S, cur, index, rest, t)
    modifies S`data, S`parent, S`childNodes
    ensures Linked(root, S') && S <= S' && fresh(S' - S)
    ensures Paths(S) != {} && Paths(S') == MergePaths(Paths(S), t)
    ensures forall n :: n in S' - S ==> n.count == 1 && n.path !in Paths(S)
    ensures lastNode == null ==> IsLocus(Paths(S'), t, cur.path)
    ensures lastNode != null ==> lastNode in S' && IsLocus(Paths(S'), t, lastNode.path)
  {
    lastNode, S' := null, S;
    assert cur.path in Paths(S);
    if rest == [] {
      EndsInside(root, S, cur, t);
    } else if index >= |cur.data| {
      lastNode := LeaveAtNode(root, cur, rest, S, t);
      S' := S + {lastNode};
    } else {
      ghost var upper;
      lastNode, upper := LeaveInsideEdge(root, cur, index, rest, S, t);
      S' := S + {upper, lastNode};
    }
  }

  /** The part of `merge` after the first child has been found. */
  method MergeBelow(root: Node, stream: seq<Byte>, ghost S: set<Node>, ghost C: Model)
    returns (result: Node, ghost S': set<Node>)
    requires Linked(root, S) && stream != [] && stream[0] in root.childNodes && Tallied(S, C, {root})
    modifies S
    ensures C != map[] && S <= S' && fresh(S' - S)
    ensures Merged(root, S', result, root.path + stream, C)
  {
    hide Counted, Attached, Slot, Tallied, EntersNode, EnteredAre, IsLocus, MergeModel, MergePaths, Fork, Covered;
    ghost var t := root.path + stream;
    assert root.path + [stream[0]] <= t;
    FirstStep(root, S, stream[0], t);
    var currentNode, i, currentIndex, visited := Walk(root, stream, root.childNodes[stream[0]], S, C);
    EndingAt(root, S, visited, currentNode, t, |root.path| + i);
    assert t[|root.path| + i..] == stream[i..];
    var lastNode;
    lastNode, S' := Finish(root, currentNode, currentIndex, stream[i..], S, t);
    CountOnce(currentNode, S, C, visited);
    CountsShown(S, S', visited + {currentNode}, t, C);
    result := if lastNode != null then lastNode else currentNode;
  }

  /** Merges a stream below `root`. Null stands for the exception on an empty stream,
      which comes after the root has been counted. */
  method Merge(root: Node, stream: seq<Byte>, ghost S: set<Node>, ghost C: Model)
    returns (result: Node?, ghost S': set<Node>)
    requires Is(root, S, C)
    modifies S
    ensures root.path in C && S <= S' && fresh(S' - S)
    ensures result == null <==> stream == []
    ensures result == null ==>
      S' == S && Is(root, S, C[root.path := C[root.path] + 1])
    ensures result != null ==> Merged(root, S', result, root.path + stream, C)
  {
    hide Attached, Slot, EnteredAre, IsLocus, MergeModel, MergePaths, Fork, Covered;
    assert root.path in Paths(S);
    forall n | n in S && n != root ensures n.path != root.path { RootFirst(root, S, n); }
    root.IncrementCount();
    S' := S;
    if stream == [] {
      result := null;
    } else if stream[0] !in root.childNodes {
      ghost var t := root.path + stream;
      OnlyRootEntered(root, S, t);
      var leaf := LeaveAtNode(root, root, stream, S, t);
      S' := S + {leaf};
      CountsShown(S, S', {root}, t, C);
      result := leaf;
    } else {
      result, S' := MergeBelow(root, stream, S, C);
    }
  }

  // ---------------------------------------------------------------- simplifyNodes

  /** The bytes `data` below the path `base` as a chain of single-byte nodes. */
  ghost predicate Chain(chain: seq<Node>, base: Path, data: seq<Byte>, count: int)
    reads chain
  {
    && |chain| <= |data|
    && (forall j, k :: 0 <= j < k < |chain| ==> chain[j] != chain[k])
    && (forall j :: 0 <= j < |chain| ==> chain[j].data == [data[j]] && chain[j].path == base + data[..j + 1])
    && (forall j :: 0 < j < |chain| ==> chain[j].parent == chain[j - 1])
    && (forall j :: 0 <= j < |chain| - 1 ==>
      chain[j].childNodes == map[data[j + 1] := chain[j + 1]] && chain[j].count == count)
  }

  /** One more node at the end of a chain. */
  method ExtendChain(lastNode: Node, data: seq<Byte>, i: int, count: int, ghost chain: seq<Node>, ghost base: Path)
    returns (n: Node)
    requires 1 <= i < |data| && |chain| == i && chain[i - 1] == lastNode && lastNode.childNodes == map[]
    requires Chain(chain, base, data, count)
    modifies lastNode`count, lastNode`childNodes
    ensures fresh(n) && n.childNodes == map[] && Chain(chain + [n], base, data, count)
  {
    n := new Node(data[i..i + 1], base + data[..i + 1]);
    lastNode.count := count;
    lastNode.AddChild(n);
    assert data[i..i + 1] == [data[i]];
    ChainMore(chain, n, base, data, count);
  }

  lemma ChainMore(chain: seq<Node>, n: Node, base: Path, data: seq<Byte>, count: int)
    requires Chain(chain, base, data, count) && 1 <= |chain| < |data| && n !in chain
    requires n.data == [data[|chain|]] && n.path == base + data[..|chain| + 1] && n.parent == chain[|chain| - 1]
    requires n.parent.childNodes == map[data[|chain|] := n] && n.parent.count == count
    ensures Chain(chain + [n], base, data, count)
  {
    assert forall j :: 0 <= j < |chain| ==> (chain + [n])[j] == chain[j];
  }

  /** The inner loop of `simplifyNodes`: a fresh chain with one node a byte. */
  method BuildChain(data: seq<Byte>, count: int, ghost base: Path)
    returns (firstNode: Node, lastNode: Node, ghost chain: seq<Node>)
    requires |data| > 1
    ensures fresh(chain) && |chain| == |data| && chain[0] == firstNode && chain[|data| - 1] == lastNode
    ensures Chain(chain, base, data, count)
  {
    firstNode := new Node(data[..1], base + data[..1]);
    lastNode := firstNode;
    chain := [firstNode];
    assert Chain(chain, base, data, count);
    hide Chain;
    var i := 1;
    while i < |data|
      invariant 1 <= i <= |data| && |chain| == i && fresh(chain)
      invariant chain[0] == firstNode && chain[i - 1] == lastNode && lastNode.childNodes == map[]
      invariant Chain(chain, base, data, count)
    {
      lastNode := ExtendChain(lastNode, data, i, count, chain, base);
      chain := chain + [lastNode];
      i := i + 1;
    }
  }

  /** The chain hangs between `p` and `n`. */
  ghost predicate Spliced(p: Node, n: Node, chain: seq<Node>, data: seq<Byte>, base: Path)
    reads p, n, chain
  {
    && |data| == |chain| + 1 && |chain| >= 1 && p.path == base
    && n.data == [data[|chain|]] && n.path == base + data && n.parent == chain[|chain| - 1]
    && data[0] in p.childNodes && p.childNodes[data[0]] == chain[0] && chain[0].parent == p
    && (forall j :: 0 < j < |chain| ==> chain[j].parent == chain[j - 1])
    && (forall j :: 0 <= j < |chain| ==>
      chain[j].data == [data[j]] && chain[j].path == base + data[..j + 1] && chain[j].count == n.count)
    && (forall j :: 0 <= j < |chain| ==>
      chain[j].childNodes == map[data[j + 1] := if j + 1 < |chain| then chain[j + 1] else n])
  }

  /** Replaces the edge to `node` by a chain: all but the chain's last node, whose place
      `node` itself takes. */
  method Splice(node: Node, ghost base: Path) returns (ghost chain: seq<Node>)
    requires node.parent != null && node.parent.path == base && |node.data| > 1 && node.path == base + node.data
    modifies node`data, node`parent, node.parent`childNodes
    ensures fresh(chain) && node.parent != null
    ensures Spliced(old(node.parent), node, chain, old(node.data), base)
    ensures old(node.parent).childNodes == old(node.parent.childNodes)[old(node.data)[0] := chain[0]]
  {
    var data := node.data;
    ghost var k := |data| - 1;
    var firstNode, lastNode;
    firstNode, lastNode, chain := BuildChain(data, node.count, base);
    assert chain[k].parent == chain[k - 1] && lastNode.data == [data[k]];
    node.parent.AddChild(firstNode);
    node.data := lastNode.data;
    lastNode.parent.AddChild(node);
    chain := chain[..k];
  }

  lemma SplicedAttached(p: Node, n: Node, chain: seq<Node>, data: seq<Byte>, base: Path, m: Node, S: set<Node>)
    requires Spliced(p, n, chain, data, base) && p in S && (forall c :: c in chain ==> c in S)
    requires m in chain || m == n
    ensures Attached(m, S)
  {
    if m in chain {
      var j :| 0 <= j < |chain| && chain[j] == m;
      assert base + data[..j + 1] == base + data[..j] + [data[j]];
      if j > 0 {
        assert chain[j - 1].childNodes == map[data[j] := chain[j]];
      }
    } else {
      assert base + data == base + data[..|chain|] + [data[|chain|]];
    }
  }

  lemma SplicedSlot(p: Node, n: Node, chain: seq<Node>, data: seq<Byte>, base: Path, m: Node, b: Byte, S: set<Node>)
    requires Spliced(p, n, chain, data, base) && n in S && (forall c :: c in chain ==> c in S)
    requires m in chain
    ensures Slot(m, b, S)
  {
    var j :| 0 <= j < |chain| && chain[j] == m;
    assert chain[j].childNodes == map[data[j + 1] := if j + 1 < |chain| then chain[j + 1] else n];
  }

  /** The nodes that cutting the edge to `n` has put above it. */
  ghost predicate Cut(n: Node, N: set<Node>, from: nat)
    reads N, n`count
  {
    forall m {:trigger m in N} :: m in N ==>
      |m.data| == 1 && m.count == n.count && from < |m.path| < |n.path| && m.path <= n.path
  }

  lemma SplicedCut(p: Node, n: Node, chain: seq<Node>, data: seq<Byte>, base: Path, N: set<Node>)
    requires Spliced(p, n, chain, data, base) && forall m :: m in N ==> m in chain
    ensures Cut(n, N, |base|)
    ensures forall m :: m in N ==> m.parent != null && (m.parent in chain || m.parent == p)
  {
    forall m | m in N
      ensures |m.data| == 1 && m.count == n.count && |base| < |m.path| < |n.path| && m.path <= n.path
      ensures m.parent != null && (m.parent in chain || m.parent == p)
    {
      var j :| 0 <= j < |chain| && chain[j] == m;
      assert j > 0 ==> m.parent == chain[j - 1];
      assert base + data[..j + 1] <= base + data;
    }
  }

  /** Cuts the edge to `node` into single bytes. The node itself stays, as the last one. */
  method CutEdge(root: Node, node: Node, ghost S: set<Node>) returns (ghost N: set<Node>)
    requires Linked(root, S) && node in S && node != root && node.parent != null && |node.data| > 1
    modifies node`data, node`parent, node.parent`childNodes
    ensures fresh(N) && Linked(root, S + N) && |node.data| == 1
    ensures Cut(node, N, old(Start(node)))
    ensures node.parent in N
    ensures forall m :: m in N ==> m.parent != null && (m.parent in N || m.parent == old(node.parent))
  {
    assert Attached(node, S);
    ghost var p, base, data := node.parent, node.parent.path, node.data;
    ghost var chain := Splice(node, base);
    N := set m | m in chain;
    SplicedCut(p, node, chain, data, base, N);
    forall m | m in S + N && m != root
      ensures Attached(m, S + N)
    {
      if m in N || m == node {
        SplicedAttached(p, node, chain, data, base, m, S + N);
      } else {
        assert old(Attached(m, S));
      }
    }
    forall m, b | m in S + N
      ensures Slot(m, b, S + N)
    {
      if m in N {
        SplicedSlot(p, node, chain, data, base, m, b, S + N);
      } else {
        assert old(Slot(m, b, S));
      }
    }
  }

  predicate NoDuplicates(s: seq<Node>) {
    forall i, j :: 0 <= i < j < |s| ==> s[i] != s[j]
  }

  /** The child nodes in the order the hash map happens to give. */
  method GetChildNodes(node: Node, ghost root: Node, ghost S: set<Node>) returns (s: seq<Node>)
    requires Linked(root, S) && node in S
    ensures NoDuplicates(s)
    ensures forall c :: c in s <==> c in S && c != root && c.parent == node
  {
    var rest := node.childNodes;
    s := [];
    while rest != map[]
      invariant forall b :: b in rest ==> b in node.childNodes && rest[b] == node.childNodes[b] && rest[b] !in s
      invariant NoDuplicates(s)
      invariant forall c :: c in s ==> c in S && c != root && c.parent == node
      invariant forall b :: b in node.childNodes ==> b in rest || node.childNodes[b] in s
      decreases |rest|
    {
      var b :| b in rest;
      assert Slot(node, b, S);
      forall d | d in rest && d != b
        ensures rest[d] != rest[b]
      {
        assert Slot(node, d, S);
      }
      s := s + [rest[b]];
      ghost var before := rest;
      rest := rest - {b};
      assert |before| == |rest| + 1 by { assert before.Keys == rest.Keys + {b}; }
    }
    forall c | c in S && c != root && c.parent == node
      ensures c in s
    {
      assert Attached(c, S);
    }
  }

  /** A node of `S0` that is not cut yet still has its old parent, and waits in the queue
      exactly when that parent is done. */
  ghost predicate Waiting(n: Node, S0: set<Node>, done: set<Node>, queue: seq<Node>)
    reads n`parent
  {
    n !in done ==> n.parent != null && n.parent in S0 && (n in queue <==> n.parent in done)
  }

  /** A node that is cut, or was made by a cut, holds one byte and hangs below another such node. */
  ghost predicate Settled(n: Node, S0: set<Node>, S: set<Node>, done: set<Node>)
    reads n`data, n`parent
  {
    n in done || n !in S0 ==>
      |n.data| == 1 && n.parent != null && (n.parent in done || n.parent in S - S0)
  }

  /** How far `simplifyNodes` has come with the nodes `S0` it found. */
  ghost predicate Progress(root: Node, S0: set<Node>, S: set<Node>, done: set<Node>, queue: seq<Node>)
    reads S`data, S`parent
  {
    && S0 <= S && done <= S0 && root in done && NoDuplicates(queue)
    && (forall n :: n in queue ==> n in S0 && n !in done)
    && (forall n {:trigger Waiting(n, S0, done, queue)} :: n in S0 ==> Waiting(n, S0, done, queue))
    && (forall n {:trigger Settled(n, S0, S, done)} :: n in S && n != root ==> Settled(n, S0, S, done))
  }

  lemma NoDuplicatesAppend(a: seq<Node>, b: seq<Node>)
    requires NoDuplicates(a) && NoDuplicates(b) && a != [] && forall n :: n in b ==> n !in a
    ensures NoDuplicates(a[1..] + b) && a[0] !in a[1..] + b
    ensures forall n :: n in a[1..] + b <==> n != a[0] && (n in a || n in b)
  {
    var t := a[1..] + b;
    assert forall n :: n in a <==> n == a[0] || n in a[1..];
    forall i, j | 0 <= i < j < |t|
      ensures t[i] != t[j]
    {
      if i < |a| - 1 {
        assert t[i] == a[i + 1];
        assert t[j] == if j < |a| - 1 then a[j + 1] else b[j - (|a| - 1)];
        assert j >= |a| - 1 ==> t[j] in b;
      }
    }
  }

  /** One round of the queue loop. */
  method SimplifyNode(root: Node, queue: seq<Node>, ghost S0: set<Node>, ghost S: set<Node>, ghost done: set<Node>)
    returns (queue': seq<Node>, ghost N: set<Node>)
    requires Linked(root, S) && Progress(root, S0, S, done, queue) && queue != []
    modifies S`data, S`parent, S`childNodes
    ensures fresh(N) && Linked(root, S + N) && Cut(queue[0], N, old(Start(queue[0])))
    ensures Progress(root, S0, S + N, done + {queue[0]}, queue')
    ensures forall n :: n in S0 && n !in done + {queue[0]} ==> n.parent == old(n.parent)
  {
    var node := queue[0];
    ghost var done' := done + {node};
    assert Waiting(node, S0, done, queue);
    assert Attached(node, S);
    N := {};
    assert S + N == S;
    if |node.data| > 1 {
      N := CutEdge(root, node, S);
    }
    assert |node.data| == 1;
    var children := GetChildNodes(node, root, S + N);
    hide Linked, Attached, Slot, NoDuplicates;
    forall n | n in children
      ensures n in S0 && n !in done' && n !in queue
    {
      assert n in S ==> old(Settled(n, S0, S, done)) && old(Waiting(n, S0, done, queue));
    }
    NoDuplicatesAppend(queue, children);
    queue' := queue[1..] + children;
    forall n | n in S + N && n != root
      ensures Settled(n, S0, S + N, done')
    {
      assert n in S ==> old(Settled(n, S0, S, done));
    }
    forall n | n in S0
      ensures Waiting(n, S0, done', queue')
    {
      assert old(Waiting(n, S0, done, queue));
    }
  }

  /** The paths on the edge to `n` lead to `n` in the tree `P`. */
  ghost predicate EdgeLeads(n: Node, P: set<Path>)
    reads n`parent
  {
    forall k {:trigger n.path[..k]} :: Start(n) < k <= |n.path| ==> LocusOf(P, n.path[..k]) == n.path
  }

  ghost predicate EdgesLead(root: Node, S: set<Node>, P: set<Path>)
    reads S`parent
  {
    forall n {:trigger EdgeLeads(n, P)} :: n in S && n != root ==> EdgeLeads(n, P)
  }

  lemma AllEdgesLead(root: Node, S: set<Node>)
    requires Linked(root, S)
    ensures EdgesLead(root, S, Paths(S))
  {
    forall n | n in S && n != root
      ensures EdgeLeads(n, Paths(S))
    {
      assert Attached(n, S);
      forall k | Start(n) < k <= |n.path|
        ensures LocusOf(Paths(S), n.path[..k]) == n.path
      {
        EndsInside(root, S, n, n.path[..k]);
        LocusUnique(Paths(S), n.path[..k], n.path);
      }
    }
  }

  /** Every node has the count of the node of `C` its path leads to. */
  ghost predicate CountsFrom(S: set<Node>, C: Model)
    reads S`count
  {
    forall n {:trigger LocusOf(C.Keys, n.path)} :: n in S ==>
      LocusOf(C.Keys, n.path) in C && C[LocusOf(C.Keys, n.path)] == n.count
  }

  lemma CutCounts(n: Node, N: set<Node>, from: nat, C: Model, S: set<Node>)
    requires Cut(n, N, from) && n.path in C && C[n.path] == n.count && CountsFrom(S, C)
    requires forall k {:trigger n.path[..k]} :: from < k <= |n.path| ==> LocusOf(C.Keys, n.path[..k]) == n.path
    ensures CountsFrom(S + N, C)
  {
    forall m | m in N
      ensures LocusOf(C.Keys, m.path) in C && C[LocusOf(C.Keys, m.path)] == m.count
    {
      assert m.path == n.path[..|m.path|];
    }
  }

  lemma {:induction false} AllDone(root: Node, S0: set<Node>, S: set<Node>, done: set<Node>, n: Node)
    requires Linked(root, S) && Progress(root, S0, S, done, []) && n in S0
    ensures n in done
    decreases |n.path|
  {
    assert Waiting(n, S0, done, []);
    if n !in done {
      assert Attached(n, S);
      AllDone(root, S0, S, done, n.parent);
    }
  }

  lemma ShownCounts(root: Node, S: set<Node>, C: Model)
    requires Linked(root, S) && Shows(S, C)
    ensures CountsFrom(S, C)
  {
    forall n | n in S
      ensures LocusOf(C.Keys, n.path) in C && C[LocusOf(C.Keys, n.path)] == n.count
    {
      OwnLead(S, n);
    }
  }

  lemma OwnLead(S: set<Node>, n: Node)
    requires n in S
    ensures n.path in Paths(S) && LocusOf(Paths(S), n.path) == n.path
  {
    assert n.path in Paths(S);
    assert IsLocus(Paths(S), n.path, n.path);
    LocusUnique(Paths(S), n.path, n.path);
  }

  ghost predicate AllCovered(S: set<Node>, P: set<Path>) {
    forall m {:trigger Covered(P, m.path)} :: m in S ==> Covered(P, m.path)
  }

  lemma CutCovered(n: Node, N: set<Node>, from: nat, P: set<Path>, S: set<Node>)
    requires Cut(n, N, from) && n in S && AllCovered(S, P)
    ensures AllCovered(S + N, P)
  {
    forall m | m in N
      ensures Covered(P, m.path)
    {
      CoveredPrefix(P, m.path, n.path);
    }
  }

  ghost predicate SingleBytes(root: Node, S: set<Node>)
    reads S`data
  {
    forall n {:trigger n.data} :: n in S && n != root ==> |n.data| == 1
  }

  /** With one byte a node, every prefix has its node. */
  lemma {:induction false} PrefixHasNode(root: Node, S: set<Node>, n: Node, k: int)
    requires Linked(root, S) && SingleBytes(root, S) && n in S && |root.path| <= k <= |n.path|
    ensures n.path[..k] in Paths(S)
    decreases |n.path|
  {
    if k == |n.path| {
      assert n.path[..k] == n.path;
    } else {
      RootFirst(root, S, n);
      assert Attached(n, S);
      PrefixHasNode(root, S, n.parent, k);
      assert n.path[..k] == n.parent.path[..k];
    }
  }

  lemma SimplifiedShown(root: Node, S0: set<Node>, S: set<Node>, C: Model)
    requires Linked(root, S) && SingleBytes(root, S) && S0 <= S && C.Keys == Paths(S0)
    requires AllCovered(S, Paths(S0)) && CountsFrom(S, C)
    ensures Shows(S, Simplified(C, root.path))
  {
    SimplifiedPaths(root, S0, S);
    hide Linked, LocusOf, Prefixes;
    forall m | m in S
      ensures Simplified(C, root.path)[m.path] == m.count
    {
      assert m.path in Paths(S);
    }
  }

  lemma SimplifiedPaths(root: Node, S0: set<Node>, S: set<Node>)
    requires Linked(root, S) && SingleBytes(root, S) && S0 <= S && AllCovered(S, Paths(S0))
    ensures Paths(S) == Prefixes(Paths(S0), root.path)
  {
    hide Attached, Slot;
    var P := Paths(S0);
    forall p | p in Prefixes(P, root.path)
      ensures p in Paths(S)
    {
      var q, k :| q in P && |root.path| <= k <= |q| && p == q[..k];
      var n :| n in S0 && n.path == q;
      PrefixHasNode(root, S, n, k);
    }
    forall m | m in S
      ensures m.path in Prefixes(P, root.path)
    {
      RootFirst(root, S, m);
      assert Covered(P, m.path);
      var q :| q in P && m.path <= q;
      assert m.path == q[..|m.path|];
    }
  }

  /** The loop invariant of `simplifyNodes`. */
  ghost predicate Simplifying(root: Node, S0: set<Node>, S: set<Node>, done: set<Node>, queue: seq<Node>, C: Model)
    reads S
  {
    && S0 <= S && Linked(root, S) && Progress(root, S0, S, done, queue)
    && EdgesLead(root, S0 - done, Paths(S0)) && C.Keys == Paths(S0)
    && CountsFrom(S, C) && AllCovered(S, Paths(S0))
  }

  method SimplifyRound(root: Node, queue: seq<Node>,
                       ghost S0: set<Node>, ghost S: set<Node>, ghost done: set<Node>, ghost C: Model)
    returns (queue': seq<Node>, ghost N: set<Node>)
    requires Simplifying(root, S0, S, done, queue, C) && queue != []
    modifies S`data, S`parent, S`childNodes
    ensures fresh(N) && Simplifying(root, S0, S + N, done + {queue[0]}, queue', C)
  {
    hide Attached, Slot, Linked, Progress, EdgeLeads, Cut, LocusOf, CountsFrom, AllCovered;
    ghost var node := queue[0];
    NextNode(root, S0, S, done, queue);
    ghost var from := Start(node);
    assert EdgeLeads(node, Paths(S0));
    NodeLeads(node, Paths(S0), from);
    OwnLead(S0, node);
    NodeCounts(node, S, C);
    queue', N := SimplifyNode(root, queue, S0, S, done);
    CutCounts(node, N, from, C, S);
    CutCovered(node, N, from, Paths(S0), S);
  }

  /** Rewrites every edge to single bytes. */
  method SimplifyNodes(root: Node, ghost S: set<Node>, ghost C: Model) returns (ghost S': set<Node>)
    requires Is(root, S, C)
    modifies S`data, S`parent, S`childNodes
    ensures S <= S' && fresh(S' - S)
    ensures Is(root, S', Simplified(C, root.path)) && SingleBytes(root, S')
  {
    ghost var done := {root};
    var queue := GetChildNodes(root, root, S);
    S' := S;
    StartProgress(root, S, queue, C);
    hide Simplifying, Linked, Shows, SingleBytes, Simplified;
    while queue != []
      invariant S <= S' && fresh(S' - S) && Simplifying(root, S, S', done, queue, C)
      decreases |S - done|
    {
      NextDone(root, S, S', done, queue, C);
      ghost var node, N := queue[0], {};
      queue, N := SimplifyRound(root, queue, S, S', done, C);
      S' := S' + N;
      done := done + {node};
    }
    AllSimplified(root, S, S', done, C);
  }

  lemma NextDone(root: Node, S0: set<Node>, S: set<Node>, done: set<Node>, queue: seq<Node>, C: Model)
    requires Simplifying(root, S0, S, done, queue, C) && queue != []
    ensures |S0 - (done + {queue[0]})| < |S0 - done|
  {
    NextNode(root, S0, S, done, queue);
  }

  lemma AllSimplified(root: Node, S0: set<Node>, S: set<Node>, done: set<Node>, C: Model)
    requires Simplifying(root, S0, S, done, [], C)
    ensures Linked(root, S) && SingleBytes(root, S) && Shows(S, Simplified(C, root.path))
  {
    AllSingle(root, S0, S, done);
    SimplifiedShown(root, S0, S, C);
  }

  lemma StartProgress(root: Node, S: set<Node>, queue: seq<Node>, C: Model)
    requires Linked(root, S) && NoDuplicates(queue) && Shows(S, C)
    requires forall c :: c in queue <==> c in S && c != root && c.parent == root
    ensures Simplifying(root, S, S, {root}, queue, C)
  {
    hide Linked, Progress, CountsFrom, AllCovered, NoDuplicates;
    AllEdgesLead(root, S);
    ShownCounts(root, S, C);
    StartQueue(root, S, queue);
    OwnCovered(S);
    ShownKeys(S, C);
  }

  lemma ShownKeys(S: set<Node>, C: Model)
    requires Shows(S, C)
    ensures C.Keys == Paths(S)
  {
  }

  lemma StartQueue(root: Node, S: set<Node>, queue: seq<Node>)
    requires Linked(root, S) && NoDuplicates(queue)
    requires forall c :: c in queue <==> c in S && c != root && c.parent == root
    ensures root in S && Progress(root, S, S, {root}, queue)
  {
    forall n | n in S
      ensures Waiting(n, S, {root}, queue)
    {
      assert n != root ==> Attached(n, S);
    }
  }

  lemma OwnCovered(S: set<Node>)
    ensures AllCovered(S, Paths(S))
  {
    forall n | n in S
      ensures Covered(Paths(S), n.path)
    {
      assert n.path in Paths(S) && n.path <= n.path;
    }
  }

  lemma NodeLeads(n: Node, P: set<Path>, from: nat)
    requires EdgeLeads(n, P) && from == Start(n)
    ensures forall k {:trigger n.path[..k]} :: from < k <= |n.path| ==> LocusOf(P, n.path[..k]) == n.path
  {
  }

  lemma NodeCounts(n: Node, S: set<Node>, C: Model)
    requires CountsFrom(S, C) && n in S && LocusOf(C.Keys, n.path) == n.path
    ensures n.path in C && C[n.path] == n.count
  {
  }

  lemma AllSingle(root: Node, S0: set<Node>, S: set<Node>, done: set<Node>)
    requires Linked(root, S) && Progress(root, S0, S, done, [])
    ensures SingleBytes(root, S)
  {
    forall n | n in S && n != root
      ensures |n.data| == 1
    {
      if n in S0 {
        AllDone(root, S0, S, done, n);
      }
      assert Settled(n, S0, S, done);
    }
  }

  lemma NextNode(root: Node, S0: set<Node>, S: set<Node>, done: set<Node>, queue: seq<Node>)
    requires Progress(root, S0, S, done, queue) && queue != []
    ensures queue[0] in S0 && queue[0] !in done && queue[0] != root && S0 <= S && done <= S0
    ensures |S0 - (done + {queue[0]})| < |S0 - done|
  {
    assert S0 - done == S0 - (done + {queue[0]}) + {queue[0]};
  }

  // ---------------------------------------------------------------- new trees

  lemma IsRoot(root: Node)
    requires root.parent == null && root.path == root.data && root.childNodes == map[] && root.count == 0
    ensures Is(root, {root}, map[root.path := 0])
  {
    assert Paths({root}) == {root.path};
  }

  lemma IsRootAndLeaf(root: Node, leaf: Node, C: Model)
    requires root.parent == null && root.path == root.data && root.count == 1
    requires leaf.data != [] && leaf.parent == root && leaf.path == root.path + leaf.data && leaf.count == 1
    requires root.childNodes == map[leaf.data[0] := leaf] && leaf.childNodes == map[]
    requires C.Keys == {root.path} && C[root.path] == 0
    ensures C != map[] && Is(root, {root, leaf}, MergeModel(C, leaf.path))
  {
    assert leaf != root;
    hide MergeModel, Linked, Shows;
    FirstModel(C, root.path, leaf.path);
    LeafLinked(root, leaf);
    ShowsTwo(root, leaf);
  }

  lemma ShowsTwo(n: Node, m: Node)
    requires n.path != m.path
    ensures Shows({n, m}, map[n.path := n.count, m.path := m.count])
  {
    assert Paths({n, m}) == {n.path, m.path};
  }

  lemma LeafLinked(root: Node, leaf: Node)
    requires root.parent == null && root.path == root.data
    requires leaf.data != [] && leaf.parent == root && leaf.path == root.path + leaf.data
    requires root.childNodes == map[leaf.data[0] := leaf] && leaf.childNodes == map[]
    ensures Linked(root, {root, leaf})
  {
    assert Attached(leaf, {root, leaf});
  }

  // ---------------------------------------------------------------- the nodes of a run

  lemma {:induction false} OnePathEach(root: Node, S: set<Node>, T: set<Node>)
    requires Linked(root, S) && T <= S
    ensures |T| == |Paths(T)|
    decreases |T|
  {
    if T == {} {
      assert Paths(T) == {};
    } else {
      var n :| n in T;
      var U := T - {n};
      OnePathEach(root, S, U);
      PathsOfMore(U, n);
      assert U + {n} == T;
      if n.path in Paths(U) {
        var m :| m in U && m.path == n.path;
        SamePath(root, S, n, m);
      }
    }
  }

  /** After merging `k >= 1` different streams there are at most `2k - 1` nodes below the root. */
  lemma NodeBound(root: Node, S: set<Node>, ss: seq<Path>)
    requires Is(root, S, Run(root.path, ss)) && ss != []
    ensures |S - {root}| <= 2 * |Distinct(ss)| - 1
  {
    OnePathEach(root, S, S);
    RunBound(root.path, ss);
    assert S == (S - {root}) + {root};
  }

  /** Every node below the root ends a merged stream or has two children. */
  lemma NoIdleNode(root: Node, S: set<Node>, ss: seq<Path>, n: Node)
    requires Is(root, S, Run(root.path, ss)) && n in S && n != root
    ensures Ends(root.path, ss, n.path)
      || exists a, b :: a != b && a in n.childNodes && b in n.childNodes
  {
    hide RunPaths, Run, Ends;
    assert n.path in Paths(S);
    RunJustified(root.path, ss, n.path);
    RootFirst(root, S, n);
    if Branches(Paths(S), n.path) {
      var a: Byte, b: Byte :| a != b && Covered(Paths(S), n.path + [a]) && Covered(Paths(S), n.path + [b]);
      ChildToward(root, S, n, a);
      ChildToward(root, S, n, b);
    }
  }

  lemma ChildToward(root: Node, S: set<Node>, n: Node, a: Byte)
    requires Linked(root, S) && n in S && Covered(Paths(S), n.path + [a])
    ensures a in n.childNodes
  {
    var q :| q in Paths(S) && n.path + [a] <= q;
    var m :| m in S && m.path == q;
    assert q[|n.path|] == (n.path + [a])[|n.path|] == a;
    NextStep(root, S, n, m);
  }
}
