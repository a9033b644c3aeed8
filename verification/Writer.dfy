/** Reading recorded packets back, after `getDataFromLeafNode` and `toHexBinaryString` of
    `Writer.java`. */
module Writer {
  import opened Bytes
  import opened StreamTree

  /** The byte strings on the way up from a node, joined from the top down. */
  function Joined(data: seq<seq<Byte>>): (bytes: seq<Byte>) {
    if data == [] then [] else data[|data| - 1] + Joined(data[..|data| - 1])
  }

  lemma JoinedSnoc(data: seq<seq<Byte>>, d: seq<Byte>)
    ensures Joined(data + [d]) == d + Joined(data)
  {
    assert (data + [d])[..|data|] == data;
  }

  lemma JoinedNothing()
    ensures Joined([]) == []
  {
  }

  lemma StepUp(root: Node, S: set<Node>, n: Node)
    requires Linked(root, S) && n in S
    ensures |n.data| <= |n.path| && n.path == n.path[..|n.path| - |n.data|] + n.data
    ensures n.parent == null ==> n.path == n.data
    ensures n.parent != null ==>
      n.parent in S && n.parent.path == n.path[..|n.path| - |n.data|] && |n.parent.path| < |n.path|
  {
    assert n != root ==> Attached(n, S);
  }

  /** Walks up the parent links from `node` and joins the bytes: its path. The loops only
      follow links, so this is where a node's path is really read. */
  method GetDataFromLeafNode(node: Node?, ghost root: Node, ghost S: set<Node>) returns (bytes: array<Byte>)
    requires node != null ==> Linked(root, S) && node in S
    ensures fresh(bytes) && bytes[..] == if node == null then [] else node.path
  {
    hide Linked, Attached, Joined;
    JoinedNothing();
    ghost var above: Path := if node == null then [] else node.path;
    ghost var path := above;
    var data: seq<seq<Byte>> := [];
    var size := 0;
    var n := node;
    while n != null
      invariant n != null ==> Linked(root, S) && n in S && above == n.path
      invariant n == null ==> above == []
      invariant path == above + Joined(data) && size == |Joined(data)|
      decreases if n == null then 0 else |n.path| + 1
    {
      StepUp(root, S, n);
      above := above[..|above| - |n.data|];
      JoinedSnoc(data, n.data);
      Reassociate(above, n.data, Joined(data));
      data := data + [n.data];
      size := size + |n.data|;
      n := n.parent;
    }
    bytes := JoinDown(data, size);
  }

  lemma Reassociate(a: Path, b: Path, c: Path)
    ensures (a + b) + c == a + (b + c)
  {
  }

  /** Copies the collected byte strings into one array, the last one first. */
  method JoinDown(data: seq<seq<Byte>>, total: int) returns (bytes: array<Byte>)
    requires total == |Joined(data)|
    ensures fresh(bytes) && bytes[..] == Joined(data)
  {
    bytes := new Byte[total];
    var size := 0;
    var i := |data| - 1;
    assert data[..|data|] == data;
    while i >= 0
      invariant -1 <= i < |data| && 0 <= size <= bytes.Length == total
      invariant Joined(data) == bytes[..size] + Joined(data[..i + 1])
    {
      assert data[..i + 1][..i] == data[..i];
      Fill(bytes, size, data[i]);
      size := size + |data[i]|;
      i := i - 1;
    }
  }

  method Fill(bytes: array<Byte>, from: int, data: seq<Byte>)
    requires 0 <= from <= from + |data| <= bytes.Length
    modifies bytes
    ensures bytes[..from + |data|] == old(bytes[..from]) + data
  {
    var j := 0;
    while j < |data|
      invariant 0 <= j <= |data|
      invariant bytes[..from + j] == old(bytes[..from]) + data[..j]
    {
      bytes[from + j] := data[j];
      j := j + 1;
    }
  }
}
