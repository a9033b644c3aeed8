/** The packets of one header, after `Tree.java` and `Packet.java`. */
module PacketTree {
  import opened Bytes
  import opened Wrappers
  import opened TrieModel
  import opened StreamTree
  import opened ParserModel

  class Packet {
    var transmittedLeafNode: Node
    var receivedLeafNode: Node?
    var responseTime: int
    var ac: int

    constructor (transmittedLeafNode: Node)
      ensures this.transmittedLeafNode == transmittedLeafNode && receivedLeafNode == null
      ensures responseTime == 0 && ac == 0
    {
      this.transmittedLeafNode, receivedLeafNode := transmittedLeafNode, null;
      responseTime, ac := 0, 0;
    }

    /** The packet with its nodes read as the bytes from the root down to them. */
    ghost function Read(): Record
      reads this
    {
      Record(transmittedLeafNode.path,
             if receivedLeafNode == null then None else Some(receivedLeafNode.path),
             responseTime, ac)
    }
  }

  class Tree {
    const header: Path
    const root: Node
    const receivedRoot: Node
    var packetsCount: int
    var lastPacket: Packet
    var streamPackets: seq<Packet>

    ghost var txNodes: set<Node>
    ghost var rxNodes: set<Node>
    ghost var tx: Model
    ghost var rx: Model

    ghost function Repr(): set<object>
      reads this
    {
      {this} + txNodes + rxNodes + (set p | p in streamPackets)
    }

    ghost predicate Valid()
      reads this, Repr()
    {
      && root.path == header && receivedRoot.path == header
      && Is(root, txNodes, tx) && Is(receivedRoot, rxNodes, rx)
      && root in txNodes && receivedRoot in rxNodes && txNodes !! rxNodes
      && header in tx && header in rx
      && packetsCount == |streamPackets| > 0 && lastPacket == streamPackets[|streamPackets| - 1]
      && Separate(streamPackets) && Within(streamPackets, txNodes, rxNodes)
    }

    ghost function View(): View
      reads this, Repr()
    {
      ParserModel.View(header, tx, rx, ReadAll(streamPackets))
    }

    lemma ViewOk()
      requires Valid()
      ensures Ok(View()) && View().header == header
      ensures this in Repr()
    {
    }

    lemma LastOwned()
      requires Valid()
      ensures lastPacket in Repr()
    {
    }

    constructor (header: Path, data: seq<Byte>)
      requires data != []
      ensures Valid() && fresh(Repr())
      ensures this.header == header && View() == NewView(header, data)
    {
      hide Is, Run, MergeModel, Within, Separate, ReadAll;
      this.header := header;
      var r, leaf, rr := Plant(header, data);
      root, receivedRoot := r, rr;
      lastPacket := new Packet(leaf);
      streamPackets := [lastPacket];
      packetsCount := 1;
      txNodes, rxNodes := {r, leaf}, {rr};
      tx, rx := Run(header, [data]), Run(header, []);
      new;
      OnePacket(lastPacket, txNodes, rxNodes);
    }

    /** The tree is valid, except that the nodes and counts on the transmitted side are
        now `S` and `C`. */
    ghost predicate ValidWith(S: set<Node>, C: Model)
      reads this, Repr(), S
    {
      && root.path == header && receivedRoot.path == header
      && Is(root, S, C) && Is(receivedRoot, rxNodes, rx)
      && root in S && receivedRoot in rxNodes && txNodes <= S && S !! rxNodes
      && header in C && header in rx
      && packetsCount == |streamPackets| > 0 && lastPacket == streamPackets[|streamPackets| - 1]
      && Separate(streamPackets) && Within(streamPackets, txNodes, rxNodes)
    }

    /** Records a packet that ends at `node`. */
    method Record(node: Node, ghost S: set<Node>, ghost C: Model)
      requires ValidWith(S, C) && node in S
      modifies this
      ensures Valid() && fresh(Repr() - old(Repr()) - S)
      ensures View() == old(View()).(tx := C,
        records := old(ReadAll(streamPackets)) + [ParserModel.Record(node.path, None, 0, 0)])
    {
      hide Is, ReadAll, Separate, Within, Packet.Read;
      var packet := new Packet(node);
      PacketReads(packet);
      AppendPacket(streamPackets, packet, txNodes, S, rxNodes);
      lastPacket := packet;
      streamPackets := streamPackets + [lastPacket];
      packetsCount := packetsCount + 1;
      txNodes, tx := S, C;
    }

    /** Merges a transmitted stream and records a packet for it. Not `ok` stands for the
        exception on an empty stream. */
    method Merge(stream: seq<Byte>) returns (ok: bool)
      requires Valid()
      modifies Repr()
      ensures Valid() && fresh(Repr() - old(Repr()))
      ensures View() == MergeView(old(View()), stream)
      ensures ok <==> stream != []
    {
      hide Is, MergeModel, MergePaths, IsLocus, LocusOf, ReadAll, Separate, Within;
      var node;
      ghost var S;
      node, S := StreamTree.Merge(root, stream, txNodes, tx);
      ok := node != null;
      if !ok {
        tx := CountRoot(tx, header);
      } else {
        LocusKnown(tx, header, header + stream, node.path);
        Record(node, S, MergeModel(tx, header + stream));
      }
    }

    /** The tree is valid, except that the nodes and counts on the received side are now
        `S` and `C`. */
    ghost predicate ValidReceiving(S: set<Node>, C: Model)
      reads this, Repr(), S
    {
      && root.path == header && receivedRoot.path == header
      && Is(root, txNodes, tx) && Is(receivedRoot, S, C)
      && root in txNodes && receivedRoot in S && rxNodes <= S && txNodes !! S
      && header in tx && header in C
      && packetsCount == |streamPackets| > 0 && lastPacket == streamPackets[|streamPackets| - 1]
      && Separate(streamPackets) && Within(streamPackets, txNodes, rxNodes)
    }

    method SetReceived(node: Node, ghost S: set<Node>, ghost C: Model)
      requires ValidReceiving(S, C) && node in S
      modifies this`rxNodes, this`rx, lastPacket`receivedLeafNode
      ensures Valid() && Repr() == old(Repr()) + S
      ensures View() == old(View()).(rx := C,
        records := SetLast(old(ReadAll(streamPackets)), old(lastPacket.Read()).(rx := Some(node.path))))
    {
      hide Is, ReadAll, Separate;
      LastPacket(streamPackets);
      lastPacket.receivedLeafNode := node;
      rxNodes, rx := S, C;
      LastPacket(streamPackets);
    }

    /** Merges a received stream and attaches it to the last packet. */
    method AddReceivedData(data: seq<Byte>) returns (ok: bool)
      requires Valid()
      modifies Repr()
      ensures Valid() && fresh(Repr() - old(Repr()))
      ensures View() == ReceiveView(old(View()), data)
      ensures ok <==> data != []
    {
      hide Is, MergeModel, MergePaths, IsLocus, LocusOf, ReadAll, Separate, Within;
      LastPacket(streamPackets);
      var node;
      ghost var S;
      node, S := StreamTree.Merge(receivedRoot, data, rxNodes, rx);
      ok := node != null;
      if !ok {
        rx := CountRoot(rx, header);
      } else {
        LocusKnown(rx, header, header + data, node.path);
        SetReceived(node, S, MergeModel(rx, header + data));
      }
    }

    method SetAdditionalInfoForLastPacket(responseTime: int, ac: int)
      requires Valid()
      modifies lastPacket`responseTime, lastPacket`ac
      ensures Valid() && Repr() == old(Repr())
      ensures View() == TimeView(old(View()), responseTime, ac)
      ensures lastPacket.responseTime == responseTime && lastPacket.ac == ac
    {
      hide Is, ReadAll, Separate;
      LastPacket(streamPackets);
      lastPacket.responseTime := responseTime;
      lastPacket.ac := ac;
      LastPacket(streamPackets);
    }

    /** Cuts both trees into single bytes. The packets still read the same. */
    method SimplifyNodes()
      requires Valid()
      modifies Repr()
      ensures Valid() && fresh(Repr() - old(Repr()))
      ensures View() == old(View()).(tx := Simplified(old(tx), header), rx := Simplified(old(rx), header))
      ensures SingleBytes(root, txNodes) && SingleBytes(receivedRoot, rxNodes)
    {
      hide Valid, ReadAll, Is, Simplified, SingleBytes;
      SimplifyTransmitted();
      SimplifyReceived();
    }

    method SimplifyTransmitted()
      requires Valid()
      modifies this`txNodes, this`tx, txNodes
      ensures Valid() && old(txNodes) <= txNodes && fresh(txNodes - old(txNodes))
      ensures txNodes !! rxNodes
      ensures tx == Simplified(old(tx), header) && SingleBytes(root, txNodes)
      ensures ReadAll(streamPackets) == old(ReadAll(streamPackets))
    {
      hide Is, Simplified, ReadAll, Separate, Within, SingleBytes;
      RootSimplified(tx, header);
      ghost var S := StreamTree.SimplifyNodes(root, txNodes, tx);
      WithinMore(streamPackets, txNodes, S, rxNodes, rxNodes);
      txNodes, tx := S, Simplified(tx, header);
    }

    method SimplifyReceived()
      requires Valid()
      modifies this`rxNodes, this`rx, rxNodes
      ensures Valid() && old(rxNodes) <= rxNodes && fresh(rxNodes - old(rxNodes))
      ensures rx == Simplified(old(rx), header) && SingleBytes(receivedRoot, rxNodes)
      ensures ReadAll(streamPackets) == old(ReadAll(streamPackets))
    {
      hide Is, Simplified, ReadAll, Separate, Within, SingleBytes;
      RootSimplified(rx, header);
      ghost var S := StreamTree.SimplifyNodes(receivedRoot, rxNodes, rx);
      WithinMore(streamPackets, txNodes, txNodes, rxNodes, S);
      rxNodes, rx := S, Simplified(rx, header);
    }
  }

  lemma PacketReads(p: Packet)
    requires p.receivedLeafNode == null
    ensures p.Read() == Record(p.transmittedLeafNode.path, None, p.responseTime, p.ac)
  {
  }

  lemma RootSimplified(C: Model, r: Path)
    requires r in C
    ensures r in Simplified(C, r)
  {
    assert r[..|r|] == r;
  }

  lemma WithinMore(ps: seq<Packet>, tx: set<Node>, tx': set<Node>, rx: set<Node>, rx': set<Node>)
    requires Within(ps, tx, rx) && tx <= tx' && rx <= rx'
    ensures Within(ps, tx', rx')
  {
  }

  lemma LastPacket(ps: seq<Packet>)
    requires Separate(ps) && ps != []
    ensures var i, l := ps[..|ps| - 1], ps[|ps| - 1];
      ps == i + [l] && l !in i && ReadAll(ps) == ReadAll(i) + [l.Read()]
  {
  }

  /** The roots of a new tree, with the first transmitted stream below its root. */
  method Plant(header: Path, data: seq<Byte>) returns (root: Node, leaf: Node, receivedRoot: Node)
    requires data != []
    ensures fresh({root, leaf, receivedRoot}) && receivedRoot != root && receivedRoot != leaf
    ensures root.path == header && receivedRoot.path == header && leaf.path == header + data
    ensures Is(root, {root, leaf}, Run(header, [data])) && Is(receivedRoot, {receivedRoot}, Run(header, []))
    ensures header in Run(header, [data]) && header in Run(header, [])
  {
    root := new Node(header, header);
    leaf := new Node(data, header + data);
    root.AddChild(leaf);
    receivedRoot := new Node(header, header);
    receivedRoot.count := 0;
    hide Is, Run;
    NewTrees(root, leaf, receivedRoot, header, data);
  }

  lemma LocusKnown(C: Model, r: Path, t: Path, p: Path)
    requires C != map[] && r in C && IsLocus(MergePaths(C.Keys, t), t, p)
    ensures LocusOf(MergePaths(C.Keys, t), t) == p && r in MergeModel(C, t)
  {
    LocusUnique(MergePaths(C.Keys, t), t, p);
  }

  lemma AppendPacket(ps: seq<Packet>, p: Packet, tx: set<Node>, tx': set<Node>, rx: set<Node>)
    requires Separate(ps) && Within(ps, tx, rx) && p !in ps && tx <= tx'
    requires p.transmittedLeafNode in tx' && p.receivedLeafNode == null
    ensures Separate(ps + [p]) && Within(ps + [p], tx', rx)
    ensures ReadAll(ps + [p]) == ReadAll(ps) + [p.Read()]
  {
    assert (ps + [p])[..|ps|] == ps;
  }

  lemma OnePacket(p: Packet, tx: set<Node>, rx: set<Node>)
    requires p.transmittedLeafNode in tx && p.receivedLeafNode == null
    ensures Within([p], tx, rx) && Separate([p]) && ReadAll([p]) == [p.Read()]
    ensures (set q | q in [p]) == {p}
  {
    assert [p][..0] == [];
  }

  lemma NewTrees(root: Node, leaf: Node, receivedRoot: Node, header: Path, data: Path)
    requires root.parent == null && root.path == root.data == header && root.count == 1
    requires data != [] && leaf.data == data && leaf.parent == root && leaf.path == header + data && leaf.count == 1
    requires root.childNodes == map[data[0] := leaf] && leaf.childNodes == map[]
    requires receivedRoot.parent == null && receivedRoot.path == receivedRoot.data == header
    requires receivedRoot.count == 0 && receivedRoot.childNodes == map[]
    ensures Is(root, {root, leaf}, Run(header, [data])) && Is(receivedRoot, {receivedRoot}, Run(header, []))
    ensures header in Run(header, [data]) && header in Run(header, [])
  {
    hide Is, MergeModel;
    IsRoot(receivedRoot);
    RunModelSnoc(header, [], data);
    assert [] + [data] == [data];
    IsRootAndLeaf(root, leaf, Run(header, []));
  }

  /** No packet occurs twice. */
  ghost predicate Separate(ps: seq<Packet>) {
    forall i, j :: 0 <= i < j < |ps| ==> ps[i] != ps[j]
  }

  /** The packets hold nodes of the two trees. */
  ghost predicate Within(ps: seq<Packet>, tx: set<Node>, rx: set<Node>)
    reads ps
  {
    forall p :: p in ps ==>
      p.transmittedLeafNode in tx && (p.receivedLeafNode == null || p.receivedLeafNode in rx)
  }

  ghost function ReadAll(ps: seq<Packet>): (rs: seq<Record>)
    reads ps
    ensures |rs| == |ps|
  {
    if ps == [] then [] else ReadAll(ps[..|ps| - 1]) + [ps[|ps| - 1].Read()]
  }
}
