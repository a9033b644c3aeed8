/** From the recorded packets of a header to their summary, after `prepareAnalyzedPackets`
    of `Writer.java`, and what the summary says about the log. */
module Analysis {
  import opened Bytes
  import opened Wrappers
  import opened TrieModel
  import opened StreamTree
  import opened ParserModel
  import opened PacketTree
  import opened Aggregation
  import opened Sums
  import AggregationModel
  import Messages
  import Writer

  /** The record has an answer, and both its streams have a header to take off. */
  predicate Readable(r: ParserModel.Record, n: nat) {
    r.rx.Some? && |r.tx| >= n && |r.rx.value| >= n
  }

  predicate AllReadable(rs: seq<ParserModel.Record>, n: nat) {
    forall i :: 0 <= i < |rs| ==> Readable(rs[i], n)
  }

  /** What a record is shown as: both streams in hex, without the header. */
  function Shown(r: ParserModel.Record, n: nat, separator: string): (pair: (string, string))
    requires Readable(r, n)
  {
    (Messages.Render(r.tx[n..], separator), Messages.Render(r.rx.value[n..], separator))
  }

  function AllShown(rs: seq<ParserModel.Record>, n: nat, separator: string): (pairs: seq<(string, string)>)
    requires AllReadable(rs, n)
    ensures |pairs| == |rs| && forall i :: 0 <= i < |rs| ==> pairs[i] == Shown(rs[i], n, separator)
  {
    seq(|rs|, i requires 0 <= i < |rs| => Shown(rs[i], n, separator))
  }

  lemma {:induction false} ReadAllAt(ps: seq<PacketTree.Packet>, i: nat)
    requires i < |ps|
    ensures ReadAll(ps)[i] == ps[i].Read()
  {
    if i < |ps| - 1 {
      ReadAllAt(ps[..|ps| - 1], i);
    }
  }

  lemma AggregateStep(pairs: seq<(string, string)>, i: nat)
    requires i < |pairs|
    ensures AggregationModel.Aggregate(pairs[..i + 1]) ==
      AggregationModel.AddPacket(AggregationModel.Aggregate(pairs[..i]),
                                 AggregationModel.Single(pairs[i].0, pairs[i].1))
  {
    assert pairs[..i + 1][..i] == pairs[..i];
  }

  /** The packet of one exchange, both messages counted once. */
  method NewOutputPacket(transmitted: string, received: string) returns (p: OutputPacket)
    ensures p.Valid() && fresh(p.Repr()) && p.View() == AggregationModel.Single(transmitted, received)
  {
    var t := new OutputMessage(transmitted);
    p := new OutputPacket(t);
    var r := new OutputMessage(received);
    p.AddReceivedMessage(r);
  }

  /** Reads a packet back out of the trees. Not `ok` stands for the exceptions: there is
      no received node, or a stream is shorter than the header. */
  method ReadPacket(tree: Tree, packet: PacketTree.Packet, headerLength: nat, separator: string)
    returns (ok: bool, transmitted: string, received: string)
    requires tree.Valid() && packet in tree.streamPackets
    ensures ok <==> Readable(packet.Read(), headerLength)
    ensures ok ==> (transmitted, received) == Shown(packet.Read(), headerLength, separator)
  {
    hide Is, ReadAll, Separate, Messages.Render;
    transmitted, received := "", "";
    IsLinked(tree.root, tree.txNodes, tree.tx);
    IsLinked(tree.receivedRoot, tree.rxNodes, tree.rx);
    var tx := Writer.GetDataFromLeafNode(packet.transmittedLeafNode, tree.root, tree.txNodes);
    var rx := Writer.GetDataFromLeafNode(packet.receivedLeafNode, tree.receivedRoot, tree.rxNodes);
    ok := packet.receivedLeafNode != null && headerLength <= tx.Length && headerLength <= rx.Length;
    if ok {
      transmitted := Messages.ToHexBinaryString(tx[headerLength..], separator);
      received := Messages.ToHexBinaryString(rx[headerLength..], separator);
    }
  }

  lemma IsLinked(root: Node, S: set<Node>, C: Model)
    requires Is(root, S, C)
    ensures Linked(root, S)
  {
  }

  /** Counts the packets of a tree by what they read as. */
  method PrepareAnalyzedPackets(tree: Tree, headerLength: nat, separator: string)
    returns (outputTree: OutputTree, ok: bool)
    requires tree.Valid()
    ensures ok <==> AllReadable(old(tree.View().records), headerLength)
    ensures fresh(outputTree.Repr) && outputTree.Valid() && outputTree.header == Messages.Render(tree.header, separator)
    ensures ok ==>
      outputTree.view == AggregationModel.Aggregate(AllShown(old(tree.View().records), headerLength, separator))
  {
    hide Is, ReadAll, Separate, Within, Messages.Render, AggregationModel.AddPacket, OutputTree.Valid,
      OutputPacket.Valid, OutputPacket.View, OutputPacket.Repr, Shown, Readable;
    ok := true;
    IsLinked(tree.root, tree.txNodes, tree.tx);
    var header := Messages.ToHexBinaryString(tree.root.data, separator);
    outputTree := new OutputTree(header);
    ghost var rs := tree.View().records;
    var i := 0;
    while i < |tree.streamPackets|
      invariant 0 <= i <= |tree.streamPackets| && ok
      invariant outputTree.Valid() && fresh(outputTree.Repr) && outputTree.header == header
      invariant AllReadable(rs[..i], headerLength)
      invariant outputTree.view == AggregationModel.Aggregate(AllShown(rs[..i], headerLength, separator))
    {
      ReadAllAt(tree.streamPackets, i);
      var transmitted, received;
      ok, transmitted, received := ReadPacket(tree, tree.streamPackets[i], headerLength, separator);
      assert tree.streamPackets[i].Read() == rs[i];
      if !ok {
        return;
      }
      var p := NewOutputPacket(transmitted, received);
      outputTree.AddPacket(p);
      ShownStep(rs, i, headerLength, separator);
      i := i + 1;
    }
    assert rs[..i] == rs;
  }

  lemma ShownStep(rs: seq<ParserModel.Record>, i: nat, n: nat, separator: string)
    requires i < |rs| && AllReadable(rs[..i], n) && Readable(rs[i], n)
    ensures AllReadable(rs[..i + 1], n)
    ensures var pair := Shown(rs[i], n, separator);
      AggregationModel.Aggregate(AllShown(rs[..i + 1], n, separator)) ==
      AggregationModel.AddPacket(AggregationModel.Aggregate(AllShown(rs[..i], n, separator)),
                                 AggregationModel.Single(pair.0, pair.1))
  {
    hide Readable, Shown;
    var pairs := AllShown(rs[..i + 1], n, separator);
    assert pairs[..i] == AllShown(rs[..i], n, separator);
    AggregateStep(pairs, i);
  }

  // ---------------------------------------------------------------- the summary of a log

  /** Every exchange has an answer. */
  predicate Answered(es: seq<Exchange>) {
    forall i :: 0 <= i < |es| ==> es[i].rx != []
  }

  /** Neither stream of an exchange, with its last answer, ended strictly inside an edge. */
  ghost predicate LegibleAt(h: Path, es: seq<Exchange>, i: nat)
    requires i < |es| && es[i].rx != []
  {
    var heard := Rxs(es[..i]) + es[i].rx;
    && EndsWell(RunPaths(h, Txs(es[..i])), h + es[i].tx)
    && EndsWell(RunPaths(h, heard[..|heard| - 1]), h + heard[|heard| - 1])
  }

  ghost predicate Legible(h: Path, es: seq<Exchange>)
    requires Answered(es)
  {
    forall i {:trigger LegibleAt(h, es, i)} :: 0 <= i < |es| ==> LegibleAt(h, es, i)
  }

  function Answer(e: Exchange): (pair: (Path, Path))
    requires e.rx != []
  {
    (e.tx, e.rx[|e.rx| - 1])
  }

  /** The exchanges with the last answer of each. */
  function Answers(es: seq<Exchange>): (pairs: seq<(Path, Path)>)
    requires Answered(es)
    ensures |pairs| == |es| && forall i :: 0 <= i < |es| ==> pairs[i] == Answer(es[i])
  {
    seq(|es|, i requires 0 <= i < |es| => Answer(es[i]))
  }

  /** What a record reads as, without the header. */
  function Read(r: ParserModel.Record, n: nat): (pair: (Path, Path))
    requires Readable(r, n)
  {
    (r.tx[n..], r.rx.value[n..])
  }

  function AllRead(rs: seq<ParserModel.Record>, n: nat): (pairs: seq<(Path, Path)>)
    requires AllReadable(rs, n)
    ensures |pairs| == |rs| && forall i :: 0 <= i < |rs| ==> pairs[i] == Read(rs[i], n)
  {
    seq(|rs|, i requires 0 <= i < |rs| => Read(rs[i], n))
  }

  function Rendered(pairs: seq<(Path, Path)>): (texts: seq<(string, string)>) {
    if pairs == [] then []
    else
      var l := pairs[|pairs| - 1];
      Rendered(pairs[..|pairs| - 1]) + [(Messages.Render(l.0, " "), Messages.Render(l.1, " "))]
  }

  lemma {:induction false} RenderedAt(pairs: seq<(Path, Path)>)
    ensures |Rendered(pairs)| == |pairs|
    ensures forall i :: 0 <= i < |pairs| ==>
      Rendered(pairs)[i] == (Messages.Render(pairs[i].0, " "), Messages.Render(pairs[i].1, " "))
  {
    hide Messages.Render;
    if pairs != [] {
      RenderedAt(pairs[..|pairs| - 1]);
    }
  }

  /** Writing the bytes out does not merge different pairs. */
  lemma {:induction false} RenderedCounts(pairs: seq<(Path, Path)>, tx: Path, rx: Path)
    ensures multiset(Rendered(pairs))[(Messages.Render(tx, " "), Messages.Render(rx, " "))] == multiset(pairs)[(tx, rx)]
  {
    hide Messages.Render;
    if pairs != [] {
      var init, l := pairs[..|pairs| - 1], pairs[|pairs| - 1];
      RenderedCounts(init, tx, rx);
      assert pairs == init + [l];
      if Messages.Render(tx, " ") == Messages.Render(l.0, " ")
        && Messages.Render(rx, " ") == Messages.Render(l.1, " ") {
        Messages.RenderInjective(tx, l.0);
        Messages.RenderInjective(rx, l.1);
      }
    }
  }

  /** How often the summary of the records counts a pair of streams. */
  function Counted(rs: seq<ParserModel.Record>, n: nat, tx: Path, rx: Path): (c: int)
    requires AllReadable(rs, n)
  {
    AggregationModel.PairCount(AggregationModel.Aggregate(AllShown(rs, n, " ")),
                               Messages.Render(tx, " "), Messages.Render(rx, " "))
  }

  /** A pair is counted as often as packets read as it. */
  lemma CountedAsRead(rs: seq<ParserModel.Record>, n: nat, tx: Path, rx: Path)
    requires AllReadable(rs, n)
    ensures Counted(rs, n, tx, rx) == multiset(AllRead(rs, n))[(tx, rx)]
  {
    hide Readable, Messages.Render, AggregationModel.Aggregate, AggregationModel.PairCount, AggregationModel.GoodTree;
    RenderedAt(AllRead(rs, n));
    assert AllShown(rs, n, " ") == Rendered(AllRead(rs, n));
    AggregationModel.AggregateCounts(AllShown(rs, n, " "), Messages.Render(tx, " "), Messages.Render(rx, " "));
    RenderedCounts(AllRead(rs, n), tx, rx);
  }

  function Size(pair: (Path, Path)): int {
    |pair.0| + |pair.1|
  }

  /** What is read of an exchange is the exchange exactly if it is legible, and longer
      otherwise. */
  lemma ReadsAs(h: Path, r: ParserModel.Record, es: seq<Exchange>, i: nat)
    requires i < |es| && Recorded(h, r, es, i) && es[i].rx != []
    ensures Readable(r, |h|)
    ensures if LegibleAt(h, es, i) then Read(r, |h|) == Answer(es[i]) else Size(Answer(es[i])) < Size(Read(r, |h|))
  {
    hide RunPaths, LocusOf, EndsWell, Recorded;
    ReadBack(h, r, es, i);
    var d := es[i].rx[|es[i].rx| - 1];
    WithoutHeader(h, es[i].tx, r.tx);
    WithoutHeader(h, d, r.rx.value);
  }

  lemma WithoutHeader(h: Path, s: Path, p: Path)
    requires h + s <= p
    ensures p[|h|..] == s <==> p == h + s
    ensures |p[|h|..]| >= |s| && (|p[|h|..]| == |s| ==> p == h + s)
  {
    assert p == h + p[|h|..];
  }

  lemma AllReadAs(v: View, h: Path, es: seq<Exchange>)
    requires Faithful(v, h, es) && Answered(es)
    ensures AllReadable(v.records, |h|) && |v.records| == |es|
    ensures forall i {:trigger LegibleAt(h, es, i)} {:trigger v.records[i]} :: 0 <= i < |es| ==>
      if LegibleAt(h, es, i) then Read(v.records[i], |h|) == Answer(es[i])
      else Size(Answer(es[i])) < Size(Read(v.records[i], |h|))
  {
    hide Recorded, Readable, Read, Answer, LegibleAt, Run, Size;
    forall i {:trigger LegibleAt(h, es, i)} {:trigger v.records[i]} | 0 <= i < |es|
      ensures Readable(v.records[i], |h|)
      ensures if LegibleAt(h, es, i) then Read(v.records[i], |h|) == Answer(es[i])
        else Size(Answer(es[i])) < Size(Read(v.records[i], |h|))
    {
      assert Recorded(h, v.records[i], es, i);
      ReadsAs(h, v.records[i], es, i);
    }
  }

  /** The summary counts every pair of streams as often as it was exchanged. */
  ghost predicate CountsExchanges(rs: seq<ParserModel.Record>, n: nat, es: seq<Exchange>)
    requires AllReadable(rs, n) && Answered(es)
  {
    forall tx: Path, rx: Path :: Counted(rs, n, tx, rx) == multiset(Answers(es))[(tx, rx)]
  }

  /** The summary of an answered log is its multiset of exchanges if and only if no stream
      ended strictly inside an edge: what reads back too long makes the packets longer
      in all than the log, so that no other packet can make up for it. */
  lemma SummaryOfLog(v: View, h: Path, es: seq<Exchange>)
    requires Faithful(v, h, es) && Answered(es)
    ensures AllReadable(v.records, |h|)
    ensures CountsExchanges(v.records, |h|, es) <==> Legible(h, es)
  {
    hide Faithful, AllReadable, LegibleAt, Read, Answer, Size, Counted;
    AllReadAs(v, h, es);
    var seen, answers := AllRead(v.records, |h|), Answers(es);
    forall tx: Path, rx: Path
      ensures Counted(v.records, |h|, tx, rx) == multiset(seen)[(tx, rx)]
    {
      CountedAsRead(v.records, |h|, tx, rx);
    }
    if Legible(h, es) {
      assert seen == answers;
    } else {
      var i :| 0 <= i < |es| && !LegibleAt(h, es, i);
      forall j | 0 <= j < |es|
        ensures Size(answers[j]) <= Size(seen[j])
      {
        assert LegibleAt(h, es, j) || !LegibleAt(h, es, j);
      }
      SumLess(answers, seen, Size, i);
      if CountsExchanges(v.records, |h|, es) {
        SamePairs(answers, seen);
        SumSame(answers, seen, Size);
      }
    }
  }

  lemma SamePairs(a: seq<(Path, Path)>, b: seq<(Path, Path)>)
    requires forall tx: Path, rx: Path :: multiset(a)[(tx, rx)] == multiset(b)[(tx, rx)]
    ensures multiset(a) == multiset(b)
  {
    forall p: (Path, Path)
      ensures multiset(a)[p] == multiset(b)[p]
    {
      assert p == (p.0, p.1);
    }
  }

  /** The packets of a header can be summarised at all if and only if every exchange was
      answered. */
  lemma ReadableWhenAnswered(v: View, h: Path, es: seq<Exchange>)
    requires Faithful(v, h, es)
    ensures AllReadable(v.records, |h|) <==> Answered(es)
  {
    hide Recorded, Run;
    forall i | 0 <= i < |es|
      ensures v.records[i].rx.None? <==> es[i].rx == []
    {
      assert Recorded(h, v.records[i], es, i);
      NoAnswer(h, v.records[i], es, i);
    }
    if Answered(es) {
      AllReadAs(v, h, es);
    } else {
      var i :| 0 <= i < |es| && es[i].rx == [];
      assert !Readable(v.records[i], |h|);
    }
  }

  lemma NoAnswer(h: Path, r: ParserModel.Record, es: seq<Exchange>, i: nat)
    requires i < |es| && Recorded(h, r, es, i)
    ensures r.rx.None? <==> es[i].rx == []
  {
    hide RunPaths, LocusOf, EndsWell;
    ReadBack(h, r, es, i);
  }
}
