/** The parser of a log, after `Parser.java`: one tree of packets for each header. */
module LineParser {
  import opened Bytes
  import opened Wrappers
  import opened PacketTree
  import opened ParserModel

  class Parser {
    const headerLength: nat
    var packets: map<Path, Tree>
    var lastProcessedPacket: Option<Path>
    var ac: int

    /** What the trees hold, read as values. */
    ghost var trees: map<Path, View>

    /** All objects of all trees. */
    ghost var Repr: set<object>

    ghost predicate Valid()
      reads this`packets, this`trees, this`Repr, Repr
    {
      && this !in Repr && trees.Keys == packets.Keys
      && (forall h :: h in packets ==> Holds(h))
      && (forall h, k {:trigger Apart(h, k)} :: h in packets && k in packets && h != k ==> Apart(h, k))
    }

    ghost predicate Apart(h: Path, k: Path)
      requires h in packets && k in packets
      reads this`packets, packets[h], packets[k]
    {
      packets[h].Repr() !! packets[k].Repr()
    }

    /** The tree of the header `h` is in order. */
    ghost predicate Holds(h: Path)
      requires h in packets && h in trees
      reads this`packets, this`trees, this`Repr, Repr
    {
      var t := packets[h];
      t in Repr && t in t.Repr() && t.Repr() <= Repr && t.Valid() && t.header == h && t.View() == trees[h]
    }

    ghost function Abs(): State
      reads this`trees, this`lastProcessedPacket, this`ac
    {
      State(trees, lastProcessedPacket, ac)
    }

    constructor (headerLength: nat)
      ensures Valid() && Repr == {} && this.headerLength == headerLength
      ensures Abs() == EMPTY
    {
      this.headerLength := headerLength;
      packets, lastProcessedPacket, ac := map[], None, 1;
      trees, Repr := map[], {};
    }

    method MergeInto(h: Path, stream: seq<Byte>) returns (ok: bool)
      requires Valid() && h in packets
      modifies packets[h].Repr(), this`trees, this`Repr
      ensures Valid() && fresh(Repr - old(Repr))
      ensures Ok(old(trees)[h]) && trees == old(trees)[h := MergeView(old(trees)[h], stream)]
      ensures ok <==> stream != []
    {
      hide Tree.Valid, Tree.View, Tree.Repr, MergeView;
      assert Holds(h);
      var tree := packets[h];
      tree.ViewOk();
      ok := tree.Merge(stream);
      trees, Repr := trees[h := MergeView(trees[h], stream)], Repr + tree.Repr();
      tree.ViewOk();
      KeepOthers(h);
    }

    method ReceiveInto(h: Path, stream: seq<Byte>) returns (ok: bool)
      requires Valid() && h in packets
      modifies packets[h].Repr(), this`trees, this`Repr
      ensures Valid() && fresh(Repr - old(Repr))
      ensures Ok(old(trees)[h]) && trees == old(trees)[h := ReceiveView(old(trees)[h], stream)]
      ensures ok <==> stream != []
    {
      hide Tree.Valid, Tree.View, Tree.Repr, ReceiveView;
      assert Holds(h);
      var tree := packets[h];
      tree.ViewOk();
      ok := tree.AddReceivedData(stream);
      trees, Repr := trees[h := ReceiveView(trees[h], stream)], Repr + tree.Repr();
      tree.ViewOk();
      KeepOthers(h);
    }

    twostate lemma KeepOthers(h: Path)
      requires old(Valid()) && h in packets && packets == old(packets)
      requires Repr == old(Repr) + packets[h].Repr() && trees.Keys == packets.Keys && Holds(h)
      requires forall k :: k in packets && k != h ==> trees[k] == old(trees[k])
      requires this !in Repr && unchanged(old(Repr) - old(packets[h].Repr()))
      requires fresh(packets[h].Repr() - old(packets[h].Repr()))
      ensures Valid()
    {
      hide Tree.Valid, Tree.View, Tree.Repr;
      forall k | k in packets && k != h
        ensures Holds(k) && packets[k].Repr() == old(packets[k].Repr())
      {
        assert old(Holds(k)) && old(Apart(h, k));
      }
      forall k, l | k in packets && l in packets && k != l
        ensures Apart(k, l)
      {
        assert old(Apart(k, l)) && old(Holds(k)) && old(Holds(l));
      }
    }

    method SetTimeIn(h: Path, time: int)
      requires Valid() && h in packets
      modifies packets[h].Repr(), this`trees, this`Repr
      ensures Valid() && fresh(Repr - old(Repr))
      ensures Ok(old(trees)[h]) && trees == old(trees)[h := TimeView(old(trees)[h], time, ac)]
    {
      hide Tree.Valid, Tree.View, Tree.Repr, TimeView;
      assert Holds(h);
      var tree := packets[h];
      tree.ViewOk();
      tree.LastOwned();
      tree.SetAdditionalInfoForLastPacket(time, ac);
      trees, Repr := trees[h := TimeView(trees[h], time, ac)], Repr + tree.Repr();
      tree.ViewOk();
      KeepOthers(h);
    }

    method AddTree(h: Path, stream: seq<Byte>)
      requires Valid() && h !in packets && stream != []
      modifies this`packets, this`trees, this`Repr
      ensures Valid() && fresh(Repr - old(Repr))
      ensures trees == old(trees)[h := NewView(h, stream)]
    {
      hide Tree.Valid, Tree.View, Tree.Repr, NewView;
      var tree := new Tree(h, stream);
      packets := packets[h := tree];
      trees, Repr := trees[h := NewView(h, stream)], Repr + tree.Repr();
      tree.ViewOk();
      forall k | k in packets && k != h
        ensures Holds(k) && packets[k].Repr() == old(packets[k].Repr())
      {
        assert old(Holds(k));
      }
      forall k, l | k in packets && l in packets && k != l
        ensures Apart(k, l)
      {
        assert k != h && l != h ==> old(Apart(k, l));
      }
    }

    /** Finds or plants the tree of `header` and merges the stream. */
    method Store(header: Path, stream: seq<Byte>) returns (ok: bool)
      requires Valid()
      modifies this`packets, this`trees, this`Repr, Repr
      ensures Valid() && fresh(Repr - old(Repr))
      ensures ok <==> stream != []
      ensures header in old(trees) ==> Ok(old(trees)[header])
      ensures trees == StoreIn(old(trees), header, stream)
    {
      hide Tree.Repr, Valid, MergeView, NewView;
      AbsGood();
      if header in packets {
        ok := MergeInto(header, stream);
      } else {
        ok := stream != [];
        if ok {
          AddTree(header, stream);
        }
      }
    }

    /** A transmitted line. Not `ok` stands for an exception: a line shorter than the
        header, or with nothing after it. */
    method HandleTransmittedData(data: seq<Byte>) returns (ok: bool)
      requires Valid()
      modifies this, Repr
      ensures Valid() && fresh(Repr - old(Repr))
      ensures Good(old(Abs())) && Outcome(Abs(), ok) == StepTransmitted(old(Abs()), headerLength, data)
    {
      hide Tree.Repr, Valid, StoreIn, Good;
      AbsGood();
      ok := false;
      if |data| >= headerLength {
        var header, packetData := data[..headerLength], data[headerLength..];
        ok := Store(header, packetData);
        if ok {
          lastProcessedPacket := Some(header);
        }
      }
    }

    method HandleReceivedData(data: seq<Byte>) returns (ok: bool)
      requires Valid()
      modifies this, Repr
      ensures Valid() && fresh(Repr - old(Repr))
      ensures Good(old(Abs())) && Outcome(Abs(), ok) == StepReceived(old(Abs()), data)
    {
      hide Tree.Repr, Valid, ReceiveView, Good;
      AbsGood();
      ok := true;
      if lastProcessedPacket.Some? && lastProcessedPacket.value in packets {
        ok := ReceiveInto(lastProcessedPacket.value, data);
      }
    }

    /** `time` is the number in the line, if it is one. The counter moves on before the
        missing tree is noticed. */
    method HandleResponseTime(time: Option<int>) returns (ok: bool)
      requires Valid()
      modifies this, Repr
      ensures Valid() && fresh(Repr - old(Repr))
      ensures Good(old(Abs())) && Outcome(Abs(), ok) == StepTime(old(Abs()), time)
      ensures ac == old(ac) + if time.Some? then 1 else 0
    {
      hide Tree.Repr, Valid, TimeView, Good;
      AbsGood();
      ok := false;
      if time.Some? {
        if lastProcessedPacket.Some? && lastProcessedPacket.value in packets {
          SetTimeIn(lastProcessedPacket.value, time.value);
          ok := true;
        }
        ac := ac + 1;
      }
    }

    /** A whole file: line after line, until one throws. */
    method ParseLines(lines: seq<Line>) returns (ok: bool)
      requires Valid()
      modifies this, Repr
      ensures Valid() && fresh(Repr - old(Repr))
      ensures Good(old(Abs())) && Outcome(Abs(), ok) == Replay(old(Abs()), headerLength, lines)
    {
      hide Tree.Repr, Valid, Abs, StepTransmitted, StepReceived, StepTime, Good;
      AbsGood();
      ok := true;
      var i := 0;
      while i < |lines| && ok
        invariant 0 <= i <= |lines| && Valid() && fresh(Repr - old(Repr)) && Good(Abs())
        invariant Replay(old(Abs()), headerLength, lines) ==
          if ok then Replay(Abs(), headerLength, lines[i..]) else Outcome(Abs(), false)
      {
        match lines[i] {
          case Transmitted(data) => ok := HandleTransmittedData(data);
          case Received(data) => ok := HandleReceivedData(data);
          case ResponseTime(time) => ok := HandleResponseTime(time);
        }
        AbsGood();
        i := i + 1;
      }
    }

    lemma AbsGood()
      requires Valid()
      ensures this !in Repr && Good(Abs()) && trees.Keys == packets.Keys
      ensures forall h :: h in packets ==> packets[h].Repr() <= Repr
    {
      forall h | h in packets
        ensures Ok(trees[h]) && trees[h].header == h && packets[h].Repr() <= Repr
      {
        assert Holds(h);
        packets[h].ViewOk();
      }
    }
  }
}
