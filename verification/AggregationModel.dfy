/** Counting equal exchanges, as functions on values: what the lists of `OutputTree.java`
    and `OutputPacket.java` hold. */
module AggregationModel {
  import opened Messages
  import opened Sums

  datatype Packet = Packet(tx: Message, rx: seq<Message>)

  /** The position of the message `text` in the list, or -1. */
  function IndexOf(ms: seq<Message>, text: string): (i: int)
    ensures -1 <= i < |ms|
    ensures i >= 0 ==> ms[i].text == text && forall j :: 0 <= j < i ==> ms[j].text != text
    ensures i < 0 ==> forall j :: 0 <= j < |ms| ==> ms[j].text != text
  {
    if ms == [] then -1
    else if ms[0].text == text then 0
    else
      var i := IndexOf(ms[1..], text);
      assert forall j :: 0 < j < |ms| ==> ms[j] == ms[1..][j - 1];
      if i < 0 then -1 else i + 1
  }

  function AddMessage(ms: seq<Message>, m: Message): (ms': seq<Message>) {
    var i := IndexOf(ms, m.text);
    if i < 0 then ms + [m] else ms[i := ms[i].(count := ms[i].count + m.count)]
  }

  function AddMessages(ms: seq<Message>, more: seq<Message>): (ms': seq<Message>) {
    if more == [] then ms else AddMessage(AddMessages(ms, more[..|more| - 1]), more[|more| - 1])
  }

  function IndexOfPacket(ps: seq<Packet>, text: string): (i: int)
    ensures -1 <= i < |ps|
    ensures i >= 0 ==> ps[i].tx.text == text && forall j :: 0 <= j < i ==> ps[j].tx.text != text
    ensures i < 0 ==> forall j :: 0 <= j < |ps| ==> ps[j].tx.text != text
  {
    if ps == [] then -1
    else if ps[0].tx.text == text then 0
    else
      var i := IndexOfPacket(ps[1..], text);
      assert forall j :: 0 < j < |ps| ==> ps[j] == ps[1..][j - 1];
      if i < 0 then -1 else i + 1
  }

  function Join(p: Packet, q: Packet): (r: Packet) {
    Packet(p.tx.(count := p.tx.count + q.tx.count), AddMessages(p.rx, q.rx))
  }

  function AddPacket(ps: seq<Packet>, p: Packet): (ps': seq<Packet>) {
    var i := IndexOfPacket(ps, p.tx.text);
    if i < 0 then ps + [p] else ps[i := Join(ps[i], p)]
  }

  // ---------------------------------------------------------------- what is counted

  ghost predicate Distinct(ms: seq<Message>) {
    forall i, j :: 0 <= i < j < |ms| ==> ms[i].text != ms[j].text
  }

  /** How often the message `text` has been counted. */
  function TimesSeen(ms: seq<Message>, text: string): (c: int) {
    var i := IndexOf(ms, text);
    if i < 0 then 0 else ms[i].count
  }

  /** A transmitted message with as many occurrences as it has received ones. */
  ghost predicate Balanced(p: Packet) {
    Distinct(p.rx) && p.tx.count == Sum(p.rx, CountOf)
  }

  lemma IndexOfIs(ms: seq<Message>, text: string, i: nat)
    requires Distinct(ms) && i < |ms| && ms[i].text == text
    ensures IndexOf(ms, text) == i
  {
  }

  lemma AddMessageSum(ms: seq<Message>, m: Message)
    ensures Sum(AddMessage(ms, m), CountOf) == Sum(ms, CountOf) + m.count
  {
    var i := IndexOf(ms, m.text);
    if i < 0 {
      SumSnoc(ms, m, CountOf);
    } else {
      SumUpdate(ms, CountOf, i, ms[i].(count := ms[i].count + m.count));
    }
  }

  lemma AddMessageDistinct(ms: seq<Message>, m: Message)
    requires Distinct(ms)
    ensures Distinct(AddMessage(ms, m))
  {
  }

  lemma AddMessageLaws(ms: seq<Message>, m: Message, text: string)
    requires Distinct(ms)
    ensures Distinct(AddMessage(ms, m))
    ensures Sum(AddMessage(ms, m), CountOf) == Sum(ms, CountOf) + m.count
    ensures TimesSeen(AddMessage(ms, m), text) == TimesSeen(ms, text) + (if text == m.text then m.count else 0)
  {
    hide Sum, Distinct;
    AddMessageSum(ms, m);
    AddMessageDistinct(ms, m);
    var ms' := AddMessage(ms, m);
    var i, k := IndexOf(ms, m.text), IndexOf(ms, text);
    if k >= 0 {
      IndexOfIs(ms', text, k);
    } else if text == m.text {
      IndexOfIs(ms', text, |ms|);
    }
  }

  lemma {:induction false} AddMessagesLaws(ms: seq<Message>, more: seq<Message>, text: string)
    requires Distinct(ms) && Distinct(more)
    ensures Distinct(AddMessages(ms, more))
    ensures Sum(AddMessages(ms, more), CountOf) == Sum(ms, CountOf) + Sum(more, CountOf)
    ensures TimesSeen(AddMessages(ms, more), text) == TimesSeen(ms, text) + TimesSeen(more, text)
  {
    hide AddMessage, Sum, TimesSeen, Distinct, AddMessages;
    if more == [] {
      NoMore(ms, text);
    } else {
      var init, m := more[..|more| - 1], more[|more| - 1];
      assert more == init + [m];
      InitDistinct(init, m);
      AddMessagesLaws(ms, init, text);
      AddMessageLaws(AddMessages(ms, init), m, text);
      AddMessageLaws(init, m, text);
      MoreStep(ms, init, m);
    }
  }

  lemma NoMore(ms: seq<Message>, text: string)
    ensures AddMessages(ms, []) == ms && Sum<Message>([], CountOf) == 0 && TimesSeen([], text) == 0
  {
  }

  lemma InitDistinct(init: seq<Message>, m: Message)
    requires Distinct(init + [m])
    ensures Distinct(init) && AddMessage(init, m) == init + [m]
  {
    var ms := init + [m];
    assert forall i :: 0 <= i < |init| ==> init[i] == ms[i];
    assert ms[|init|] == m;
    assert forall i :: 0 <= i < |init| ==> init[i].text != m.text;
  }

  lemma MoreStep(ms: seq<Message>, init: seq<Message>, m: Message)
    ensures AddMessages(ms, init + [m]) == AddMessage(AddMessages(ms, init), m)
  {
    assert (init + [m])[..|init|] == init;
  }

  // ---------------------------------------------------------------- whole trees

  ghost predicate GoodTree(ps: seq<Packet>) {
    && (forall i, j :: 0 <= i < j < |ps| ==> ps[i].tx.text != ps[j].tx.text)
    && (forall i :: 0 <= i < |ps| ==> Balanced(ps[i]))
  }

  function PairCount(ps: seq<Packet>, tx: string, rx: string): (c: int) {
    var i := IndexOfPacket(ps, tx);
    if i < 0 then 0 else TimesSeen(ps[i].rx, rx)
  }

  function TxCount(ps: seq<Packet>, tx: string): (c: int) {
    var i := IndexOfPacket(ps, tx);
    if i < 0 then 0 else ps[i].tx.count
  }

  function SentOf(p: Packet): int {
    p.tx.count
  }

  lemma JoinBalanced(p: Packet, q: Packet, rx: string)
    requires Balanced(p) && Balanced(q)
    ensures Balanced(Join(p, q))
    ensures TimesSeen(Join(p, q).rx, rx) == TimesSeen(p.rx, rx) + TimesSeen(q.rx, rx)
  {
    AddMessagesLaws(p.rx, q.rx, rx);
  }

  lemma IndexOfPacketIs(ps: seq<Packet>, text: string, i: nat)
    requires GoodTree(ps) && i < |ps| && ps[i].tx.text == text
    ensures IndexOfPacket(ps, text) == i
  {
  }

  lemma AddPacketLaws(ps: seq<Packet>, p: Packet, tx: string, rx: string)
    requires GoodTree(ps) && Balanced(p)
    ensures GoodTree(AddPacket(ps, p))
    ensures PairCount(AddPacket(ps, p), tx, rx) ==
      PairCount(ps, tx, rx) + (if tx == p.tx.text then TimesSeen(p.rx, rx) else 0)
    ensures TxCount(AddPacket(ps, p), tx) == TxCount(ps, tx) + (if tx == p.tx.text then p.tx.count else 0)
    ensures Sum(AddPacket(ps, p), SentOf) == Sum(ps, SentOf) + p.tx.count
  {
    hide Balanced, TimesSeen, AddMessages, IndexOfPacket;
    var ps' := AddPacket(ps, p);
    var i, k := IndexOfPacket(ps, p.tx.text), IndexOfPacket(ps, tx);
    if i < 0 {
      SumSnoc(ps, p, SentOf);
      if tx == p.tx.text {
        IndexOfPacketIs(ps', tx, |ps|);
      } else if k >= 0 {
        IndexOfPacketIs(ps', tx, k);
      }
    } else {
      JoinBalanced(ps[i], p, rx);
      SumUpdate(ps, SentOf, i, Join(ps[i], p));
      if k >= 0 {
        IndexOfPacketIs(ps', tx, k);
      }
    }
  }

  /** One recorded packet: both messages once. */
  function Single(tx: string, rx: string): (p: Packet) {
    Packet(Message(tx, 1), [Message(rx, 1)])
  }

  function Aggregate(pairs: seq<(string, string)>): (ps: seq<Packet>) {
    if pairs == [] then []
    else AddPacket(Aggregate(pairs[..|pairs| - 1]), Single(pairs[|pairs| - 1].0, pairs[|pairs| - 1].1))
  }

  function Sent(pairs: seq<(string, string)>, tx: string): (n: nat) {
    if pairs == [] then 0 else Sent(pairs[..|pairs| - 1], tx) + if pairs[|pairs| - 1].0 == tx then 1 else 0
  }

  /** The summary is the multiset of exchanges: each transmitted message stands once, each
      pair is counted as often as it occurred, each transmitted count is the sum of its
      received counts, and no packet is lost. */
  lemma {:induction false} AggregateCounts(pairs: seq<(string, string)>, tx: string, rx: string)
    ensures GoodTree(Aggregate(pairs))
    ensures PairCount(Aggregate(pairs), tx, rx) == multiset(pairs)[(tx, rx)]
    ensures TxCount(Aggregate(pairs), tx) == Sent(pairs, tx)
    ensures Sum(Aggregate(pairs), SentOf) == |pairs|
  {
    if pairs == [] {
    } else {
      var init, l := pairs[..|pairs| - 1], pairs[|pairs| - 1];
      assert pairs == init + [l];
      AggregateCounts(init, tx, rx);
      SingleBalanced(l.0, l.1, rx);
      AddPacketLaws(Aggregate(init), Single(l.0, l.1), tx, rx);
    }
  }

  lemma SingleBalanced(tx: string, rx: string, text: string)
    ensures Balanced(Single(tx, rx)) && TimesSeen(Single(tx, rx).rx, text) == if text == rx then 1 else 0
  {
    var ms := [Message(rx, 1)];
    assert ms[..0] == [];
  }
}
