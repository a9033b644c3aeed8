/** The summary of a tree of packets, after `OutputMessage.java`, `OutputPacket.java`,
    `OutputTree.java` and `prepareAnalyzedPackets` of `Writer.java`. */
module Aggregation {
  import opened Messages
  import opened AggregationModel

  class OutputMessage {
    const message: string
    var count: Count

    constructor (message: string)
      ensures this.message == message && count == 1
    {
      this.message := message;
      count := 1;
    }

    method IncreaseCount(amount: Count)
      modifies this`count
      ensures count == old(count) + amount
    {
      count := count + amount;
    }
  }

  class OutputPacket {
    const transmittedMessage: OutputMessage
    var receivedMessages: seq<OutputMessage>

    /** The received messages as values. */
    ghost var rx: seq<Message>

    ghost function Repr(): (r: set<object>)
      reads this
      ensures this in r && transmittedMessage in r
    {
      {this, transmittedMessage} + set m | m in receivedMessages
    }

    ghost predicate Valid()
      reads this, Repr()
    {
      && transmittedMessage !in receivedMessages
      && Lists(receivedMessages, rx)
    }

    ghost function View(): Packet
      reads this, Repr()
    {
      Packet(Message(transmittedMessage.message, transmittedMessage.count), rx)
    }

    constructor (transmittedMessage: OutputMessage)
      ensures Valid() && this.transmittedMessage == transmittedMessage && receivedMessages == []
    {
      this.transmittedMessage := transmittedMessage;
      receivedMessages, rx := [], [];
    }

    /** `indexOf`, by the text of the message. */
    method Find(text: string) returns (index: int)
      requires Valid()
      ensures index == IndexOf(rx, text)
    {
      index := 0;
      while index < |receivedMessages|
        invariant 0 <= index <= |receivedMessages|
        invariant forall j :: 0 <= j < index ==> rx[j].text != text
      {
        if receivedMessages[index].message == text {
          return;
        }
        index := index + 1;
      }
      index := -1;
    }

    method AddReceivedMessage(msg: OutputMessage)
      requires Valid() && msg != transmittedMessage && msg !in receivedMessages
      modifies this, receivedMessages
      ensures Valid() && rx == AddMessage(old(rx), Message(msg.message, msg.count))
      ensures old(receivedMessages) <= receivedMessages <= old(receivedMessages) + [msg]
      ensures transmittedMessage.count == old(transmittedMessage.count)
    {
      var index := Find(msg.message);
      if index == -1 {
        receivedMessages := receivedMessages + [msg];
        rx := rx + [Message(msg.message, msg.count)];
        return;
      }
      receivedMessages[index].IncreaseCount(msg.count);
      rx := rx[index := rx[index].(count := rx[index].count + msg.count)];
    }

    /** Adds the messages of another packet, one by one. Where this packet does not have a
        message yet, it takes the object itself over. */
    method AddReceivedMessages(msgs: seq<OutputMessage>, ghost values: seq<Message>)
      requires Valid() && Lists(msgs, values)
      requires forall j :: 0 <= j < |msgs| ==> msgs[j] != transmittedMessage && msgs[j] !in receivedMessages
      modifies this, receivedMessages, msgs
      ensures Valid() && rx == AddMessages(old(rx), values)
      ensures forall m :: m in receivedMessages ==> m in old(receivedMessages) || m in msgs
      ensures transmittedMessage.count == old(transmittedMessage.count)
    {
      hide AddMessage, AddMessages;
      AddNone(rx);
      assert values[..0] == [];
      var i := 0;
      while i < |msgs|
        invariant 0 <= i <= |msgs| && Valid() && rx == AddMessages(old(rx), values[..i])
        invariant forall j :: 0 <= j < |receivedMessages| ==>
          receivedMessages[j] in old(receivedMessages) || receivedMessages[j] in msgs
        invariant transmittedMessage.count == old(transmittedMessage.count)
        invariant forall j :: i <= j < |msgs| ==> msgs[j] !in receivedMessages && msgs[j].count == old(msgs[j].count)
      {
        assert values[i] == Message(msgs[i].message, msgs[i].count);
        AddStep(old(rx), values, i);
        AddReceivedMessage(msgs[i]);
        i := i + 1;
      }
      assert values[..i] == values;
    }

    /** The counts and the received messages of another packet come on top. */
    method Absorb(packet: OutputPacket)
      requires Valid() && packet.Valid() && Repr() !! packet.Repr()
      modifies Repr(), packet.Repr()
      ensures Valid() && Repr() <= old(Repr()) + old(packet.Repr())
      ensures View() == Join(old(View()), old(packet.View()))
    {
      hide AddMessages;
      Members(this, Repr());
      Members(packet, packet.Repr());
      transmittedMessage.IncreaseCount(packet.transmittedMessage.count);
      AddReceivedMessages(packet.receivedMessages, packet.rx);
    }
  }

  lemma Members(p: OutputPacket, S: set<object>)
    requires p.Repr() <= S
    ensures p in S && p.transmittedMessage in S
    ensures forall i :: 0 <= i < |p.receivedMessages| ==> p.receivedMessages[i] in S
  {
    forall i | 0 <= i < |p.receivedMessages|
      ensures p.receivedMessages[i] in S
    {
      assert p.receivedMessages[i] in p.receivedMessages;
      assert p.receivedMessages[i] in p.Repr();
    }
  }

  class OutputTree {
    const header: string
    var packets: seq<OutputPacket>

    /** The packets as values. */
    ghost var view: seq<AggregationModel.Packet>
    ghost var Repr: set<object>

    ghost predicate Valid()
      reads this, Repr
    {
      && this in Repr
      && (forall i :: 0 <= i < |packets| ==> Owns(packets[i]))
      && (forall i, j :: 0 <= i < j < |packets| ==> packets[i].Repr() !! packets[j].Repr())
      && |view| == |packets| && (forall i :: 0 <= i < |packets| ==> view[i] == packets[i].View())
    }

    ghost predicate Owns(p: OutputPacket)
      reads this, Repr
    {
      p in Repr && p.Repr() <= Repr - {this} && p.Valid()
    }

    constructor (header: string)
      ensures Valid() && fresh(Repr) && this.header == header && view == []
    {
      this.header := header;
      packets, view := [], [];
      Repr := {this};
    }

    /** `indexOf`, by the transmitted message. */
    method Find(text: string) returns (index: int)
      requires Valid()
      ensures index == IndexOfPacket(view, text)
    {
      hide AggregationModel.IndexOf;
      index := 0;
      while index < |packets|
        invariant 0 <= index <= |packets|
        invariant forall j :: 0 <= j < index ==> view[j].tx.text != text
      {
        if packets[index].transmittedMessage.message == text {
          return;
        }
        index := index + 1;
      }
      index := -1;
    }

    method AddPacket(packet: OutputPacket)
      requires Valid() && packet.Valid() && packet.Repr() !! Repr
      modifies Repr, packet.Repr()
      ensures Valid() && Repr == old(Repr) + old(packet.Repr())
      ensures view == AggregationModel.AddPacket(old(view), old(packet.View()))
    {
      var index := Find(packet.transmittedMessage.message);
      if index == -1 {
        Append(packet);
      } else {
        AbsorbAt(index, packet);
      }
    }

    method Append(packet: OutputPacket)
      requires Valid() && packet.Valid() && packet.Repr() !! Repr
      modifies this
      ensures Valid() && Repr == old(Repr) + packet.Repr()
      ensures view == old(view) + [packet.View()]
    {
      hide OutputPacket.Valid, OutputPacket.View, OutputPacket.Repr;
      Repr := Repr + packet.Repr();
      packets := packets + [packet];
      view := view + [packet.View()];
    }

    method AbsorbAt(index: int, packet: OutputPacket)
      requires Valid() && packet.Valid() && packet.Repr() !! Repr && 0 <= index < |packets|
      modifies Repr, packet.Repr()
      ensures Valid() && Repr == old(Repr) + old(packet.Repr())
      ensures view == old(view)[index := Join(old(view)[index], old(packet.View()))]
    {
      hide OutputPacket.Valid, OutputPacket.View, OutputPacket.Repr, Join;
      Repr := Repr + packet.Repr();
      packets[index].Absorb(packet);
      view := view[index := packets[index].View()];
    }
  }

  lemma AddNone(ms: seq<Message>)
    ensures AddMessages(ms, []) == ms
  {
  }

  lemma AddStep(ms: seq<Message>, more: seq<Message>, i: nat)
    requires i < |more|
    ensures AddMessages(ms, more[..i + 1]) == AddMessage(AddMessages(ms, more[..i]), more[i])
  {
    assert more[..i + 1] == more[..i] + [more[i]];
    MoreStep(ms, more[..i], more[i]);
  }

  /** Separate messages with the values `vs`. */
  ghost predicate Lists(ms: seq<OutputMessage>, vs: seq<Message>)
    reads ms
  {
    && |vs| == |ms|
    && (forall i, j :: 0 <= i < j < |ms| ==> ms[i] != ms[j])
    && (forall i :: 0 <= i < |vs| ==> vs[i] == Message(ms[i].message, ms[i].count))
  }
}
