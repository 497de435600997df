/** From the send queue of one node to the decoder of the next. */
module Wire {
  import opened Basics
  import opened Bytes
  import opened Frames
  import opened SsCodec
  import SendLoop

  /** The codec as the send loop uses it, under a packet limit. */
  function Encoder(max: nat): Outgoing -> seq<Byte> {
    o => Encoding(o, max)
  }

  /** Relays pass on frames they received; payloads are below the 4 GB a frame can hold. */
  predicate Sendable(o: Outgoing, max: nat) {
    match o
    case Plain(m) => Admitted(m, max) ==> |PayloadBytes(m)| < TWO32
    case Relay(frame) => Admissible(Strip(frame), max) && frame == Frame(Strip(frame))
    case Foreign => true
  }

  predicate AllSendable(os: seq<Outgoing>, max: nat) {
    forall i :: 0 <= i < |os| ==> Sendable(os[i], max)
  }

  /** The payload an item becomes on the wire, if it becomes anything. */
  function Carried(o: Outgoing, max: nat): seq<seq<Byte>> {
    match o
    case Plain(m) => if Admitted(m, max) then [PayloadBytes(m)] else []
    case Relay(frame) => [Strip(frame)]
    case Foreign => []
  }

  function Payloads(os: seq<Outgoing>, max: nat): seq<seq<Byte>> {
    if os == [] then [] else Payloads(os[..|os| - 1], max) + Carried(os[|os| - 1], max)
  }

  lemma StreamOfOne(p: seq<Byte>, max: nat)
    requires Admissible(p, max)
    ensures Stream([p], max) == Frame(p)
  {
    assert [p][1..] == [];
  }

  lemma CarriedStream(o: Outgoing, max: nat)
    requires Sendable(o, max)
    ensures AllAdmissible(Carried(o, max), max) && Stream(Carried(o, max), max) == Encoder(max)(o)
  {
    match o
    case Plain(m) =>
      if Admitted(m, max) {
        FramedSame(PayloadBytes(m));
        StreamOfOne(PayloadBytes(m), max);
      }
    case Relay(frame) => StreamOfOne(Strip(frame), max);
    case Foreign =>
  }

  lemma StreamJoin(ps: seq<seq<Byte>>, qs: seq<seq<Byte>>, max: nat)
    requires AllAdmissible(ps, max) && AllAdmissible(qs, max) && |qs| <= 1
    ensures AllAdmissible(ps + qs, max)
    ensures Stream(ps + qs, max) == Stream(ps, max) + Stream(qs, max)
  {
    if qs == [] {
      assert ps + qs == ps;
    } else {
      assert qs == [qs[0]];
      StreamOfOne(qs[0], max);
      StreamAppend(ps, qs[0], max);
    }
  }

  /** What the send loop writes is the stream of frames of the items it encodes. */
  lemma {:induction false} EncodedIsStream(os: seq<Outgoing>, max: nat)
    requires AllSendable(os, max)
    ensures AllAdmissible(Payloads(os, max), max)
    ensures SendLoop.Encoded(os, Encoder(max)) == Stream(Payloads(os, max), max)
    decreases |os|
  {
    if os != [] {
      var init, last := os[..|os| - 1], os[|os| - 1];
      EncodedIsStream(init, max);
      CarriedStream(last, max);
      StreamJoin(Payloads(init, max), Carried(last, max), max);
    }
  }

  lemma {:induction false} EncodedPrefix(os: seq<Outgoing>, more: seq<Outgoing>, max: nat)
    ensures SendLoop.Encoded(os, Encoder(max)) <= SendLoop.Encoded(os + more, Encoder(max))
    decreases |more|
  {
    if more == [] {
      assert os + more == os;
    } else {
      var init := more[..|more| - 1];
      EncodedPrefix(os, init, max);
      assert (os + more)[..|os + more| - 1] == os + init;
    }
  }

  /** Everything queued has been written, and the network delivers all of it. */
  predicate Undisturbed(s: SendLoop.Loop<Outgoing>, plan: seq<Chunk>) {
    s.up && s.queue == [] && Flows(plan, |s.wire|)
  }

  function Sent(acts: seq<SendLoop.Act<Outgoing>>, batch: nat, max: nat): SendLoop.Loop<Outgoing> {
    SendLoop.Run(SendLoop.Fresh(), acts, batch, Encoder(max))
  }

  /** For every run of the send loop with every batch size, every chunking by the network and every
      receive buffer: the receiver hands out a prefix of the payloads that were queued, in order.
      When the loop is running with an empty queue and reads keep coming, it hands out all. */
  method TransferExact(acts: seq<SendLoop.Act<Outgoing>>, batch: nat, plan: seq<Chunk>, capacity: nat, max: nat)
    returns (ps: seq<seq<Byte>>)
    requires AllSendable(SendLoop.Pushed(acts), max) && capacity >= HEAD_LEN
    ensures ps <= Payloads(SendLoop.Pushed(acts), max)
    ensures Undisturbed(Sent(acts, batch, max), plan) ==> ps == Payloads(SendLoop.Pushed(acts), max)
  {
    var s := Sent(acts, batch, max);
    ghost var pushed := SendLoop.Pushed(acts);
    SendLoop.RunExact(acts, batch, Encoder(max));
    EncodedIsStream(pushed, max);
    EncodedPrefix(s.taken, s.queue, max);
    var last;
    ps, last := ReceiveExact(s.wire, plan, capacity, max, Payloads(pushed, max));
  }

  /** A frame that was received can be relayed. */
  lemma RelaySendable(p: seq<Byte>, max: nat)
    requires Admissible(p, max)
    ensures Sendable(Relay(Framed(p)), max)
  {
    FramedSame(p);
    StripFrame(p);
  }

  // ---- Decoding at the receiver ----

  /** A message this node sends itself, or one whose frame it passes on. */
  datatype Item = Own(message: Message) | Passed(message: Message)

  predicate ItemOk(i: Item, max: nat, reg: Registry) {
    && Registered(i.message, reg)
    && (Admitted(i.message, max) ==> Survives(i.message) && |PayloadBytes(i.message)| < TWO32)
    && (i.Passed? ==> Admitted(i.message, max))
  }

  predicate ItemsOk(items: seq<Item>, max: nat, reg: Registry) {
    forall i :: 0 <= i < |items| ==> ItemOk(items[i], max, reg)
  }

  /** What is put on the queue for an item. */
  function Queued(i: Item, max: nat): Outgoing {
    match i
    case Own(m) => Plain(m)
    case Passed(m) => Relay(Encoding(Plain(m), max))
  }

  function AllQueued(items: seq<Item>, max: nat): seq<Outgoing> {
    if items == [] then [] else AllQueued(items[..|items| - 1], max) + [Queued(items[|items| - 1], max)]
  }

  /** What node `self` should make of a message: deliver it when it is the target, otherwise
      pass the sender's frame on. */
  function Expected(m: Message, self: LogicAddr): Incoming
    requires ContentBytes(m).Some?
  {
    if m.to == self then Seen(m) else Relayed(m.to, m.from, Framed(PayloadBytes(m)))
  }

  function AllExpected(items: seq<Item>, self: LogicAddr, max: nat): seq<Incoming> {
    if items == [] then []
    else
      var m := items[|items| - 1].message;
      AllExpected(items[..|items| - 1], self, max) + (if Admitted(m, max) then [Expected(m, self)] else [])
  }

  function Decoded(ps: seq<seq<Byte>>, self: LogicAddr, reg: Registry): (r: seq<Incoming>)
    ensures |r| == |ps| && forall i :: 0 <= i < |ps| ==> r[i] == Decoding(self, reg, ps[i], ps[i])
  {
    if ps == [] then []
    else Decoded(ps[..|ps| - 1], self, reg) + [Decoding(self, reg, ps[|ps| - 1], ps[|ps| - 1])]
  }

  lemma ExpectedExact(m: Message, self: LogicAddr, max: nat, reg: Registry)
    requires Admitted(m, max) && Registered(m, reg) && Survives(m) && |PayloadBytes(m)| < TWO32
    ensures Decoding(self, reg, PayloadBytes(m), PayloadBytes(m)) == Expected(m, self)
  {
    if m.to == self {
      AdmittedExact(m, max, reg);
    } else {
      ExpectedAway(m, self, max, reg);
    }
  }

  lemma ExpectedAway(m: Message, self: LogicAddr, max: nat, reg: Registry)
    requires Admitted(m, max) && m.to != self && |PayloadBytes(m)| < TWO32
    ensures Decoding(self, reg, PayloadBytes(m), PayloadBytes(m)) == Relayed(m.to, m.from, Framed(PayloadBytes(m)))
  {
    var content := ContentBytes(m).value;
    HeaderBack(m, content);
    PassedOn(PayloadBytes(m), Header(Flag(m.payload), m.to, m.from, content), self, reg);
    FramedSame(PayloadBytes(m));
  }

  /** Own or passed on, an item travels as the payload of its message. */
  lemma ItemCarried(i: Item, max: nat, reg: Registry)
    requires ItemOk(i, max, reg)
    ensures Sendable(Queued(i, max), max)
    ensures Carried(Queued(i, max), max) == if Admitted(i.message, max) then [PayloadBytes(i.message)] else []
  {
    if i.Passed? {
      FramedSame(PayloadBytes(i.message));
      StripFrame(PayloadBytes(i.message));
    }
  }

  lemma DecodedAppend(ps: seq<seq<Byte>>, p: seq<Byte>, self: LogicAddr, reg: Registry)
    ensures Decoded(ps + [p], self, reg) == Decoded(ps, self, reg) + [Decoding(self, reg, p, p)]
  {
    assert (ps + [p])[..|ps|] == ps;
  }

  lemma PayloadsAppend(os: seq<Outgoing>, o: Outgoing, max: nat)
    ensures Payloads(os + [o], max) == Payloads(os, max) + Carried(o, max)
  {
    assert (os + [o])[..|os|] == os;
  }

  /** One more item: its payload, if it is admitted, is decoded as expected. */
  lemma ItemDecoded(before: seq<seq<Byte>>, i: Item, self: LogicAddr, max: nat, reg: Registry)
    requires ItemOk(i, max, reg)
    ensures Decoded(before + Carried(Queued(i, max), max), self, reg)
            == Decoded(before, self, reg) + if Admitted(i.message, max) then [Expected(i.message, self)] else []
  {
    ItemCarried(i, max, reg);
    if Admitted(i.message, max) {
      DecodedAppend(before, PayloadBytes(i.message), self, reg);
      ExpectedExact(i.message, self, max, reg);
    } else {
      assert before + [] == before;
      assert Decoded(before, self, reg) + [] == Decoded(before, self, reg);
    }
  }

  lemma {:induction false} QueuedSendable(items: seq<Item>, max: nat, reg: Registry)
    requires ItemsOk(items, max, reg)
    ensures AllSendable(AllQueued(items, max), max)
    decreases |items|
  {
    if items != [] {
      QueuedSendable(items[..|items| - 1], max, reg);
      ItemCarried(items[|items| - 1], max, reg);
    }
  }

  /** The items a node queued, decoded by the node at the other end: the admitted ones in order,
      each with its sender, type and fields, or its very frame when it goes further. */
  lemma {:induction false} DecodedExact(items: seq<Item>, self: LogicAddr, max: nat, reg: Registry)
    requires ItemsOk(items, max, reg)
    ensures Decoded(Payloads(AllQueued(items, max), max), self, reg) == AllExpected(items, self, max)
    decreases |items|
  {
    if items != [] {
      var init, i := items[..|items| - 1], items[|items| - 1];
      DecodedExact(init, self, max, reg);
      PayloadsAppend(AllQueued(init, max), Queued(i, max), max);
      ItemDecoded(Payloads(AllQueued(init, max), max), i, self, max, reg);
    }
  }

  lemma PrefixDecoded(ps: seq<seq<Byte>>, all: seq<seq<Byte>>, max: nat, self: LogicAddr, reg: Registry)
    requires ps <= all && AllAdmissible(all, max)
    ensures forall i :: 0 <= i < |ps| ==> ps[i] != []
    ensures Decoded(ps, self, reg) <= Decoded(all, self, reg)
  {
    forall i | 0 <= i < |ps| ensures ps[i] == all[i] && ps[i] != [] {
      assert Admissible(all[i], max);
    }
  }

  /** Decodes payloads one after the other with one codec object. */
  method DecodeAll(codec: Codec, ps: seq<seq<Byte>>) returns (ins: seq<Incoming>)
    requires forall i :: 0 <= i < |ps| ==> ps[i] != []
    modifies codec.reader
    ensures ins == Decoded(ps, codec.selfAddr, codec.registry)
  {
    ins := [];
    for i := 0 to |ps|
      invariant ins == Decoded(ps[..i], codec.selfAddr, codec.registry)
    {
      assert ps[..i + 1] == ps[..i] + [ps[i]];
      DecodedAppend(ps[..i], ps[i], codec.selfAddr, codec.registry);
      var r := codec.Decode(ps[i]);
      ins := ins + [r];
    }
    assert ps[..|ps|] == ps;
  }

  /** The whole path: for every run of the send loop, every batch size, every chunking, every
      buffer and every packet limit, node `self` makes of what another node queued, its own messages
      and frames it passes on, a prefix of exactly what it should, in order; and all of it when the
      queue is empty and reads keep coming. */
  method DeliveryExact(items: seq<Item>, acts: seq<SendLoop.Act<Outgoing>>, batch: nat, plan: seq<Chunk>,
                       capacity: nat, max: nat, self: LogicAddr, reg: Registry) returns (ins: seq<Incoming>)
    requires ItemsOk(items, max, reg) && SendLoop.Pushed(acts) == AllQueued(items, max) && capacity >= HEAD_LEN
    ensures ins <= AllExpected(items, self, max)
    ensures Undisturbed(Sent(acts, batch, max), plan) ==> ins == AllExpected(items, self, max)
  {
    QueuedSendable(items, max, reg);
    DecodedExact(items, self, max, reg);
    EncodedIsStream(AllQueued(items, max), max);
    var ps := TransferExact(acts, batch, plan, capacity, max);
    var codec := new Codec(self, reg);
    PrefixDecoded(ps, Payloads(AllQueued(items, max), max), max, self, reg);
    ins := DecodeAll(codec, ps);
  }
}
