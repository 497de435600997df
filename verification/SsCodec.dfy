/** The node-to-node codec: headers, length patching, roll-back, decoding at the target and
    relaying elsewhere. */
module SsCodec {
  import opened Basics
  import Addr
  import opened Bytes
  import opened Frames
  import opened RpcCodec

  /** The default of the packet limit, which programs may change. */
  const MAX_PACKET := 4096
  const MIN_SIZE := 13

  const PB_MSG: Byte := 1
  const BIN_MSG: Byte := 2
  const RPC_REQ: Byte := 3
  const RPC_RESP: Byte := 4

  type LogicAddr = Addr.LogicAddr
  type Uint16 = v: int | 0 <= v < TWO16

  // ---- Entities ----

  /** A protobuf message as its registry marshals it, or one the registry refuses. */
  datatype Proto = Known(id: nat, body: seq<Byte>) | Unknown

  datatype Payload = Bin(data: seq<Byte>) | Pb(proto: Proto) | Call(request: Request) | Answer(response: Response) | Other

  datatype Message = Message(cmd: Uint16, to: LogicAddr, from: LogicAddr, payload: Payload)

  /** What can be put on a socket. */
  datatype Outgoing = Plain(message: Message) | Relay(frame: seq<Byte>) | Foreign

  datatype Content =
    | BinIn(data: seq<Byte>)
    | PbIn(id: nat, body: seq<Byte>)
    | CallIn(request: RequestIn)
    | AnswerIn(response: ResponseIn)

  /** What decoding a payload yields: a message for this node, a frame to pass on, or an error. */
  datatype Incoming =
    | Delivered(to: LogicAddr, from: LogicAddr, cmd: nat, content: Content)
    | Relayed(to: LogicAddr, from: LogicAddr, frame: seq<Byte>)
    | BadPacket

  /** The protobuf registry: known ids, and which non-empty bodies parse under an id. */
  datatype Registry = Registry(ids: set<nat>, parses: (nat, seq<Byte>) -> bool)

  predicate Unmarshals(reg: Registry, id: nat, body: seq<Byte>) {
    id in reg.ids && (body == [] || reg.parses(id, body))
  }

  // ---- Encoding ----

  function MsgType(flag: Byte): Byte { flag % 8 }

  function Flag(p: Payload): Byte {
    match p
    case Bin(_) => BIN_MSG
    case Pb(_) => PB_MSG
    case Call(_) => RPC_REQ
    case Answer(_) => RPC_RESP
    case Other => 0
  }

  /** The bytes behind the header, for payloads that can be encoded. */
  function ContentBytes(m: Message): Option<seq<Byte>> {
    match m.payload
    case Bin(data) => if data == [] then None else Some(U16(m.cmd) + data)
    case Pb(proto) => if proto.Unknown? then None else Some(U16(Wrap16(proto.id)) + proto.body)
    case Call(q) => if q.arg.Refused? then None else Some(RequestBytes(q))
    case Answer(p) => if p.ret.Refused? then None else Some(ResponseBytes(p))
    case Other => None
  }

  function HeaderBytes(m: Message): (s: seq<Byte>)
    ensures |s| == 9
  {
    [Flag(m.payload)] + U32(m.to) + U32(m.from)
  }

  /** The payload of the frame that carries a message. */
  function PayloadBytes(m: Message): seq<Byte>
    requires ContentBytes(m).Some?
  {
    HeaderBytes(m) + ContentBytes(m).value
  }

  /** The messages the codec puts on the wire at all, under a packet limit. */
  predicate Admitted(m: Message, max: nat) {
    ContentBytes(m).Some? && HEAD_LEN + |PayloadBytes(m)| <= max
  }

  /** A payload behind its length, which is converted to 32 bits. */
  function Framed(payload: seq<Byte>): seq<Byte> {
    U32(Wrap32(|payload|)) + payload
  }

  /** What the codec appends to the send buffer. */
  function Encoding(o: Outgoing, max: nat): seq<Byte> {
    match o
    case Plain(m) => if Admitted(m, max) then Framed(PayloadBytes(m)) else []
    case Relay(frame) => frame
    case Foreign => []
  }

  method AppendHeader(dst: seq<Byte>, m: Message, flag: Byte) returns (out: seq<Byte>, mark: nat)
    ensures mark == |dst| && out == dst + [0, 0, 0, 0] + ([flag] + U32(m.to) + U32(m.from))
  {
    mark := |dst|;
    out := dst + [0, 0, 0, 0];
    out := out + [flag];
    out := out + U32(m.to);
    out := out + U32(m.from);
  }

  /** Patches the length, or takes an oversized frame back. */
  method FinalizeFrame(dst: seq<Byte>, mark: nat, max: nat) returns (out: seq<Byte>, n: nat)
    requires mark + HEAD_LEN <= |dst|
    ensures var body := dst[mark + HEAD_LEN..];
            if HEAD_LEN + |body| <= max then out == dst[..mark] + Framed(body) && n == HEAD_LEN + |body|
            else out == dst[..mark] && n == 0
  {
    var totalLen := |dst| - mark;
    if totalLen > max {
      return dst[..mark], 0;
    }
    out := dst[..mark] + U32(Wrap32(totalLen - HEAD_LEN)) + dst[mark + HEAD_LEN..];
    n := totalLen;
  }

  lemma Assembled(dst: seq<Byte>, hole: seq<Byte>, header: seq<Byte>, content: seq<Byte>)
    ensures (dst + hole + header + content)[..|dst|] == dst
    ensures (dst + hole + header + content)[|dst| + |hole|..] == header + content
  {
    assert dst + hole + header + content == dst + hole + (header + content);
    assert dst + hole + (header + content) == dst + (hole + (header + content));
  }

  /** Finishes a frame whose header and content have been appended. */
  method Finish(dst: seq<Byte>, m: Message, whole: seq<Byte>, mark: nat, max: nat) returns (out: seq<Byte>, n: nat)
    requires ContentBytes(m).Some? && mark == |dst|
    requires whole == dst + [0, 0, 0, 0] + HeaderBytes(m) + ContentBytes(m).value
    ensures out == dst + Encoding(Plain(m), max) && n == |Encoding(Plain(m), max)|
  {
    Assembled(dst, [0, 0, 0, 0], HeaderBytes(m), ContentBytes(m).value);
    out, n := FinalizeFrame(whole, mark, max);
  }

  /** What encoding leaves of the message object: overlong user data is cut in place. */
  function Trimmed(m: Message): Message {
    match m.payload
    case Call(q) => m.(payload := Call(q.(userData := Cut(q.userData))))
    case Answer(p) => m.(payload := Answer(p.(userData := Cut(p.userData))))
    case Bin(_) => m
    case Pb(_) => m
    case Other => m
  }

  /** Encodes a message into the send buffer. A message that cannot be encoded or is too large
      leaves the buffer as it was. */
  method EncodeMessage(dst: seq<Byte>, m: Message, max: nat) returns (out: seq<Byte>, n: nat, kept: Message)
    ensures out == dst + Encoding(Plain(m), max) && n == |Encoding(Plain(m), max)|
    ensures kept == Trimmed(m)
  {
    kept := m;
    match m.payload {
      case Bin(data) =>
        if data == [] {
          return dst, 0, m;
        }
        var whole, mark := AppendHeader(dst, m, BIN_MSG);
        out, n := Finish(dst, m, whole + U16(m.cmd) + data, mark, max) by {
          assert whole + U16(m.cmd) + data == whole + (U16(m.cmd) + data);
        }
      case Pb(proto) =>
        var whole, mark := AppendHeader(dst, m, PB_MSG);
        var cmdMark := |whole|;
        var marked := whole + [0, 0];
        if proto.Unknown? {
          return marked[..mark], 0, m;
        }
        marked := marked + proto.body;
        var patched := marked[..cmdMark] + U16(Wrap16(proto.id)) + marked[cmdMark + 2..];
        Patched(whole, U16(Wrap16(proto.id)), proto.body);
        out, n := Finish(dst, m, patched, mark, max);
      case Call(q) =>
        var whole, mark := AppendHeader(dst, m, RPC_REQ);
        var body, ok, cut := EncodeRequest(whole, q);
        kept := m.(payload := Call(cut));
        if !ok {
          RolledBack(dst, whole, body);
          return body[..mark], 0, kept;
        }
        out, n := Finish(dst, m, body, mark, max);
      case Answer(p) =>
        var whole, mark := AppendHeader(dst, m, RPC_RESP);
        var body, ok, cut := EncodeResponse(whole, p);
        kept := m.(payload := Answer(cut));
        if !ok {
          RolledBack(dst, whole, body);
          return body[..mark], 0, kept;
        }
        out, n := Finish(dst, m, body, mark, max);
      case Other =>
        return dst, 0, m;
    }
  }

  /** A message object that was encoded once is encoded the same way again. */
  lemma TrimmedSame(m: Message, max: nat)
    ensures Encoding(Plain(Trimmed(m)), max) == Encoding(Plain(m), max)
  {
    match m.payload
    case Call(q) => assert Cut(Cut(q.userData)) == Cut(q.userData);
    case Answer(p) => assert Cut(Cut(p.userData)) == Cut(p.userData);
    case Bin(_) =>
    case Pb(_) =>
    case Other =>
  }

  lemma Patched(head: seq<Byte>, two: seq<Byte>, tail: seq<Byte>)
    requires |two| == 2
    ensures var marked := head + [0, 0] + tail;
            marked[..|head|] + two + marked[|head| + 2..] == head + (two + tail)
  {
    var marked := head + [0, 0] + tail;
    assert marked[..|head|] == head && marked[|head| + 2..] == tail;
  }

  lemma RolledBack(dst: seq<Byte>, whole: seq<Byte>, body: seq<Byte>)
    requires dst <= whole <= body
    ensures body[..|dst|] == dst
  {
  }

  method Encode(dst: seq<Byte>, o: Outgoing, max: nat) returns (out: seq<Byte>, n: nat)
    ensures out == dst + Encoding(o, max) && n == |Encoding(o, max)|
  {
    match o {
      case Plain(m) =>
        var kept;
        out, n, kept := EncodeMessage(dst, m, max);
      case Relay(frame) => return dst + frame, |frame|;
      case Foreign => return dst, 0;
    }
  }

  // ---- Decoding ----

  /** The read position after trying to read `n` bytes: it stays put when there are too few. */
  function Skip(bs: seq<Byte>, at: nat, n: nat): (r: nat)
    ensures at <= |bs| ==> r <= |bs|
  {
    if at + n > |bs| then at else at + n
  }

  function At8(bs: seq<Byte>, at: nat): Byte {
    if at + 1 > |bs| then 0 else bs[at]
  }

  function At16(bs: seq<Byte>, at: nat): nat {
    if at + 2 > |bs| then 0 else N16(bs[at..at + 2])
  }

  function At32(bs: seq<Byte>, at: nat): LogicAddr {
    if at + 4 > |bs| then 0 else N32(bs[at..at + 4])
  }

  datatype Header = Header(flag: Byte, to: LogicAddr, from: LogicAddr, rest: seq<Byte>)

  function ReadHeader(bs: seq<Byte>): Header {
    var a := Skip(bs, 0, 1);
    var b := Skip(bs, a, 4);
    Header(At8(bs, 0), At32(bs, a), At32(bs, b), bs[Skip(bs, b, 4)..])
  }

  function Read16(bs: seq<Byte>): (nat, seq<Byte>) {
    (At16(bs, 0), bs[Skip(bs, 0, 2)..])
  }

  function ReadContent(h: Header, reg: Registry): Incoming {
    var tt := MsgType(h.flag);
    if tt == BIN_MSG then
      var (cmd, data) := Read16(h.rest);
      Delivered(h.to, h.from, cmd, BinIn(data))
    else if tt == PB_MSG then
      var (cmd, body) := Read16(h.rest);
      if Unmarshals(reg, cmd, body) then Delivered(h.to, h.from, cmd, PbIn(cmd, body)) else BadPacket
    else if tt == RPC_REQ then
      var q := ParseRequest(h.rest);
      if q.Some? then Delivered(h.to, h.from, 0, CallIn(q.value)) else BadPacket
    else if tt == RPC_RESP then
      var p := ParseResponse(h.rest);
      if p.Some? then Delivered(h.to, h.from, 0, AnswerIn(p.value)) else BadPacket
    else BadPacket
  }

  /** Decoding at node `self`, when the reader holds `bs` and the packet is `payload`. */
  function Decoding(self: LogicAddr, reg: Registry, payload: seq<Byte>, bs: seq<Byte>): Incoming {
    var h := ReadHeader(bs);
    if h.to == self then ReadContent(h, reg) else Relayed(h.to, h.from, Framed(payload))
  }

  class BufferReader {
    var bs: seq<Byte>
    var offset: nat

    constructor ()
      ensures bs == [] && offset == 0
    {
      bs, offset := [], 0;
    }

    /** An empty packet leaves the previous bytes in place. */
    method Reset(b: seq<Byte>)
      modifies this
      ensures offset == 0 && bs == if b == [] then old(bs) else b
    {
      if |b| > 0 {
        bs := b;
      }
      offset := 0;
    }

    method GetByte() returns (v: Byte)
      modifies this`offset
      ensures v == At8(bs, old(offset)) && offset == Skip(bs, old(offset), 1)
    {
      if offset + 1 > |bs| { return 0; }
      v := bs[offset];
      offset := offset + 1;
    }

    method GetUint16() returns (v: nat)
      modifies this`offset
      ensures v == At16(bs, old(offset)) && offset == Skip(bs, old(offset), 2)
    {
      if offset + 2 > |bs| { return 0; }
      v := N16(bs[offset..offset + 2]);
      offset := offset + 2;
    }

    method GetUint32() returns (v: LogicAddr)
      modifies this`offset
      ensures v == At32(bs, old(offset)) && offset == Skip(bs, old(offset), 4)
    {
      if offset + 4 > |bs| { return 0; }
      v := N32(bs[offset..offset + 4]);
      offset := offset + 4;
    }

    function GetAll(): seq<Byte>
      reads this
      requires offset <= |bs|
    {
      bs[offset..]
    }
  }

  class Codec {
    const selfAddr: LogicAddr
    const registry: Registry
    const reader: BufferReader

    constructor (selfAddr: LogicAddr, registry: Registry)
      ensures this.selfAddr == selfAddr && this.registry == registry && fresh(reader) && reader.bs == []
    {
      this.selfAddr, this.registry := selfAddr, registry;
      reader := new BufferReader();
    }

    /** Reads a 16-bit command and the bytes behind it. */
    method CmdAndData() returns (cmd: nat, data: seq<Byte>)
      requires reader.offset <= |reader.bs|
      modifies reader
      ensures (cmd, data) == Read16(old(reader.GetAll())) && reader.bs == old(reader.bs)
    {
      ghost var rest := reader.GetAll();
      Window16(reader.bs, reader.offset);
      cmd := reader.GetUint16();
      data := reader.GetAll();
    }

    method Decode(payload: seq<Byte>) returns (r: Incoming)
      modifies reader
      ensures r == Decoding(selfAddr, registry, payload, reader.bs)
      ensures reader.bs == if payload == [] then old(reader.bs) else payload
    {
      reader.Reset(payload);
      var flag := reader.GetByte();
      var to := reader.GetUint32();
      var from := reader.GetUint32();
      ghost var h := ReadHeader(reader.bs);
      assert h == Header(flag, to, from, reader.GetAll());
      if to != selfAddr {
        return Relayed(to, from, U32(Wrap32(|payload|)) + payload);
      }
      var tt := MsgType(flag);
      if tt == BIN_MSG {
        var cmd, data := CmdAndData();
        return Delivered(to, from, cmd, BinIn(data));
      } else if tt == PB_MSG {
        var cmd, data := CmdAndData();
        if !Unmarshals(registry, cmd, data) { return BadPacket; }
        return Delivered(to, from, cmd, PbIn(cmd, data));
      } else if tt == RPC_REQ {
        var q := DecodeRequest(reader.GetAll());
        if q.None? { return BadPacket; }
        return Delivered(to, from, 0, CallIn(q.value));
      } else if tt == RPC_RESP {
        var p := DecodeResponse(reader.GetAll());
        if p.None? { return BadPacket; }
        return Delivered(to, from, 0, AnswerIn(p.value));
      }
      return BadPacket;
    }
  }

  lemma Window16(bs: seq<Byte>, at: nat)
    requires at <= |bs|
    ensures At16(bs[at..], 0) == At16(bs, at)
    ensures bs[at..][Skip(bs[at..], 0, 2)..] == bs[Skip(bs, at, 2)..]
  {
    if at + 2 <= |bs| {
      assert bs[at..][0..2] == bs[at..at + 2];
    }
  }

  // ---- Round trip ----

  lemma HeaderBack(m: Message, content: seq<Byte>)
    ensures ReadHeader(HeaderBytes(m) + content) == Header(Flag(m.payload), m.to, m.from, content)
  {
    var bs := HeaderBytes(m) + content;
    assert bs[1..5] == U32(m.to) + [] && bs[5..9] == U32(m.from) + [];
    RoundTrip32(m.to, []);
    RoundTrip32(m.from, []);
    assert bs[9..] == content;
  }

  lemma Read16Back(v: nat, data: seq<Byte>)
    requires v < TWO16
    ensures Read16(U16(v) + data) == (v, data)
  {
    var bs := U16(v) + data;
    assert bs[0..2] == U16(v) + [];
    RoundTrip16(v, []);
    assert bs[2..] == data;
  }

  /** What the target should see of a message. */
  function Seen(m: Message): Incoming
    requires ContentBytes(m).Some?
  {
    match m.payload
    case Bin(data) => Delivered(m.to, m.from, m.cmd, BinIn(data))
    case Pb(proto) => Delivered(m.to, m.from, proto.id, PbIn(proto.id, proto.body))
    case Call(q) => Delivered(m.to, m.from, 0, CallIn(RequestSeen(q)))
    case Answer(p) => Delivered(m.to, m.from, 0, AnswerIn(ResponseSeen(p)))
  }

  /** The target's registry knows the protobuf message. */
  predicate Registered(m: Message, reg: Registry) {
    m.payload.Pb? && m.payload.proto.Known? ==> Unmarshals(reg, m.payload.proto.id, m.payload.proto.body)
  }

  /** Everything that is written in 16 bits fits, and an error has one of the defined codes. */
  predicate Survives(m: Message)
    requires ContentBytes(m).Some?
  {
    match m.payload
    case Bin(_) => true
    case Pb(proto) => proto.id < TWO16
    case Call(q) => RequestFits(q)
    case Answer(p) => ResponseFits(p)
  }

  /** Under a packet limit of at most 65536 bytes every 16-bit length is exact: what is left of the
      condition is a protobuf id below 65536 and an error with a defined code. */
  lemma SmallLimitSurvives(m: Message, max: nat)
    requires Admitted(m, max) && max <= TWO16
    ensures Survives(m) <==>
            && (m.payload.Pb? ==> m.payload.proto.id < TWO16)
            && (m.payload.Answer? && m.payload.response.err.Some? ==> 1 <= m.payload.response.err.value.code < ERR_END)
  {
    match m.payload
    case Bin(_) =>
    case Pb(_) =>
    case Call(q) => RequestSize(q);
    case Answer(p) =>
      if p.err.Some? ==> 1 <= p.err.value.code < ERR_END {
        ResponseSize(p);
      }
  }

  lemma CmdBack(h: Header, v: nat, data: seq<Byte>, reg: Registry)
    requires v < TWO16 && h.rest == U16(v) + data
    ensures h.flag == BIN_MSG ==> ReadContent(h, reg) == Delivered(h.to, h.from, v, BinIn(data))
    ensures h.flag == PB_MSG && Unmarshals(reg, v, data) ==> ReadContent(h, reg) == Delivered(h.to, h.from, v, PbIn(v, data))
  {
    Read16Back(v, data);
  }

  lemma CallRead(h: Header, q: RequestIn, reg: Registry)
    requires h.flag == RPC_REQ && ParseRequest(h.rest) == Some(q)
    ensures ReadContent(h, reg) == Delivered(h.to, h.from, 0, CallIn(q))
  {
  }

  lemma AnswerRead(h: Header, p: ResponseIn, reg: Registry)
    requires h.flag == RPC_RESP && ParseResponse(h.rest) == Some(p)
    ensures ReadContent(h, reg) == Delivered(h.to, h.from, 0, AnswerIn(p))
  {
  }

  lemma CallExact(h: Header, q: Request, reg: Registry)
    requires h.flag == RPC_REQ && !q.arg.Refused? && h.rest == RequestBytes(q)
    ensures ReadContent(h, reg) == Delivered(h.to, h.from, 0, CallIn(RequestSeen(q))) <==> RequestFits(q)
  {
    RequestExact(q);
    if ParseRequest(h.rest).Some? {
      CallRead(h, ParseRequest(h.rest).value, reg);
    }
  }

  lemma AnswerExact(h: Header, p: Response, reg: Registry)
    requires h.flag == RPC_RESP && !p.ret.Refused? && h.rest == ResponseBytes(p)
    ensures ReadContent(h, reg) == Delivered(h.to, h.from, 0, AnswerIn(ResponseSeen(p))) <==> ResponseFits(p)
  {
    ResponseExact(p);
    if ParseResponse(h.rest).Some? {
      AnswerRead(h, ParseResponse(h.rest).value, reg);
    }
  }

  lemma PbExact(h: Header, id: nat, body: seq<Byte>, reg: Registry)
    requires h.flag == PB_MSG && h.rest == U16(Wrap16(id)) + body && Unmarshals(reg, id, body)
    ensures ReadContent(h, reg) == Delivered(h.to, h.from, id, PbIn(id, body)) <==> id < TWO16
  {
    CmdBack(h, Wrap16(id), body, reg);
    Read16Back(Wrap16(id), body);
  }

  lemma ContentExact(m: Message, reg: Registry)
    requires ContentBytes(m).Some? && Registered(m, reg)
    ensures ReadContent(Header(Flag(m.payload), m.to, m.from, ContentBytes(m).value), reg) == Seen(m) <==> Survives(m)
  {
    var h := Header(Flag(m.payload), m.to, m.from, ContentBytes(m).value);
    match m.payload
    case Bin(data) => CmdBack(h, m.cmd, data, reg);
    case Pb(proto) => PbExact(h, proto.id, proto.body, reg);
    case Call(q) => CallExact(h, q, reg);
    case Answer(p) => AnswerExact(h, p, reg);
  }

  /** For every packet limit: a frame the size check admits is one a receiver with that limit
      accepts, and it decodes at its target to the same sender, type and fields if and only if
      everything written in 16 bits fits. */
  lemma AdmittedExact(m: Message, max: nat, reg: Registry)
    requires Admitted(m, max) && Registered(m, reg)
    ensures |PayloadBytes(m)| < TWO32 ==>
              Admissible(PayloadBytes(m), max) && Encoding(Plain(m), max) == Frame(PayloadBytes(m))
    ensures Decoding(m.to, reg, PayloadBytes(m), PayloadBytes(m)) == Seen(m) <==> Survives(m)
  {
    var content := ContentBytes(m).value;
    HeaderBack(m, content);
    ContentExact(m, reg);
    AtTarget(PayloadBytes(m), Header(Flag(m.payload), m.to, m.from, content), reg);
    if |PayloadBytes(m)| < TWO32 {
      FramedSame(PayloadBytes(m));
    }
  }

  lemma AtTarget(p: seq<Byte>, h: Header, reg: Registry)
    requires h == ReadHeader(p)
    ensures Decoding(h.to, reg, p, p) == ReadContent(h, reg)
  {
  }

  lemma FramedSame(p: seq<Byte>)
    requires |p| < TWO32
    ensures Framed(p) == Frame(p)
  {
    var n := Wrap32(|p|);
    assert n == |p|;
  }

  /** An id of 65536 or more reaches the target as another type. */
  lemma WideIdMistaken(reg: Registry, body: seq<Byte>)
    requires {1, 65537} <= reg.ids && |body| <= 100 && Unmarshals(reg, 1, body) && Unmarshals(reg, 65537, body)
    ensures var m := Message(0, 1, 2, Pb(Known(65537, body)));
            && Admitted(m, MAX_PACKET) && Registered(m, reg)
            && Decoding(1, reg, PayloadBytes(m), PayloadBytes(m)) == Delivered(1, 2, 1, PbIn(1, body))
  {
    var m := Message(0, 1, 2, Pb(Known(65537, body)));
    HeaderBack(m, ContentBytes(m).value);
    Read16Back(1, body);
  }

  // ---- The layout in numbers ----

  /** A packet: type, target, sender and the rest. */
  function Packet(flag: Byte, to: LogicAddr, from: LogicAddr, rest: seq<Byte>): (p: seq<Byte>)
    ensures |p| == 9 + |rest|
  {
    [flag] + U32(to) + U32(from) + rest
  }

  lemma PacketHeader(flag: Byte, to: LogicAddr, from: LogicAddr, rest: seq<Byte>)
    ensures ReadHeader(Packet(flag, to, from, rest)) == Header(flag, to, from, rest)
  {
    var bs := Packet(flag, to, from, rest);
    assert bs[1..5] == U32(to) + [] && bs[5..9] == U32(from) + [];
    RoundTrip32(to, []);
    RoundTrip32(from, []);
    assert bs[9..] == rest;
  }

  /** Decoding any packet: for another node it is passed on whole; otherwise the lower three bits of
      the type decide, and a packet is refused if they are none of 1 to 4 or if the rest does not
      parse. */
  lemma DecodeExact(flag: Byte, to: LogicAddr, from: LogicAddr, rest: seq<Byte>, self: LogicAddr, reg: Registry)
    ensures var p := Packet(flag, to, from, rest);
            var got := Decoding(self, reg, p, p);
            && (to != self ==> got == Relayed(to, from, Framed(p)))
            && (to == self && flag % 8 == 3 ==>
                  got == if ParseRequest(rest).None? then BadPacket
                         else Delivered(to, from, 0, CallIn(ParseRequest(rest).value)))
            && (to == self && flag % 8 == 4 ==>
                  got == if ParseResponse(rest).None? then BadPacket
                         else Delivered(to, from, 0, AnswerIn(ParseResponse(rest).value)))
            && (to == self && flag % 8 in {0, 5, 6, 7} ==> got == BadPacket)
  {
    PacketHeader(flag, to, from, rest);
  }

  /** The same for packets with a command: bytes are always delivered, a protobuf body if and only
      if its id is known and it is empty or parses. */
  lemma DecodeCmdExact(flag: Byte, from: LogicAddr, cmd: nat, body: seq<Byte>, self: LogicAddr, reg: Registry)
    requires cmd < TWO16
    ensures var p := Packet(flag, self, from, U16(cmd) + body);
            && (flag % 8 == 2 ==> Decoding(self, reg, p, p) == Delivered(self, from, cmd, BinIn(body)))
            && (flag % 8 == 1 ==>
                  Decoding(self, reg, p, p) == if cmd in reg.ids && (body == [] || reg.parses(cmd, body))
                                               then Delivered(self, from, cmd, PbIn(cmd, body)) else BadPacket)
  {
    PacketHeader(flag, self, from, U16(cmd) + body);
    Read16Back(cmd, body);
  }

  /** What can be encoded: any non-empty byte string, any protobuf message the registry knows, any
      request and response whose value can be marshalled, and nothing else. */
  lemma EncodableExact(m: Message)
    ensures ContentBytes(m).Some? <==>
            match m.payload
            case Bin(data) => |data| > 0
            case Pb(proto) => proto.Known?
            case Call(q) => !q.arg.Refused?
            case Answer(p) => !p.ret.Refused?
            case Other => false
  {
  }

  /** The frames: length, type (1 protobuf, 2 bytes, 3 request, 4 response), target, sender, and for
      the first two a command. */
  lemma LayoutExact(m: Message)
    requires ContentBytes(m).Some?
    ensures var head := U32(m.to) + U32(m.from);
            PayloadBytes(m) ==
            match m.payload
            case Pb(proto) => [1] + head + (U16(Wrap16(proto.id)) + proto.body)
            case Bin(data) => [2] + head + (U16(m.cmd) + data)
            case Call(q) => [3] + head + RequestBytes(q)
            case Answer(p) => [4] + head + ResponseBytes(p)
  {
    HeadJoined(Flag(m.payload), U32(m.to), U32(m.from), ContentBytes(m).value);
  }

  lemma HeadJoined(flag: Byte, a: seq<Byte>, b: seq<Byte>, c: seq<Byte>)
    ensures [flag] + a + b + c == [flag] + (a + b) + c
  {
    assert [flag] + a + b == [flag] + (a + b);
  }

  /** Which messages fit a packet limit, in bytes: 13 for the header, 2 for a command, 15 and 14 for
      the fixed parts of a request and a response. */
  lemma AdmittedSize(m: Message, max: nat)
    requires ContentBytes(m).Some? && Survives(m)
    ensures Admitted(m, max) <==>
            13 + (match m.payload
                  case Pb(proto) => 2 + |proto.body|
                  case Bin(data) => 2 + |data|
                  case Call(q) => 15 + |q.name| + |q.userData| + |Body(q.arg)|
                  case Answer(p) => 14 + |p.userData| + |Body(p.ret)| + if p.err.Some? then 2 + |p.err.value.text| else 0)
            <= max
  {
    match m.payload
    case Pb(_) =>
    case Bin(_) =>
    case Call(q) => RequestLayout(q);
    case Answer(p) => ResponseLayout(p);
  }

  // ---- Relaying ----

  /** What a node that is not the target sends on. */
  function Forwarded(i: Incoming): Outgoing {
    if i.Relayed? then Relay(i.frame) else Foreign
  }

  /** What the receiving end of a link takes out of a frame. */
  function Strip(frame: seq<Byte>): seq<Byte> {
    if |frame| < HEAD_LEN then [] else frame[HEAD_LEN..]
  }

  /** The bytes on the last link of a journey through the given relays. */
  function Trip(p: seq<Byte>, hops: seq<LogicAddr>, reg: Registry, max: nat): seq<Byte>
    requires |p| < TWO32
    decreases |hops|
  {
    if hops == [] then Frame(p)
    else
      var got := Strip(Trip(p, hops[..|hops| - 1], reg, max));
      Encoding(Forwarded(Decoding(hops[|hops| - 1], reg, got, got)), max)
  }

  function Target(p: seq<Byte>): LogicAddr { ReadHeader(p).to }

  lemma StripFrame(p: seq<Byte>)
    requires |p| < TWO32
    ensures Strip(Frame(p)) == p
  {
    assert Frame(p)[HEAD_LEN..] == p;
  }

  lemma PassedOn(p: seq<Byte>, h: Header, self: LogicAddr, reg: Registry)
    requires |p| < TWO32 && h == ReadHeader(p) && h.to != self
    ensures Decoding(self, reg, p, p) == Relayed(h.to, h.from, Frame(p))
  {
    FramedSame(p);
  }

  lemma SentOn(i: Incoming, frame: seq<Byte>, max: nat)
    requires i.Relayed? && i.frame == frame
    ensures Encoding(Forwarded(i), max) == frame
  {
  }

  lemma HopExact(p: seq<Byte>, self: LogicAddr, reg: Registry, max: nat)
    requires |p| < TWO32 && self != Target(p)
    ensures Encoding(Forwarded(Decoding(self, reg, p, p)), max) == Frame(p)
  {
    PassedOn(p, ReadHeader(p), self, reg);
    SentOn(Decoding(self, reg, p, p), Frame(p), max);
  }

  /** Through any number of relays, none of them the target, the frame arrives byte for byte, and
      the target decodes what it would have decoded from the sender. */
  lemma {:induction false} TripExact(p: seq<Byte>, hops: seq<LogicAddr>, reg: Registry, max: nat)
    requires |p| < TWO32 && forall i :: 0 <= i < |hops| ==> hops[i] != Target(p)
    ensures Trip(p, hops, reg, max) == Frame(p) && Strip(Trip(p, hops, reg, max)) == p
    decreases |hops|
  {
    StripFrame(p);
    if hops != [] {
      TripExact(p, hops[..|hops| - 1], reg, max);
      HopExact(p, hops[|hops| - 1], reg, max);
    }
  }

  /** The request a relay looks into when it cannot pass a frame on. */
  function GetRpcRequest(frame: seq<Byte>): Option<RequestIn> {
    if |frame| < MIN_SIZE || MsgType(frame[4]) != RPC_REQ then None
    else ParseRequest(frame[MIN_SIZE..])
  }

  lemma ShortHasNoRequest(p: seq<Byte>)
    requires |p| < 9
    ensures ParseRequest(ReadHeader(p).rest) == None
  {
  }

  lemma HeaderOfLong(p: seq<Byte>)
    requires |p| >= 9
    ensures ReadHeader(p).flag == p[0] && ReadHeader(p).rest == p[9..]
  {
  }

  /** The request, if any, in what a node decoded. */
  function Asked(i: Incoming): Option<RequestIn> {
    if i.Delivered? && i.content.CallIn? then Some(i.content.request) else None
  }

  lemma RequestOf(h: Header, reg: Registry)
    ensures Asked(ReadContent(h, reg)) == if MsgType(h.flag) == RPC_REQ then ParseRequest(h.rest) else None
  {
  }

  /** A relay finds a request in a frame exactly when the target would, and it is the same one:
      same sequence number, same oneway flag, same fields. */
  lemma RelayRequestExact(p: seq<Byte>, reg: Registry)
    requires |p| < TWO32
    ensures GetRpcRequest(Framed(p)) == Asked(Decoding(Target(p), reg, p, p))
  {
    var frame := Framed(p);
    RequestOf(ReadHeader(p), reg);
    if |p| < 9 {
      ShortHasNoRequest(p);
    } else {
      HeaderOfLong(p);
      assert frame[4] == p[0];
      assert frame[MIN_SIZE..] == p[9..];
    }
  }
}
