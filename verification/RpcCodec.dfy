/** The bodies of RPC requests and responses on the wire. */
module RpcCodec {
  import opened Basics
  import opened Bytes

  // ---- Entities ----

  /** An argument or return value as the value codec sees it: absent, marshalled, or refused. */
  datatype Value = Absent | Marshalled(bytes: seq<Byte>) | Refused

  type Uint64 = v: int | 0 <= v < TWO64 witness 0

  datatype Request = Request(callSeq: Uint64, oneway: bool, name: seq<Byte>, userData: seq<Byte>, arg: Value)

  datatype Error = Error(code: nat, text: seq<Byte>)

  datatype Response = Response(callSeq: Uint64, userData: seq<Byte>, err: Option<Error>, ret: Value)

  /** What a decoder delivers: values are still bytes. */
  datatype RequestIn = RequestIn(callSeq: Uint64, oneway: bool, name: seq<Byte>, userData: seq<Byte>, arg: seq<Byte>)

  datatype ResponseIn = ResponseIn(callSeq: Uint64, userData: seq<Byte>, err: Option<Error>, ret: seq<Byte>)

  const ERR_END := 8

  function NewError(code: nat, text: seq<Byte>): Option<Error> {
    if code == 0 || code >= ERR_END then None else Some(Error(code, text))
  }

  // ---- Fields ----

  const MAX_FIELD := 65536

  function Cut(v: seq<Byte>): (r: seq<Byte>)
    ensures |r| <= MAX_FIELD && (|v| <= MAX_FIELD ==> r == v)
  {
    if |v| > MAX_FIELD then v[..MAX_FIELD] else v
  }

  /** A byte string behind a 16-bit length. The length of 65536 bytes wraps to zero. */
  function Prefixed(v: seq<Byte>): seq<Byte> {
    U16(Wrap16(|v|)) + v
  }

  function Bit(b: bool): seq<Byte> {
    [if b then 1 else 0]
  }

  function Body(v: Value): seq<Byte>
    requires !v.Refused?
  {
    if v.Absent? then [] else v.bytes
  }

  /** A field and the bytes behind it, or too few bytes. */
  datatype Parsed<T> = Got(value: T, rest: seq<Byte>) | Short

  function Get64(s: seq<Byte>): Parsed<Uint64> {
    if |s| < 8 then Short else Got(N64(s), s[8..])
  }

  function Get16(s: seq<Byte>): Parsed<nat> {
    if |s| < 2 then Short else Got(N16(s), s[2..])
  }

  function GetBool(s: seq<Byte>): Parsed<bool> {
    if |s| < 1 then Short else Got(s[0] == 1, s[1..])
  }

  function GetBytes(s: seq<Byte>): (p: Parsed<seq<Byte>>)
    ensures p.Got? ==> |p.value| < TWO16
  {
    var n := Get16(s);
    if n.Short? || |n.rest| < n.value then Short else Got(n.rest[..n.value], n.rest[n.value..])
  }

  lemma Rejoined(s: seq<Byte>, size: seq<Byte>, v: seq<Byte>, rest: seq<Byte>)
    requires |s| >= 2 && size == s[..2] && s[2..] == v + rest
    ensures s == size + v + rest
  {
    assert s == s[..2] + s[2..];
  }

  /** A field that was read is what its sender wrote. */
  lemma GetBytesTrue(s: seq<Byte>)
    ensures var p := GetBytes(s); p.Got? ==> s == Prefixed(p.value) + p.rest
  {
    var p := GetBytes(s);
    if p.Got? {
      var size, tail := s[..2], s[2..];
      assert tail == p.value + p.rest;
      assert |p.value| == N16(s);
      Inverse16(s);
      assert U16(Wrap16(|p.value|)) == size;
      Rejoined(s, size, p.value, p.rest);
    }
  }

  lemma Get64Back(v: Uint64, t: seq<Byte>)
    ensures Get64(U64(v) + t) == Got(v, t)
  {
    RoundTrip64(v, t);
    assert (U64(v) + t)[8..] == t;
  }

  lemma Get16Back(v: nat, t: seq<Byte>)
    requires v < TWO16
    ensures Get16(U16(v) + t) == Got(v, t)
  {
    RoundTrip16(v, t);
    assert (U16(v) + t)[2..] == t;
  }

  lemma GetBoolBack(b: bool, t: seq<Byte>)
    ensures GetBool(Bit(b) + t) == Got(b, t)
  {
    assert (Bit(b) + t)[1..] == t;
  }

  lemma GetBytesBack(v: seq<Byte>, t: seq<Byte>)
    requires |v| < TWO16
    ensures GetBytes(Prefixed(v) + t) == Got(v, t)
  {
    assert Prefixed(v) + t == U16(|v|) + (v + t);
    Get16Back(|v|, v + t);
    assert (v + t)[..|v|] == v && (v + t)[|v|..] == t;
  }

  /** A length-prefixed field comes back exactly when it is shorter than 65536 bytes. */
  lemma GetBytesExact(v: seq<Byte>, t: seq<Byte>)
    ensures GetBytes(Prefixed(v) + t) == Got(v, t) <==> |v| < TWO16
  {
    if |v| < TWO16 {
      GetBytesBack(v, t);
    }
  }

  // ---- Requests ----

  function RequestBytes(q: Request): seq<Byte>
    requires !q.arg.Refused?
  {
    U64(q.callSeq) + (Bit(q.oneway) + (Prefixed(Cut(q.name)) + (Prefixed(Cut(q.userData)) + Prefixed(Body(q.arg)))))
  }

  /** Method, user data and argument. */
  function GetTexts(s: seq<Byte>): (p: Parsed<(seq<Byte>, seq<Byte>, seq<Byte>)>)
    ensures p.Got? ==> |p.value.0| < TWO16 && |p.value.1| < TWO16 && |p.value.2| < TWO16
  {
    var c := GetBytes(s);
    if c.Short? then Short else
    var d := GetBytes(c.rest);
    if d.Short? then Short else
    var e := GetBytes(d.rest);
    if e.Short? then Short else Got((c.value, d.value, e.value), e.rest)
  }

  function ParseRequest(s: seq<Byte>): Option<RequestIn> {
    var a := Get64(s);
    if a.Short? then None else
    var b := GetBool(a.rest);
    if b.Short? then None else
    var t := GetTexts(b.rest);
    if t.Short? then None else
    Some(RequestIn(a.value, b.value, t.value.0, t.value.1, t.value.2))
  }

  /** What the peer should see. */
  function RequestSeen(q: Request): RequestIn
    requires !q.arg.Refused?
  {
    RequestIn(q.callSeq, q.oneway, q.name, q.userData, Body(q.arg))
  }

  predicate RequestFits(q: Request)
    requires !q.arg.Refused?
  {
    |q.name| < TWO16 && |q.userData| < TWO16 && |Body(q.arg)| < TWO16
  }

  lemma TextsBack(x: seq<Byte>, y: seq<Byte>, z: seq<Byte>)
    requires |x| < TWO16 && |y| < TWO16 && |z| < TWO16
    ensures GetTexts(Prefixed(x) + (Prefixed(y) + Prefixed(z))) == Got((x, y, z), [])
  {
    var e := Prefixed(z);
    GetBytesBack(x, Prefixed(y) + e);
    GetBytesBack(y, e);
    assert e + [] == e;
    GetBytesBack(z, []);
  }

  lemma RequestBack(q: Request)
    requires !q.arg.Refused? && RequestFits(q)
    ensures ParseRequest(RequestBytes(q)) == Some(RequestSeen(q))
  {
    var c := Prefixed(q.name) + (Prefixed(q.userData) + Prefixed(Body(q.arg)));
    var b := Bit(q.oneway) + c;
    assert RequestBytes(q) == U64(q.callSeq) + b;
    Get64Back(q.callSeq, b);
    GetBoolBack(q.oneway, c);
    TextsBack(q.name, q.userData, Body(q.arg));
  }

  /** A request survives the wire exactly when its three variable fields are each shorter than
      65536 bytes. */
  lemma RequestExact(q: Request)
    requires !q.arg.Refused?
    ensures ParseRequest(RequestBytes(q)) == Some(RequestSeen(q)) <==> RequestFits(q)
  {
    if RequestFits(q) {
      RequestBack(q);
    }
  }

  lemma RequestSize(q: Request)
    requires !q.arg.Refused? && |RequestBytes(q)| < TWO16
    ensures RequestFits(q)
  {
  }

  // ---- Responses ----

  function ErrorBytes(e: Option<Error>): seq<Byte> {
    if e.None? then U16(0) else U16(Wrap16(e.value.code)) + Prefixed(Cut(e.value.text))
  }

  function ResponseBytes(p: Response): seq<Byte>
    requires !p.ret.Refused?
  {
    U64(p.callSeq) + (Prefixed(Cut(p.userData)) + (ErrorBytes(p.err) + Prefixed(Body(p.ret))))
  }

  function ParseError(s: seq<Byte>): (p: Parsed<Option<Error>>)
    ensures p.Got? && p.value.Some? ==> 1 <= p.value.value.code < ERR_END && |p.value.value.text| < TWO16
  {
    var c := Get16(s);
    if c.Short? then Short
    else if c.value == 0 then Got(None, c.rest)
    else
      var t := GetBytes(c.rest);
      if t.Short? then Short else Got(NewError(c.value, t.value), t.rest)
  }

  function ParseResponse(s: seq<Byte>): Option<ResponseIn> {
    var a := Get64(s);
    if a.Short? then None else
    var b := GetBytes(a.rest);
    if b.Short? then None else
    var c := ParseError(b.rest);
    if c.Short? then None else
    var d := GetBytes(c.rest);
    if d.Short? then None else
    Some(ResponseIn(a.value, b.value, c.value, d.value))
  }

  function ResponseSeen(p: Response): ResponseIn
    requires !p.ret.Refused?
  {
    ResponseIn(p.callSeq, p.userData, p.err, Body(p.ret))
  }

  predicate ErrorFits(e: Option<Error>) {
    e.Some? ==> 1 <= e.value.code < ERR_END && |e.value.text| < TWO16
  }

  predicate ResponseFits(p: Response)
    requires !p.ret.Refused?
  {
    |p.userData| < TWO16 && ErrorFits(p.err) && |Body(p.ret)| < TWO16
  }

  lemma CodedErrorBack(code: nat, text: seq<Byte>, t: seq<Byte>)
    requires 1 <= code < ERR_END && |text| < TWO16
    ensures ParseError(ErrorBytes(Some(Error(code, text))) + t) == Got(Some(Error(code, text)), t)
  {
    var rest := Prefixed(text) + t;
    CodedErrorSplit(code, text, t);
    Get16Back(code, rest);
    GetBytesBack(text, t);
    CodedErrorRead(U16(code) + rest, code, text, rest, t);
  }

  lemma CodedErrorSplit(code: nat, text: seq<Byte>, t: seq<Byte>)
    requires 1 <= code < ERR_END && |text| < TWO16
    ensures ErrorBytes(Some(Error(code, text))) + t == U16(code) + (Prefixed(text) + t)
  {
    assert Wrap16(code) == code && Cut(text) == text;
    assert U16(code) + Prefixed(text) + t == U16(code) + (Prefixed(text) + t);
  }

  lemma CodedErrorRead(s: seq<Byte>, code: nat, text: seq<Byte>, rest: seq<Byte>, t: seq<Byte>)
    requires 1 <= code < ERR_END && Get16(s) == Got(code, rest) && GetBytes(rest) == Got(text, t)
    ensures ParseError(s) == Got(Some(Error(code, text)), t)
  {
  }

  lemma ErrorBack(e: Option<Error>, t: seq<Byte>)
    requires ErrorFits(e)
    ensures ParseError(ErrorBytes(e) + t) == Got(e, t)
  {
    match e
    case None => Get16Back(0, t);
    case Some(x) => CodedErrorBack(x.code, x.text, t);
  }

  lemma ResponseBack(p: Response)
    requires !p.ret.Refused? && ResponseFits(p)
    ensures ParseResponse(ResponseBytes(p)) == Some(ResponseSeen(p))
  {
    var d := Prefixed(Body(p.ret));
    var c := ErrorBytes(p.err) + d;
    var b := Prefixed(p.userData) + c;
    assert ResponseBytes(p) == U64(p.callSeq) + b;
    Get64Back(p.callSeq, b);
    GetBytesBack(p.userData, c);
    ErrorBack(p.err, d);
    assert d + [] == d;
    GetBytesBack(Body(p.ret), []);
  }

  /** A response survives the wire exactly when its variable fields are each shorter than 65536
      bytes and its error code is one of the seven defined ones. */
  lemma ResponseExact(p: Response)
    requires !p.ret.Refused?
    ensures ParseResponse(ResponseBytes(p)) == Some(ResponseSeen(p)) <==> ResponseFits(p)
  {
    if ResponseFits(p) {
      ResponseBack(p);
    }
  }

  lemma ResponseSize(p: Response)
    requires !p.ret.Refused? && |ResponseBytes(p)| < TWO16
    requires p.err.Some? ==> 1 <= p.err.value.code < ERR_END
    ensures ResponseFits(p)
  {
    if p.err.Some? {
      assert |ErrorBytes(p.err)| == 4 + |Cut(p.err.value.text)|;
    }
  }

  // ---- What the parsers accept ----

  /** These bytes spell the request, followed by others. Only a flag of 1 means oneway. */
  predicate SpellsRequest(s: seq<Byte>, q: RequestIn, flag: Byte, tail: seq<Byte>) {
    && |q.name| < TWO16 && |q.userData| < TWO16 && |q.arg| < TWO16 && (q.oneway <==> flag == 1)
    && s == U64(q.callSeq) + ([flag] + (Prefixed(q.name) + (Prefixed(q.userData) + (Prefixed(q.arg) + tail))))
  }

  lemma TextsRead(x: seq<Byte>, y: seq<Byte>, z: seq<Byte>, tail: seq<Byte>)
    requires |x| < TWO16 && |y| < TWO16 && |z| < TWO16
    ensures GetTexts(Prefixed(x) + (Prefixed(y) + (Prefixed(z) + tail))) == Got((x, y, z), tail)
  {
    var e := Prefixed(z) + tail;
    var d := Prefixed(y) + e;
    GetBytesBack(x, d);
    GetBytesBack(y, e);
    GetBytesBack(z, tail);
  }

  lemma FlagRead(flag: Byte, t: seq<Byte>)
    ensures GetBool([flag] + t) == Got(flag == 1, t)
  {
    assert ([flag] + t)[1..] == t;
  }

  lemma PartsRead(s: seq<Byte>, t: seq<Byte>, c: seq<Byte>, q: RequestIn, tail: seq<Byte>)
    requires Get64(s) == Got(q.callSeq, t) && GetBool(t) == Got(q.oneway, c)
    requires GetTexts(c) == Got((q.name, q.userData, q.arg), tail)
    ensures ParseRequest(s) == Some(q)
  {
  }

  lemma RequestRead(s: seq<Byte>, q: RequestIn, flag: Byte, tail: seq<Byte>)
    requires SpellsRequest(s, q, flag, tail)
    ensures ParseRequest(s) == Some(q)
  {
    var c := Prefixed(q.name) + (Prefixed(q.userData) + (Prefixed(q.arg) + tail));
    Get64Back(q.callSeq, [flag] + c);
    FlagRead(flag, c);
    TextsRead(q.name, q.userData, q.arg, tail);
    PartsRead(s, [flag] + c, c, q, tail);
  }

  lemma TextsSpelled(s: seq<Byte>)
    requires GetTexts(s).Got?
    ensures var (x, y, z) := GetTexts(s).value;
            s == Prefixed(x) + (Prefixed(y) + (Prefixed(z) + GetTexts(s).rest))
  {
    var c := GetBytes(s);
    var d := GetBytes(c.rest);
    GetBytesTrue(s);
    GetBytesTrue(c.rest);
    GetBytesTrue(d.rest);
  }

  lemma NineBytes(s: seq<Byte>)
    requires |s| >= 9
    ensures s == U64(N64(s)) + ([s[8]] + s[9..]) && Get64(s).Got? && GetBool(s[8..]) == Got(s[8] == 1, s[9..])
  {
    Inverse64(s);
    assert s[8..][1..] == s[9..];
    assert s == s[..8] + ([s[8]] + s[9..]);
  }

  lemma RequestSpelled(s: seq<Byte>)
    requires ParseRequest(s).Some?
    ensures |s| >= 9 && GetTexts(s[9..]).Got? && SpellsRequest(s, ParseRequest(s).value, s[8], GetTexts(s[9..]).rest)
  {
    NineBytes(s);
    TextsSpelled(s[9..]);
  }

  /** A byte string parses to a request if and only if it spells that request. */
  lemma ParseRequestExact(s: seq<Byte>, q: RequestIn)
    ensures ParseRequest(s) == Some(q) <==> exists flag, tail :: SpellsRequest(s, q, flag, tail)
  {
    if ParseRequest(s) == Some(q) {
      RequestSpelled(s);
    }
    if exists flag, tail :: SpellsRequest(s, q, flag, tail) {
      var flag, tail :| SpellsRequest(s, q, flag, tail);
      RequestRead(s, q, flag, tail);
    }
  }

  /** An error part: code 0 and nothing else, or a code with its text; unknown codes make no error. */
  predicate SpellsError(s: seq<Byte>, e: Option<Error>, code: nat, text: seq<Byte>) {
    && code < TWO16 && |text| < TWO16
    && e == (if 1 <= code <= 7 then Some(Error(code, text)) else None)
    && s == if code == 0 then U16(0) else U16(code) + Prefixed(text)
  }

  predicate SpellsResponse(s: seq<Byte>, p: ResponseIn, code: nat, text: seq<Byte>, err: seq<Byte>, tail: seq<Byte>) {
    && |p.userData| < TWO16 && |p.ret| < TWO16 && SpellsError(err, p.err, code, text)
    && s == U64(p.callSeq) + (Prefixed(p.userData) + (err + (Prefixed(p.ret) + tail)))
  }

  lemma ErrorRead(s: seq<Byte>, e: Option<Error>, code: nat, text: seq<Byte>, t: seq<Byte>)
    requires SpellsError(s, e, code, text)
    ensures ParseError(s + t) == Got(e, t)
  {
    if code == 0 {
      Get16Back(0, t);
    } else {
      assert s + t == U16(code) + (Prefixed(text) + t);
      Get16Back(code, Prefixed(text) + t);
      GetBytesBack(text, t);
    }
  }

  lemma ErrorSpelled(s: seq<Byte>) returns (code: nat, text: seq<Byte>, err: seq<Byte>)
    requires ParseError(s).Got?
    ensures SpellsError(err, ParseError(s).value, code, text) && s == err + ParseError(s).rest
  {
    Inverse16(s);
    code, text, err := N16(s), [], U16(0);
    assert s == s[..2] + s[2..];
    if code != 0 {
      var t := GetBytes(s[2..]);
      GetBytesTrue(s[2..]);
      text, err := t.value, U16(code) + Prefixed(t.value);
      assert err + t.rest == U16(code) + (Prefixed(text) + t.rest);
    }
  }

  lemma ResponseRead(s: seq<Byte>, p: ResponseIn, code: nat, text: seq<Byte>, err: seq<Byte>, tail: seq<Byte>)
    requires SpellsResponse(s, p, code, text, err, tail)
    ensures ParseResponse(s) == Some(p)
  {
    var d := Prefixed(p.ret) + tail;
    Get64Back(p.callSeq, Prefixed(p.userData) + (err + d));
    GetBytesBack(p.userData, err + d);
    ErrorRead(err, p.err, code, text, d);
    GetBytesBack(p.ret, tail);
  }

  lemma ResponseSpelled(s: seq<Byte>) returns (code: nat, text: seq<Byte>, err: seq<Byte>, tail: seq<Byte>)
    requires ParseResponse(s).Some?
    ensures SpellsResponse(s, ParseResponse(s).value, code, text, err, tail)
  {
    var b := GetBytes(s[8..]);
    var c := ParseError(b.rest);
    tail := GetBytes(c.rest).rest;
    EightBytes(s);
    GetBytesTrue(s[8..]);
    GetBytesTrue(c.rest);
    code, text, err := ErrorSpelled(b.rest);
  }

  lemma EightBytes(s: seq<Byte>)
    requires |s| >= 8
    ensures s == U64(N64(s)) + s[8..]
  {
    Inverse64(s);
    assert s == s[..8] + s[8..];
  }

  /** A byte string parses to a response if and only if it spells that response. */
  lemma ParseResponseExact(s: seq<Byte>, p: ResponseIn)
    ensures ParseResponse(s) == Some(p) <==> exists code, text, err, tail :: SpellsResponse(s, p, code, text, err, tail)
  {
    if ParseResponse(s) == Some(p) {
      var code, text, err, tail := ResponseSpelled(s);
    }
    if exists code, text, err, tail :: SpellsResponse(s, p, code, text, err, tail) {
      var code, text, err, tail :| SpellsResponse(s, p, code, text, err, tail);
      ResponseRead(s, p, code, text, err, tail);
    }
  }

  // ---- The layout in numbers ----

  /** Seven error codes are defined; everything else makes no error. */
  lemma ErrorCodesExact(code: nat, text: seq<Byte>)
    ensures NewError(code, text) == if code in {1, 2, 3, 4, 5, 6, 7} then Some(Error(code, text)) else None
  {
  }

  /** Eight bytes of sequence number, one byte of flag, then three texts behind two bytes of length
      each: method, user data, argument. */
  lemma RequestLayout(q: Request)
    requires !q.arg.Refused? && RequestFits(q)
    ensures RequestBytes(q) == U64(q.callSeq) + [if q.oneway then 1 else 0]
                               + (U16(|q.name|) + q.name) + (U16(|q.userData|) + q.userData)
                               + (U16(|Body(q.arg)|) + Body(q.arg))
    ensures |RequestBytes(q)| == 15 + |q.name| + |q.userData| + |Body(q.arg)|
  {
    Chain([], U64(q.callSeq), Bit(q.oneway), Prefixed(q.name), Prefixed(q.userData) + Prefixed(Body(q.arg)));
  }

  /** Eight bytes of sequence number, the user data, two bytes of error code with a text behind it
      unless it is zero, and the return value. */
  lemma ResponseLayout(p: Response)
    requires !p.ret.Refused? && ResponseFits(p)
    ensures ResponseBytes(p) == U64(p.callSeq) + (U16(|p.userData|) + p.userData)
                                + (match p.err
                                   case None => [0, 0]
                                   case Some(e) => U16(e.code) + (U16(|e.text|) + e.text))
                                + (U16(|Body(p.ret)|) + Body(p.ret))
    ensures |ResponseBytes(p)| == 14 + |p.userData| + |Body(p.ret)| + if p.err.Some? then 2 + |p.err.value.text| else 0
  {
    Chain([], U64(p.callSeq), Prefixed(p.userData), ErrorBytes(p.err), Prefixed(Body(p.ret)));
  }

  // ---- The writer and the reader as they run ----

  class BytesWriter {
    var b: seq<Byte>

    constructor (b: seq<Byte>)
      ensures this.b == b
    {
      this.b := b;
    }

    method WriteUint64(v: Uint64)
      modifies this
      ensures b == old(b) + U64(v)
    {
      b := b + U64(v);
    }

    method WriteUint16(v: nat)
      requires v < TWO16
      modifies this
      ensures b == old(b) + U16(v)
    {
      b := b + U16(v);
    }

    method WriteBool(v: bool)
      modifies this
      ensures b == old(b) + Bit(v)
    {
      b := b + Bit(v);
    }

    /** Longer strings are cut to 65536 bytes. */
    method WriteBytes(v: seq<Byte>)
      modifies this
      ensures b == old(b) + Prefixed(Cut(v))
    {
      var size := |v|;
      if size > MAX_FIELD {
        size := MAX_FIELD;
      }
      WriteUint16(Wrap16(size));
      if |v| > 0 {
        b := b + v[..size];
      }
      assert v[..size] == Cut(v);
    }

    /** Leaves room for the length, lets the value codec append, then patches the length. */
    method WriteMessage(v: Value) returns (ok: bool)
      modifies this
      ensures ok == !v.Refused?
      ensures ok ==> b == old(b) + Prefixed(Body(v))
      ensures old(b) <= b
    {
      if v.Absent? {
        b := b + [0, 0];
        assert U16(0) == [0, 0];
        return true;
      }
      var mark := |b|;
      b := b + [0, 0];
      var start := |b|;
      if v.Refused? {
        return false;
      }
      b := b + v.bytes;
      var size := U16(Wrap16(|b| - start));
      b := b[..mark] + size + b[mark + 2..];
      return true;
    }
  }

  class BytesReader {
    var b: seq<Byte>

    constructor (b: seq<Byte>)
      ensures this.b == b
    {
      this.b := b;
    }

    method ReadUint64() returns (v: Uint64, ok: bool)
      modifies this
      ensures (if ok then Got(v, b) else Short) == Get64(old(b))
    {
      if |b| < 8 { return 0, false; }
      v, ok := N64(b), true;
      b := b[8..];
    }

    method ReadUint16() returns (v: nat, ok: bool)
      modifies this
      ensures (if ok then Got(v, b) else Short) == Get16(old(b))
    {
      if |b| < 2 { return 0, false; }
      v, ok := N16(b), true;
      b := b[2..];
    }

    method ReadBool() returns (v: bool, ok: bool)
      modifies this
      ensures (if ok then Got(v, b) else Short) == GetBool(old(b))
    {
      if |b| < 1 { return false, false; }
      v, ok := b[0] == 1, true;
      b := b[1..];
    }

    method ReadBytes() returns (v: seq<Byte>, ok: bool)
      modifies this
      ensures (if ok then Got(v, b) else Short) == GetBytes(old(b))
    {
      var size;
      size, ok := ReadUint16();
      v := [];
      if !ok { return; }
      if size > 0 {
        if |b| < size { return [], false; }
        v := b[..size];
        b := b[size..];
      }
    }
  }

  /** The error part of a response. */
  method WriteError(bw: BytesWriter, err: Option<Error>)
    modifies bw
    ensures bw.b == old(bw.b) + ErrorBytes(err)
  {
    if err.Some? {
      bw.WriteUint16(Wrap16(err.value.code));
      bw.WriteBytes(Cut(err.value.text));
    } else {
      bw.WriteUint16(0);
    }
  }

  /** `kept` is the caller's request afterwards: overlong user data has been cut in it too. */
  method EncodeRequest(dst: seq<Byte>, q: Request) returns (out: seq<Byte>, ok: bool, kept: Request)
    ensures ok == !q.arg.Refused?
    ensures ok ==> out == dst + RequestBytes(q)
    ensures dst <= out
    ensures kept == q.(userData := Cut(q.userData))
  {
    kept := q.(userData := Cut(q.userData));
    var bw := new BytesWriter(dst);
    bw.WriteUint64(q.callSeq);
    bw.WriteBool(q.oneway);
    bw.WriteBytes(Cut(q.name));
    bw.WriteBytes(kept.userData);
    ok := bw.WriteMessage(q.arg);
    out := bw.b;
    Chain(dst, U64(q.callSeq), Bit(q.oneway), Prefixed(Cut(q.name)), Prefixed(Cut(q.userData)));
    if ok {
      Chain(dst, U64(q.callSeq), Bit(q.oneway), Prefixed(Cut(q.name)), Prefixed(Cut(q.userData)) + Prefixed(Body(q.arg)));
      assert out == dst + U64(q.callSeq) + Bit(q.oneway) + Prefixed(Cut(q.name)) + (Prefixed(Cut(q.userData)) + Prefixed(Body(q.arg)));
    }
  }

  /** `kept` is the caller's response afterwards: overlong user data has been cut in it too. */
  method EncodeResponse(dst: seq<Byte>, p: Response) returns (out: seq<Byte>, ok: bool, kept: Response)
    ensures ok == !p.ret.Refused?
    ensures ok ==> out == dst + ResponseBytes(p)
    ensures dst <= out
    ensures kept == p.(userData := Cut(p.userData))
  {
    kept := p.(userData := Cut(p.userData));
    var bw := new BytesWriter(dst);
    bw.WriteUint64(p.callSeq);
    bw.WriteBytes(kept.userData);
    WriteError(bw, p.err);
    ok := bw.WriteMessage(p.ret);
    out := bw.b;
    Chain(dst, U64(p.callSeq), Prefixed(Cut(p.userData)), ErrorBytes(p.err), []);
    if ok {
      Chain(dst, U64(p.callSeq), Prefixed(Cut(p.userData)), ErrorBytes(p.err), Prefixed(Body(p.ret)));
    }
  }

  /** Appending piece by piece is appending the pieces joined. */
  lemma Chain(dst: seq<Byte>, a: seq<Byte>, b: seq<Byte>, c: seq<Byte>, d: seq<Byte>)
    ensures dst + a + b + c + d == dst + (a + (b + (c + d)))
    ensures dst <= dst + a + b + c
  {
    assert dst + a + b + c + d == dst + a + b + (c + d);
    assert dst + a + b + (c + d) == dst + a + (b + (c + d));
    assert dst + a + (b + (c + d)) == dst + (a + (b + (c + d)));
    assert dst + a + b + c == dst + (a + b + c);
  }

  method ReadTexts(br: BytesReader) returns (x: seq<Byte>, y: seq<Byte>, z: seq<Byte>, ok: bool)
    modifies br
    ensures (if ok then Got((x, y, z), br.b) else Short) == GetTexts(old(br.b))
  {
    y, z := [], [];
    x, ok := br.ReadBytes();
    if ok { y, ok := br.ReadBytes(); }
    if ok { z, ok := br.ReadBytes(); }
  }

  method DecodeRequest(buff: seq<Byte>) returns (r: Option<RequestIn>)
    ensures r == ParseRequest(buff)
  {
    var br := new BytesReader(buff);
    var callSeq, ok := br.ReadUint64();
    if !ok { return None; }
    var oneway;
    oneway, ok := br.ReadBool();
    if !ok { return None; }
    var name, userData, arg;
    name, userData, arg, ok := ReadTexts(br);
    if !ok { return None; }
    return Some(RequestIn(callSeq, oneway, name, userData, arg));
  }

  /** The error part of a response. */
  method ReadError(br: BytesReader) returns (err: Option<Error>, ok: bool)
    modifies br
    ensures (if ok then Got(err, br.b) else Short) == ParseError(old(br.b))
  {
    err := None;
    var code;
    code, ok := br.ReadUint16();
    if ok && code != 0 {
      var text;
      text, ok := br.ReadBytes();
      if ok {
        err := NewError(code, text);
      }
    }
  }

  method DecodeResponse(buff: seq<Byte>) returns (r: Option<ResponseIn>)
    ensures r == ParseResponse(buff)
  {
    var br := new BytesReader(buff);
    var callSeq, ok := br.ReadUint64();
    if !ok { return None; }
    var userData;
    userData, ok := br.ReadBytes();
    if !ok { return None; }
    var err;
    err, ok := ReadError(br);
    if !ok { return None; }
    var ret;
    ret, ok := br.ReadBytes();
    if !ok { return None; }
    return Some(ResponseIn(callSeq, userData, err, ret));
  }
}
