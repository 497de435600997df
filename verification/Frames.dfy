/** The byte stream between two sockets: the sender batches encoded messages, the network cuts
    the stream into arbitrary chunks, the receiver reassembles length-prefixed frames in a buffer
    it compacts and grows in place. */
module Frames {
  import opened Basics
  import opened Bytes

  const HEAD_LEN := 4

  /** A frame: four bytes of payload length, then the payload. */
  function Frame(p: seq<Byte>): seq<Byte>
    requires |p| < TWO32
  {
    U32(|p|) + p
  }

  /** Payloads a receiver with the given packet limit lets through. */
  predicate Admissible(p: seq<Byte>, maxSize: nat) {
    0 < |p| < TWO32 && |p| + HEAD_LEN <= maxSize
  }

  predicate AllAdmissible(ps: seq<seq<Byte>>, maxSize: nat) {
    forall i :: 0 <= i < |ps| ==> Admissible(ps[i], maxSize)
  }

  function Stream(ps: seq<seq<Byte>>, maxSize: nat): seq<Byte>
    requires AllAdmissible(ps, maxSize)
  {
    if ps == [] then [] else Frame(ps[0]) + Stream(ps[1..], maxSize)
  }

  // ---- The receiving side ----

  /** What the network does to one read: at most `size` bytes, perhaps an error. */
  datatype Chunk = Chunk(size: nat, error: bool)

  /** No coming read fails or stalls, and there are enough of them for that many bytes. */
  predicate Flows(plan: seq<Chunk>, bytes: nat) {
    bytes <= |plan| && forall i :: 0 <= i < |plan| ==> plan[i].size > 0 && !plan[i].error
  }

  /** The incoming half of a connection: bytes not yet read, and the behaviour of coming reads.
      When the plan is used up every read fails. */
  class Conn {
    var rest: seq<Byte>
    var plan: seq<Chunk>

    constructor (rest: seq<Byte>, plan: seq<Chunk>)
      ensures this.rest == rest && this.plan == plan
    {
      this.rest, this.plan := rest, plan;
    }

    ghost predicate Flowing()
      reads this
    {
      Flows(plan, |rest|)
    }

    /** A read is only ever made with room for at least one byte. */
    method Read(space: nat) returns (data: seq<Byte>, failed: bool)
      requires space > 0
      modifies this
      ensures |data| <= space
      ensures old(rest) == data + rest
      ensures old(plan) == [] ==> failed && plan == [] && data == []
      ensures old(plan) != [] ==> plan == old(plan)[1..]
      ensures old(Flowing()) ==> Flowing() && (failed ==> old(plan) == [])
    {
      if plan == [] { return [], true; }
      var n := plan[0].size;
      if n > space { n := space; }
      if n > |rest| { n := |rest|; }
      data, failed := rest[..n], plan[0].error;
      rest, plan := rest[n..], plan[1..];
    }
  }

  /** No whole frame at the front. */
  predicate Incomplete(s: seq<Byte>) {
    |s| < HEAD_LEN || |s| < HEAD_LEN + N32(s)
  }

  /** `NeedMore` is the state in which the reader reads; it comes back when that read fails. */
  datatype Received = Packet(payload: seq<Byte>) | ZeroPayload | TooLarge(total: nat) | NeedMore

  class FrameReader {
    var buf: array<Byte>
    var r: nat
    var w: nat
    const maxSize: nat

    constructor (capacity: nat, maxSize: nat)
      requires capacity >= HEAD_LEN
      ensures Valid() && fresh(buf) && Window() == [] && this.maxSize == maxSize
    {
      buf := new Byte[capacity](_ => 0);
      r, w := 0, 0;
      this.maxSize := maxSize;
    }

    ghost predicate Valid()
      reads this, buf
    {
      r <= w <= buf.Length && HEAD_LEN <= buf.Length
    }

    /** The bytes received and not yet handed out. */
    ghost function Window(): seq<Byte>
      reads this, buf
      requires Valid()
    {
      buf[r..w]
    }

    /** Moves the window to the front of the buffer. */
    method Compact()
      requires Valid()
      modifies this`r, this`w, buf
      ensures Valid() && r == 0 && buf == old(buf) && Window() == old(Window())
    {
      var n := w - r;
      forall i | 0 <= i < n { buf[i] := buf[r + i]; }
      assert buf[..n] == old(buf[r..w]);
      w := n;
      r := 0;
    }

    /** Moves the window to a new buffer of the given size. */
    method Grow(size: nat)
      requires Valid() && size >= HEAD_LEN && w - r <= size
      modifies this`r, this`w, this`buf
      ensures Valid() && r == 0 && fresh(buf) && buf.Length == size && Window() == old(Window())
    {
      var nb := new Byte[size](_ => 0);
      var n := w - r;
      forall i | 0 <= i < n { nb[i] := buf[r + i]; }
      assert nb[..n] == old(buf[r..w]);
      buf, w, r := nb, n, 0;
    }

    /** Appends the outcome of one read. */
    method Fill(conn: Conn) returns (failed: bool)
      requires Valid() && w < buf.Length
      modifies this`w, buf, conn
      ensures Valid() && r == old(r) && buf == old(buf)
      ensures Window() + conn.rest == old(Window() + conn.rest)
      ensures old(conn.plan) == [] ==> failed && conn.plan == [] && Window() == old(Window())
      ensures old(conn.plan) != [] ==> conn.plan == old(conn.plan)[1..]
      ensures old(conn.Flowing()) ==> conn.Flowing() && (failed ==> old(conn.plan) == [])
    {
      var data;
      data, failed := conn.Read(buf.Length - w);
      forall i | 0 <= i < |data| { buf[w + i] := data[i]; }
      assert buf[r..w + |data|] == old(buf[r..w]) + data;
      w := w + |data|;
      assert Window() + conn.rest == old(Window()) + (data + conn.rest);
    }

    /** Takes a complete first frame out of the window. */
    method Take(size: nat) returns (pkt: seq<Byte>)
      requires Valid() && w - r >= HEAD_LEN && size == N32(Window()) && size + HEAD_LEN <= w - r
      modifies this`r, this`w
      ensures Valid() && buf == old(buf)
      ensures |pkt| == size && old(Window()) == Frame(pkt) + Window()
    {
      ghost var before := Window();
      r := r + HEAD_LEN;
      pkt := buf[r..r + size];
      r := r + size;
      assert before == before[..HEAD_LEN] + pkt + buf[r..w];
      Inverse32(before);
      if r == w {
        r := 0;
        w := 0;
      }
    }

    /** What the reader found when it gave up. */
    ghost predicate Explained(res: Received)
      reads this, buf
      requires Valid()
    {
      && (res == ZeroPayload ==> |Window()| >= HEAD_LEN && N32(Window()) == 0)
      && (res.TooLarge? ==> |Window()| >= HEAD_LEN && N32(Window()) + HEAD_LEN == res.total > maxSize)
    }

    /** Looks at the window: a payload, an error, or room for more bytes. */
    method Unpack() returns (res: Received)
      requires Valid()
      modifies this, buf
      ensures Valid() && (buf == old(buf) || fresh(buf)) && Explained(res)
      ensures res.Packet? ==> Admissible(res.payload, maxSize) && old(Window()) == Frame(res.payload) + Window()
      ensures !res.Packet? ==> Window() == old(Window())
      ensures res == NeedMore ==> Incomplete(Window()) && w < buf.Length
    {
      var unpackSize := w - r;
      if unpackSize >= HEAD_LEN {
        var size := N32(buf[r..w]);
        var totalSize := size + HEAD_LEN;
        if size == 0 {
          return ZeroPayload;
        } else if totalSize > maxSize {
          return TooLarge(totalSize);
        } else if totalSize <= unpackSize {
          var pkt := Take(size);
          return Packet(pkt);
        } else if totalSize > buf.Length {
          Grow(totalSize);
        } else if r > 0 {
          Compact();
        }
      } else if r > 0 {
        Compact();
      }
      return NeedMore;
    }

    /** recv: one payload, or the reason why not. Whatever happens, no byte of the stream is
        lost, duplicated or reordered. */
    method Recv(conn: Conn) returns (res: Received)
      requires Valid()
      modifies this, buf, conn
      ensures Valid() && (buf == old(buf) || fresh(buf)) && Explained(res)
      ensures res.Packet? ==>
                Admissible(res.payload, maxSize) && old(Window() + conn.rest) == Frame(res.payload) + (Window() + conn.rest)
      ensures !res.Packet? ==> Window() + conn.rest == old(Window() + conn.rest)
      ensures old(conn.Flowing()) ==> conn.Flowing()
      ensures old(conn.Flowing()) && res == NeedMore ==> conn.rest == [] && Incomplete(Window())
    {
      ghost var all := Window() + conn.rest;
      while true
        invariant Valid() && (buf == old(buf) || fresh(buf))
        invariant Window() + conn.rest == all
        invariant old(conn.Flowing()) ==> conn.Flowing()
        decreases |conn.plan|
      {
        res := Unpack();
        if res.Packet? {
          assert Frame(res.payload) + Window() + conn.rest == Frame(res.payload) + (Window() + conn.rest);
        }
        if res != NeedMore { return; }
        var failed := Fill(conn);
        if failed { return; }
      }
    }
  }

  /** The receive loop: payloads until something other than a packet comes back. */
  method ReceiveAll(reader: FrameReader, conn: Conn) returns (ps: seq<seq<Byte>>, last: Received)
    requires reader.Valid()
    modifies reader, reader.buf, conn
    ensures reader.Valid() && !last.Packet? && reader.Explained(last)
    ensures AllAdmissible(ps, reader.maxSize)
    ensures old(reader.Window() + conn.rest) == Stream(ps, reader.maxSize) + (reader.Window() + conn.rest)
    ensures old(conn.Flowing()) && last == NeedMore ==> conn.rest == [] && Incomplete(reader.Window())
  {
    ps := [];
    ghost var all := reader.Window() + conn.rest;
    ghost var tail := all;
    while true
      invariant reader.Valid() && (reader.buf == old(reader.buf) || fresh(reader.buf))
      invariant AllAdmissible(ps, reader.maxSize) && all == Stream(ps, reader.maxSize) + tail
      invariant tail == reader.Window() + conn.rest
      invariant old(conn.Flowing()) ==> conn.Flowing()
      decreases |tail|
    {
      last := reader.Recv(conn);
      if !last.Packet? { return; }
      StreamShift(ps, last.payload, reader.Window() + conn.rest, reader.maxSize);
      ps, tail := ps + [last.payload], reader.Window() + conn.rest;
    }
  }

  lemma StreamShift(ps: seq<seq<Byte>>, p: seq<Byte>, tail: seq<Byte>, maxSize: nat)
    requires AllAdmissible(ps, maxSize) && Admissible(p, maxSize)
    ensures AllAdmissible(ps + [p], maxSize)
    ensures Stream(ps, maxSize) + (Frame(p) + tail) == Stream(ps + [p], maxSize) + tail
  {
    StreamAppend(ps, p, maxSize);
    assert Stream(ps, maxSize) + (Frame(p) + tail) == Stream(ps, maxSize) + Frame(p) + tail;
  }

  lemma {:induction false} StreamAppend(ps: seq<seq<Byte>>, p: seq<Byte>, maxSize: nat)
    requires AllAdmissible(ps, maxSize) && Admissible(p, maxSize)
    ensures AllAdmissible(ps + [p], maxSize)
    ensures Stream(ps + [p], maxSize) == Stream(ps, maxSize) + Frame(p)
  {
    if ps == [] {
      assert ps + [p] == [p] && [p][1..] == [];
    } else {
      assert (ps + [p])[1..] == ps[1..] + [p];
      StreamAppend(ps[1..], p, maxSize);
    }
  }

  /** The first frame of a byte sequence is unique. */
  lemma FrameUnique(p: seq<Byte>, q: seq<Byte>, s: seq<Byte>, t: seq<Byte>)
    requires |p| < TWO32 && |q| < TWO32 && Frame(p) + s == Frame(q) + t
    ensures p == q && s == t
  {
    var a, b := U32(|p|) + (p + s), U32(|q|) + (q + t);
    assert Frame(p) + s == a && Frame(q) + t == b;
    RoundTrip32(|p|, p + s);
    RoundTrip32(|q|, q + t);
    assert a[4..] == p + s && b[4..] == q + t;
    assert (p + s)[..|p|] == p && (q + t)[..|q|] == q;
    assert (p + s)[|p|..] == s && (q + t)[|q|..] == t;
  }

  /** What was taken from the stream of `qs` is a prefix of `qs`, and the bytes left over are
      the stream of the remaining payloads. */
  lemma {:induction false} TakenIsPrefix(ps: seq<seq<Byte>>, left: seq<Byte>, qs: seq<seq<Byte>>, maxSize: nat)
    requires AllAdmissible(ps, maxSize) && AllAdmissible(qs, maxSize)
    requires Stream(ps, maxSize) + left == Stream(qs, maxSize)
    ensures ps <= qs && left == Stream(qs[|ps|..], maxSize)
  {
    if ps == [] {
      assert Stream(ps, maxSize) + left == left;
    } else {
      assert qs != [];
      assert Stream(ps, maxSize) + left == Frame(ps[0]) + (Stream(ps[1..], maxSize) + left);
      FrameUnique(ps[0], qs[0], Stream(ps[1..], maxSize) + left, Stream(qs[1..], maxSize));
      TakenIsPrefix(ps[1..], left, qs[1..], maxSize);
      assert qs[1..][|ps| - 1..] == qs[|ps|..];
    }
  }

  /** A stream of admissible frames never shows an oversized or empty frame, at any cut. */
  lemma NeverRejected(qs: seq<seq<Byte>>, window: seq<Byte>, rest: seq<Byte>, maxSize: nat)
    requires AllAdmissible(qs, maxSize) && window + rest == Stream(qs, maxSize) && |window| >= HEAD_LEN
    ensures 0 < N32(window) && N32(window) + HEAD_LEN <= maxSize
  {
    assert qs != [];
    var tail := qs[0] + Stream(qs[1..], maxSize);
    assert Stream(qs, maxSize) == U32(|qs[0]|) + tail;
    RoundTrip32(|qs[0]|, tail);
    assert (window + rest)[..4] == window[..4];
    SameHead(window, window + rest);
  }

  lemma SameHead(a: seq<Byte>, b: seq<Byte>)
    requires |a| >= 4 && |b| >= 4 && a[..4] == b[..4]
    ensures N32(a) == N32(b)
  {
    assert a[0] == a[..4][0] && a[1] == a[..4][1] && a[2] == a[..4][2] && a[3] == a[..4][3];
    assert b[0] == b[..4][0] && b[1] == b[..4][1] && b[2] == b[..4][2] && b[3] == b[..4][3];
  }

  /** A non-empty stream of frames starts with a whole frame. */
  lemma WholeFrame(qs: seq<seq<Byte>>, maxSize: nat)
    requires AllAdmissible(qs, maxSize) && qs != []
    ensures !Incomplete(Stream(qs, maxSize))
  {
    var tail := qs[0] + Stream(qs[1..], maxSize);
    assert Stream(qs, maxSize) == U32(|qs[0]|) + tail;
    RoundTrip32(|qs[0]|, tail);
  }

  /** For every list of payloads, every part of their stream that was sent, every chunking and
      every buffer size, the receive loop hands out a prefix of the payloads in order and stops
      only because a read failed. When the whole stream was sent and reads keep coming, it hands
      out all of them. */
  method ReceiveExact(bytes: seq<Byte>, plan: seq<Chunk>, capacity: nat, maxSize: nat, ghost qs: seq<seq<Byte>>)
    returns (ps: seq<seq<Byte>>, last: Received)
    requires AllAdmissible(qs, maxSize) && bytes <= Stream(qs, maxSize) && capacity >= HEAD_LEN
    ensures ps <= qs && last == NeedMore
    ensures bytes == Stream(qs, maxSize) && Flows(plan, |bytes|) ==> ps == qs
  {
    var reader := new FrameReader(capacity, maxSize);
    var conn := new Conn(bytes, plan);
    ghost var flowing := conn.Flowing();
    assert reader.Window() + conn.rest == bytes;
    ps, last := ReceiveAll(reader, conn);
    ghost var window, rest := reader.Window(), conn.rest;
    ghost var unsent := Stream(qs, maxSize)[|bytes|..];
    Rejoin(Stream(ps, maxSize), window, rest, unsent, bytes, Stream(qs, maxSize));
    TakenIsPrefix(ps, window + (rest + unsent), qs, maxSize);
    if |window| >= HEAD_LEN {
      NeverRejected(qs[|ps|..], window, rest + unsent, maxSize);
    }
    if flowing && unsent == [] {
      assert window + (rest + unsent) == window;
      if qs[|ps|..] != [] {
        WholeFrame(qs[|ps|..], maxSize);
        assert false;
      }
    }
  }

  lemma Rejoin(taken: seq<Byte>, window: seq<Byte>, rest: seq<Byte>, unsent: seq<Byte>, bytes: seq<Byte>, all: seq<Byte>)
    requires bytes <= all && unsent == all[|bytes|..] && bytes == taken + (window + rest)
    ensures taken + (window + (rest + unsent)) == all
  {
    assert window + (rest + unsent) == window + rest + unsent;
    assert taken + (window + rest + unsent) == taken + (window + rest) + unsent;
    assert all == bytes + unsent;
  }
}
