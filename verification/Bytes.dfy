/** Big-endian integers in byte sequences. */
module Bytes {
  import opened Basics

  type Byte = b: int | 0 <= b < 256

  function Low(v: nat): Byte { v % 256 }

  /** The conversion to 16 bits. */
  function Wrap16(n: nat): (r: nat)
    ensures r < TWO16 && (n < TWO16 ==> r == n)
  {
    n % TWO16
  }

  /** The conversion to 32 bits. */
  function Wrap32(n: nat): (r: nat)
    ensures r < TWO32 && (n < TWO32 ==> r == n)
  {
    n % TWO32
  }

  function U16(v: nat): (s: seq<Byte>)
    requires v < TWO16
    ensures |s| == 2
  {
    [Low(v / 256), Low(v)]
  }

  function U32(v: nat): (s: seq<Byte>)
    requires v < TWO32
    ensures |s| == 4
  {
    U16(v / TWO16) + U16(v % TWO16)
  }

  function U64(v: nat): (s: seq<Byte>)
    requires v < TWO64
    ensures |s| == 8
  {
    U32(v / TWO32) + U32(v % TWO32)
  }

  function N16(s: seq<Byte>): (v: nat)
    requires |s| >= 2
    ensures v < TWO16
  {
    var hi: int, lo: int := s[0], s[1];
    hi * 256 + lo
  }

  function N32(s: seq<Byte>): (v: nat)
    requires |s| >= 4
    ensures v < TWO32
  {
    N16(s) * TWO16 + N16(s[2..])
  }

  function N64(s: seq<Byte>): (v: nat)
    requires |s| >= 8
    ensures v < TWO64
  {
    N32(s) * TWO32 + N32(s[4..])
  }

  lemma Halves(v: nat, unit: nat)
    requires unit > 0
    ensures v / unit * unit + v % unit == v
  {
  }

  lemma Joined(hi: nat, lo: nat)
    requires lo < TWO16
    ensures (hi * TWO16 + lo) / TWO16 == hi && (hi * TWO16 + lo) % TWO16 == lo
  {
  }

  lemma RoundTrip16(v: nat, tail: seq<Byte>)
    requires v < TWO16
    ensures N16(U16(v) + tail) == v
  {
  }

  lemma RoundTrip32(v: nat, tail: seq<Byte>)
    requires v < TWO32
    ensures N32(U32(v) + tail) == v
  {
    var a, b := v / TWO16, v % TWO16;
    var s := U32(v) + tail;
    assert s == U16(a) + (U16(b) + tail);
    assert s[2..] == U16(b) + tail;
    RoundTrip16(a, U16(b) + tail);
    RoundTrip16(b, tail);
    Halves(v, TWO16);
  }

  lemma RoundTrip64(v: nat, tail: seq<Byte>)
    requires v < TWO64
    ensures N64(U64(v) + tail) == v
  {
    var a, b := v / TWO32, v % TWO32;
    var s := U64(v) + tail;
    assert s == U32(a) + (U32(b) + tail);
    assert s[4..] == U32(b) + tail;
    RoundTrip32(a, U32(b) + tail);
    RoundTrip32(b, tail);
    Halves(v, TWO32);
  }

  lemma Inverse16(s: seq<Byte>)
    requires |s| >= 2
    ensures U16(N16(s)) == s[..2]
  {
  }

  /** Four bytes are determined by the number they spell. */
  lemma Inverse32(s: seq<Byte>)
    requires |s| >= 4
    ensures U32(N32(s)) == s[..4]
  {
    var hi, lo := N16(s), N16(s[2..]);
    Joined(hi, lo);
    assert U32(N32(s)) == U16(hi) + U16(lo);
    Inverse16(s);
    Inverse16(s[2..]);
    assert s[..4] == s[..2] + s[2..][..2];
  }

  /** And so are eight. */
  lemma Inverse64(s: seq<Byte>)
    requires |s| >= 8
    ensures U64(N64(s)) == s[..8]
  {
    var hi, lo := N32(s), N32(s[4..]);
    assert (hi * TWO32 + lo) / TWO32 == hi && (hi * TWO32 + lo) % TWO32 == lo;
    assert U64(N64(s)) == U32(hi) + U32(lo);
    Inverse32(s);
    Inverse32(s[4..]);
    assert s[..8] == s[..4] + s[4..][..4];
  }

  /** The bytes of a number, most significant first. */
  lemma BigEndian16(v: nat)
    requires v < 65536
    ensures U16(v) == [v / 256, v % 256]
  {
  }

  lemma BigEndian32(v: nat)
    requires v < 0x1_0000_0000
    ensures U32(v) == U16(v / 65536) + U16(v % 65536)
  {
  }

  lemma BigEndian64(v: nat)
    requires v < 0x1_0000_0000_0000_0000
    ensures U64(v) == U32(v / 0x1_0000_0000) + U32(v % 0x1_0000_0000)
  {
  }
}
