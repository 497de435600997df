/** Sequence numbers of RPC calls: the upper 32 bits are a timestamp in seconds, the lower 32
    bits count the calls made under it. */
module Sequence {
  import opened Basics

  const SHARDS := 32

  type Uint32 = x: int | 0 <= x < TWO32

  datatype Clock = Clock(timestamp: Uint32, nextSequence: Uint32)

  /** One more, in 32 bits. */
  function Bump(n: Uint32): (r: Uint32)
    ensures r == if n == TWO32 - 1 then 0 else n + 1
  {
    (n + 1) % TWO32
  }

  /** The counter is a 32-bit integer and wraps around. A caller may bring a timestamp that is
      older than the stored one, because it is read before the lock is taken. */
  function Tick(c: Clock, timestamp: Uint32): Clock {
    if timestamp > c.timestamp then Clock(timestamp, 1)
    else c.(nextSequence := Bump(c.nextSequence))
  }

  function Number(c: Clock): nat {
    c.timestamp * TWO32 + c.nextSequence
  }

  class Generator {
    var nextSequence: Uint32
    var timestamp: Uint32

    constructor ()
      ensures Now() == Clock(0, 0)
    {
      nextSequence, timestamp := 0, 0;
    }

    ghost function Now(): Clock
      reads this
    {
      Clock(timestamp, nextSequence)
    }

    /** makeSequence, with the timestamp read before locking. */
    method MakeSequence(now: Uint32) returns (number: nat)
      modifies this
      ensures Now() == Tick(old(Now()), now)
      ensures number == Number(Now())
    {
      if now > timestamp {
        timestamp := now;
        nextSequence := 1;
      } else {
        nextSequence := Bump(nextSequence);
      }
      number := timestamp * TWO32 + nextSequence;
    }
  }

  /** The counter has run through all its values under the stored timestamp. */
  predicate Exhausted(c: Clock, timestamp: Uint32) {
    timestamp <= c.timestamp && c.nextSequence == TWO32 - 1
  }

  /** A number is larger than its predecessor exactly when the counter is not exhausted. */
  lemma TickExact(c: Clock, timestamp: Uint32)
    ensures Number(Tick(c, timestamp)) > Number(c) <==> !Exhausted(c, timestamp)
  {
    if timestamp > c.timestamp {
      assert timestamp * TWO32 >= (c.timestamp + 1) * TWO32;
    }
  }

  function After(c: Clock, stamps: seq<Uint32>): Clock {
    if stamps == [] then c else Tick(After(c, stamps[..|stamps| - 1]), stamps[|stamps| - 1])
  }

  /** The number handed to the i-th caller of a run. */
  function Issued(c: Clock, stamps: seq<Uint32>, i: nat): nat
    requires i < |stamps|
  {
    Number(After(c, stamps[..i + 1]))
  }

  predicate NeverExhausted(c: Clock, stamps: seq<Uint32>) {
    forall i :: 0 <= i < |stamps| ==> !Exhausted(After(c, stamps[..i]), stamps[i])
  }

  lemma AfterStep(c: Clock, stamps: seq<Uint32>, i: nat)
    requires i < |stamps|
    ensures After(c, stamps[..i + 1]) == Tick(After(c, stamps[..i]), stamps[i])
  {
    assert stamps[..i + 1][..i] == stamps[..i];
  }

  lemma {:induction false} LaterIsLarger(c: Clock, stamps: seq<Uint32>, i: nat, j: nat)
    requires NeverExhausted(c, stamps) && i < j < |stamps|
    ensures Issued(c, stamps, i) < Issued(c, stamps, j)
    decreases j
  {
    AfterStep(c, stamps, j);
    TickExact(After(c, stamps[..j]), stamps[j]);
    if i < j - 1 { LaterIsLarger(c, stamps, i, j - 1); }
  }

  /** How many calls have been made under the timestamp that is stored after a run. */
  function Held(stamps: seq<Uint32>): nat {
    if stamps == [] then 0
    else
      var init, last := stamps[..|stamps| - 1], stamps[|stamps| - 1];
      if last > After(Clock(0, 0), init).timestamp then 1 else Held(init) + 1
  }

  /** Up to 2^32 - 1 the counter is the number of calls under the stored timestamp. */
  lemma {:induction false} CounterExact(stamps: seq<Uint32>)
    requires Held(stamps) < TWO32
    ensures After(Clock(0, 0), stamps).nextSequence == Held(stamps)
  {
    if stamps != [] && stamps[|stamps| - 1] <= After(Clock(0, 0), stamps[..|stamps| - 1]).timestamp {
      CounterExact(stamps[..|stamps| - 1]);
    }
  }

  /** Never more than 2^32 - 1 calls under one stored timestamp. */
  predicate FewPerTimestamp(stamps: seq<Uint32>) {
    forall i :: 0 <= i <= |stamps| ==> Held(stamps[..i]) < TWO32
  }

  lemma FewStep(stamps: seq<Uint32>)
    requires stamps != []
    ensures FewPerTimestamp(stamps) <==> FewPerTimestamp(stamps[..|stamps| - 1]) && Held(stamps) < TWO32
  {
    var init := stamps[..|stamps| - 1];
    assert stamps[..|stamps|] == stamps;
    forall i | 0 <= i <= |init| ensures stamps[..i] == init[..i] {
    }
    if FewPerTimestamp(init) && Held(stamps) < TWO32 {
      forall i | 0 <= i <= |stamps| ensures Held(stamps[..i]) < TWO32 {
        if i < |stamps| { assert Held(init[..i]) < TWO32; }
      }
    }
  }

  lemma NeverExhaustedStep(c: Clock, stamps: seq<Uint32>)
    requires stamps != []
    ensures NeverExhausted(c, stamps) <==>
            NeverExhausted(c, stamps[..|stamps| - 1]) && !Exhausted(After(c, stamps[..|stamps| - 1]), stamps[|stamps| - 1])
  {
    var init := stamps[..|stamps| - 1];
    forall i | 0 <= i < |init| ensures stamps[..i] == init[..i] {
    }
    if NeverExhausted(c, stamps) {
      forall i | 0 <= i < |init| ensures !Exhausted(After(c, init[..i]), init[i]) {
        assert !Exhausted(After(c, stamps[..i]), stamps[i]);
      }
    } else {
      var i :| 0 <= i < |stamps| && Exhausted(After(c, stamps[..i]), stamps[i]);
      if i < |init| { assert Exhausted(After(c, init[..i]), init[i]); }
    }
  }

  lemma LastCallExact(stamps: seq<Uint32>)
    requires stamps != [] && Held(stamps[..|stamps| - 1]) < TWO32
    ensures Exhausted(After(Clock(0, 0), stamps[..|stamps| - 1]), stamps[|stamps| - 1]) <==> Held(stamps) >= TWO32
  {
    var init := stamps[..|stamps| - 1];
    CounterExact(init);
  }

  lemma FewMeansFew(stamps: seq<Uint32>)
    requires FewPerTimestamp(stamps)
    ensures Held(stamps) < TWO32
  {
    assert stamps[..|stamps|] == stamps;
  }

  /** The counter runs out exactly when more than 2^32 - 1 calls fall under one timestamp. */
  lemma {:induction false} ExhaustionExact(stamps: seq<Uint32>)
    ensures NeverExhausted(Clock(0, 0), stamps) <==> FewPerTimestamp(stamps)
  {
    if stamps == [] {
      assert stamps[..0] == [];
    } else {
      var init := stamps[..|stamps| - 1];
      ExhaustionExact(init);
      FewStep(stamps);
      NeverExhaustedStep(Clock(0, 0), stamps);
      if FewPerTimestamp(init) {
        FewMeansFew(init);
        LastCallExact(stamps);
      }
    }
  }

  /** Over every run, stale timestamps included, the numbers strictly increase if and only if
      never more than 2^32 - 1 calls are made under one stored timestamp. */
  lemma RunIncreasingExact(stamps: seq<Uint32>)
    ensures (forall i, j :: 0 <= i < j < |stamps| ==> Issued(Clock(0, 0), stamps, i) < Issued(Clock(0, 0), stamps, j))
            <==> FewPerTimestamp(stamps)
  {
    var c := Clock(0, 0);
    ExhaustionExact(stamps);
    if NeverExhausted(c, stamps) {
      forall i, j | 0 <= i < j < |stamps| ensures Issued(c, stamps, i) < Issued(c, stamps, j) {
        LaterIsLarger(c, stamps, i, j);
      }
    } else {
      var j :| 0 <= j < |stamps| && Exhausted(After(c, stamps[..j]), stamps[j]);
      assert j > 0;
      AfterStep(c, stamps, j);
      TickExact(After(c, stamps[..j]), stamps[j]);
      assert stamps[..j - 1 + 1] == stamps[..j];
      assert Issued(c, stamps, j) <= Issued(c, stamps, j - 1);
    }
  }

  // ---- What a number says ----

  /** The upper half of a number is the newest timestamp any caller has brought so far. */
  function Newest(stamps: seq<Uint32>): Uint32 {
    if stamps == [] then 0
    else
      var rest := Newest(stamps[..|stamps| - 1]);
      if stamps[|stamps| - 1] > rest then stamps[|stamps| - 1] else rest
  }

  lemma {:induction false} NewestExact(stamps: seq<Uint32>)
    ensures forall i :: 0 <= i < |stamps| ==> stamps[i] <= Newest(stamps)
    ensures stamps != [] ==> Newest(stamps) in stamps
  {
    if stamps != [] {
      var init := stamps[..|stamps| - 1];
      NewestExact(init);
      forall i | 0 <= i < |init| ensures stamps[i] <= Newest(init) {
        assert stamps[i] == init[i];
      }
    }
  }

  lemma {:induction false} StoredIsNewest(stamps: seq<Uint32>)
    ensures After(Clock(0, 0), stamps).timestamp == Newest(stamps)
  {
    if stamps != [] { StoredIsNewest(stamps[..|stamps| - 1]); }
  }

  lemma Parts(c: Clock)
    ensures Number(c) / TWO32 == c.timestamp && Number(c) % TWO32 == c.nextSequence
  {
  }

  /** The i-th number of a run: its upper half is the newest timestamp among the first i + 1 callers,
      its lower half how many of them have been served under it. */
  lemma IssuedExact(stamps: seq<Uint32>, i: nat)
    requires i < |stamps| && Held(stamps[..i + 1]) < TWO32
    ensures Issued(Clock(0, 0), stamps, i) / TWO32 == Newest(stamps[..i + 1])
    ensures Issued(Clock(0, 0), stamps, i) % TWO32 == Held(stamps[..i + 1])
  {
    StoredIsNewest(stamps[..i + 1]);
    CounterExact(stamps[..i + 1]);
    Parts(After(Clock(0, 0), stamps[..i + 1]));
  }

  // ---- The sharded pending map ----

  /** int(seq): the 64-bit number read as a signed integer. */
  function Signed(number: nat): int
    requires number < TWO32 * TWO32
  {
    if number < TWO32 * TWO32 / 2 then number else number - TWO32 * TWO32
  }

  /** The remainder of a signed division truncates toward zero. */
  function TruncRem(x: int, m: nat): int
    requires m > 0
  {
    if x >= 0 then x % m else -((-x) % m)
  }

  function Shard(number: nat): int
    requires number < TWO32 * TWO32
  {
    TruncRem(Signed(number), SHARDS)
  }

  /** The shard index is in range exactly when the timestamp has not reached 2^31, or the low
      five bits of the counter are zero. */
  lemma ShardInRangeExact(c: Clock)
    ensures Number(c) < TWO32 * TWO32
    ensures 0 <= Shard(Number(c)) < 32 <==> c.timestamp < 0x8000_0000 || c.nextSequence % 32 == 0
  {
    var n := Number(c);
    assert n <= (TWO32 - 1) * TWO32 + TWO32 - 1;
    if c.timestamp < TWO32 / 2 {
      assert n < TWO32 / 2 * TWO32;
    } else {
      assert n >= TWO32 / 2 * TWO32;
      var y := TWO32 * TWO32 - n;
      assert y == (TWO32 - c.timestamp) * TWO32 - c.nextSequence;
      ShardResidue(TWO32 - c.timestamp, c.nextSequence);
    }
  }

  /** The first number made under the timestamp 2^31. */
  lemma NegativeShard()
    ensures Shard(Number(Clock(TWO32 / 2, 1))) == -31
  {
  }

  lemma ShardResidue(a: int, b: int)
    ensures (a * TWO32 - b) % SHARDS == 0 <==> b % SHARDS == 0
  {
    var q, r := b / SHARDS, b % SHARDS;
    var m := a * 0x800_0000 - q;
    assert a * TWO32 - b == SHARDS * m - r;
    Residue(m, r);
  }

  lemma Residue(m: int, r: int)
    requires 0 <= r < SHARDS
    ensures (SHARDS * m - r) % SHARDS == 0 <==> r == 0
  {
    if r > 0 { assert SHARDS * m - r == SHARDS * (m - 1) + (SHARDS - r); }
  }
}
