/** Reading the 64-bit system time out of two 32-bit registers that are not latched together. */
module Systim {
  import opened Arith

  const TWO_TO_64: nat := 0x1_0000_0000_0000_0000
  const INCVALUE_MASK: nat := 0x00FF_FFFF

  function Low(c: nat): nat { c % TWO_TO_32 }

  function High(c: nat): nat { c / TWO_TO_32 }

  /** The hardware counter. Before each register read it advances by at most `step`; the
      ghost `seen` lists its values at the reads. */
  class Clock {
    const step: nat
    var now: nat
    ghost var seen: seq<nat>

    constructor (step: nat, now: nat)
      ensures this.step == step && this.now == now && seen == []
    {
      this.step, this.now, seen := step, now, [];
    }

    method Tick()
      modifies this
      ensures old(now) <= now <= old(now) + step && seen == old(seen) + [now]
    {
      var d: int := *;
      now := now + if 0 <= d <= step then d else step;
      seen := seen + [now];
    }

    method ReadLow() returns (v: nat)
      modifies this
      ensures old(now) <= now <= old(now) + step && seen == old(seen) + [now] && v == Low(now)
    {
      Tick();
      v := now % TWO_TO_32;
    }

    method ReadHigh() returns (v: nat)
      modifies this
      ensures old(now) <= now <= old(now) + step && seen == old(seen) + [now] && v == High(now) % TWO_TO_32
    {
      Tick();
      v := now / TWO_TO_32 % TWO_TO_32;
    }
  }

  /** What the driver combines from its register reads: the low word, the high word, and if
      the low word was close to its end, both again. */
  function Combined(c1: nat, c2: nat, c3: nat, c4: nat): nat {
    if Low(c1) >= TWO_TO_32 - 1 - INCVALUE_MASK && Low(c1) > Low(c3)
    then Low(c3) + TWO_TO_32 * High(c4)
    else Low(c1) + TWO_TO_32 * High(c2)
  }

  /** The counter at four successive reads, no more than `step` apart. */
  ghost predicate Reads(c1: nat, c2: nat, c3: nat, c4: nat, step: nat) {
    c1 <= c2 <= c1 + step && c2 <= c3 <= c2 + step && c3 <= c4 <= c3 + step
  }

  /** Without a carry out of the low word the high words agree, and with one they differ by
      one and the low word falls. */
  lemma Carry(a: nat, b: nat)
    requires a <= b < a + TWO_TO_32
    ensures if Low(a) + (b - a) < TWO_TO_32
      then High(b) == High(a) && Low(b) == Low(a) + (b - a)
      else High(b) == High(a) + 1 && Low(b) == Low(a) + (b - a) - TWO_TO_32
  {
  }

  lemma NotTorn(c1: nat, c2: nat, c3: nat, c4: nat, step: nat)
    requires Reads(c1, c2, c3, c4, step) && step <= INCVALUE_MASK + 1
    ensures Combined(c1, c2, c3, c4) == if Low(c1) >= TWO_TO_32 - 1 - INCVALUE_MASK && Low(c1) > Low(c3) then c3 else c1
  {
    Carry(c1, c2);
    Carry(c1, c3);
    Carry(c3, c4);
  }

  /** The read is never torn exactly when the counter cannot advance by more than 2^24
      between two reads; one more and a read can combine two different times. */
  lemma NeverTornIff(step: nat)
    ensures (forall c1: nat, c2: nat, c3: nat, c4: nat :: Reads(c1, c2, c3, c4, step) ==>
               Combined(c1, c2, c3, c4) in {c1, c2, c3, c4})
       <==> step <= INCVALUE_MASK + 1
  {
    if step <= INCVALUE_MASK + 1 {
      forall c1: nat, c2: nat, c3: nat, c4: nat | Reads(c1, c2, c3, c4, step)
        ensures Combined(c1, c2, c3, c4) in {c1, c2, c3, c4}
      {
        NotTorn(c1, c2, c3, c4, step);
      }
    } else {
      var c1, c2 := 0xFEFF_FFFF, 0x1_0000_0000;
      assert Reads(c1, c2, c2, c2, step);
      assert Combined(c1, c2, c2, c2) == 0x1_FEFF_FFFF;
    }
  }

  /** The value read before it is sanitised is one the counter held at a read of this call. */
  method ReadSystim(clock: Clock) returns (systim: nat)
    requires clock.step <= INCVALUE_MASK + 1 && clock.now + 4 * clock.step < TWO_TO_64
    modifies clock
    ensures old(clock.seen) <= clock.seen && systim in clock.seen[|old(clock.seen)|..]
    ensures old(clock.now) <= systim <= clock.now
  {
    ghost var c0 := clock.now;
    var systimel := clock.ReadLow();
    ghost var c1 := clock.now;
    var systimeh := clock.ReadHigh();
    ghost var c2 := clock.now;
    SmallHigh(c2);
    NotTorn(c1, c2, c2, c2, clock.step);
    if systimel >= 0xFFFF_FFFF - INCVALUE_MASK {
      var systimel2 := clock.ReadLow();
      ghost var c3 := clock.now;
      NotTorn(c1, c2, c3, c3, clock.step);
      if systimel > systimel2 {
        systimeh := clock.ReadHigh();
        systimel := systimel2;
        ghost var c4 := clock.now;
        SmallHigh(c4);
        NotTorn(c1, c2, c3, c4, clock.step);
        assert clock.seen[|old(clock.seen)| + 2] == c3;
      }
    }
    systim := systimel + TWO_TO_32 * systimeh;
    assert clock.seen[|old(clock.seen)|] == c1;
  }

  lemma SmallHigh(c: nat)
    requires c < TWO_TO_64
    ensures High(c) % TWO_TO_32 == High(c)
  {
  }
}
