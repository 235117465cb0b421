/** Encoding a latency tolerance as a 10-bit value and a 3-bit scale (section 6.18 of the
    PCI Express Base Specification 3.0), and the comparison with the platform's maximum. */
module Ltr {
  import opened Arith

  const VALUE_MASK: nat := 0x3FF
  const SCALE_MAX: nat := 5
  const PBA_RXA_MASK: nat := 0xFFFF

  /** 32^s, one unit at scale s. */
  function Unit(s: nat): nat
    ensures Unit(s) > 0
  {
    if s == 0 then 1 else 32 * Unit(s - 1)
  }

  /** A quotient rounded up is the least multiple that reaches the value. */
  lemma CeilDivIs(v: nat, d: nat, q: int)
    requires d > 0
    ensures q == CeilDiv(v, d) <==> (q - 1) * d < v <= q * d
  {
    var c := CeilDiv(v, d);
    assert v + d - 1 == c * d + (v + d - 1) % d;
    assert (c - 1) * d == c * d - d;
    MulLe(d, q, c - 1);
    MulLe(d, c, q - 1);
  }

  /** Rounding up twice is rounding up once. */
  lemma {:induction false} CeilDivTwice(v: nat, a: nat, b: nat)
    requires a > 0 && b > 0
    ensures b * a > 0 && CeilDiv(CeilDiv(v, a), b) == CeilDiv(v, b * a)
  {
    var p: int := CeilDiv(v, a);
    var q: int := CeilDiv(p, b);
    CeilDivIs(v, a, p);
    CeilDivIs(p, b, q);
    Times(b, a);
    MulLe(a, p, q * b);
    MulAssociates(q, b, a);
    MulAssociates(q - 1, b, a);
    MulLe(a, (q - 1) * b, p - 1);
    CeilDivIs(v, b * a, q);
  }

  lemma Times(a: nat, b: nat)
    requires a > 0 && b > 0
    ensures a * b > 0
  {
  }

  lemma MulAssociates(q: int, b: nat, a: nat)
    ensures (q * b) * a == q * (b * a)
  {
  }

  function Encode(scale: nat, value: nat): nat { scale * 1024 + value }

  /** The latency an encoding stands for. */
  function Decode(enc: nat): nat { (enc % 1024) * Unit(enc / 1024 % 8) }

  lemma Units()
    ensures Unit(1) == 32 && Unit(2) == 0x400 && Unit(3) == 0x8000 && Unit(4) == 0x10_0000 && Unit(5) == 0x200_0000
  {
    assert Unit(1) == 32 * Unit(0);
    assert Unit(3) == 32 * Unit(2);
  }

  /** The scaling loop: the smallest scale at which the rounded-up value fits 10 bits. */
  method Scale(v: nat) returns (scale: nat, value: nat)
    ensures value <= VALUE_MASK && value == CeilDiv(v, Unit(scale))
    ensures v <= value * Unit(scale) < v + Unit(scale)
    ensures scale > 0 ==> CeilDiv(v, Unit(scale - 1)) > VALUE_MASK
  {
    scale, value := 0, v;
    while value > VALUE_MASK
      invariant value == CeilDiv(v, Unit(scale))
      invariant scale > 0 ==> CeilDiv(v, Unit(scale - 1)) > VALUE_MASK
      decreases value
    {
      CeilDivTwice(v, Unit(scale), 32);
      assert Unit(scale + 1) == 32 * Unit(scale);
      scale := scale + 1;
      value := (value + 31) / 32;
    }
    CeilDivIs(v, Unit(scale), value);
    assert (value - 1) * Unit(scale) == value * Unit(scale) - Unit(scale);
  }

  /** A value of 32 bits never needs a scale above 5. */
  lemma ScaleFits(v: nat, scale: nat)
    requires v < TWO_TO_32 && (scale > 0 ==> CeilDiv(v, Unit(scale - 1)) > VALUE_MASK)
    ensures scale <= SCALE_MAX
  {
    Units();
    if scale > 0 {
      var c := CeilDiv(v, Unit(scale - 1));
      CeilDivIs(v, Unit(scale - 1), c);
      if SCALE_MAX <= scale - 1 { UnitGrows(SCALE_MAX, scale - 1); }
      MulLe(Unit(scale - 1), 1023, c - 1);
    }
  }

  lemma Product(a: nat, b: nat, c: nat, d: nat)
    requires a >= c && b >= d
    ensures a * b >= c * d
  {
    assert a * b >= a * d;
    assert a * d >= c * d;
  }

  lemma {:induction false} UnitGrows(a: nat, b: nat)
    requires a <= b
    ensures Unit(a) <= Unit(b)
    decreases b
  {
    if a < b { UnitGrows(a, b - 1); }
  }

  lemma DecodeEncode(scale: nat, value: nat)
    requires scale <= 7 && value <= VALUE_MASK
    ensures Decode(Encode(scale, value)) == value * Unit(scale)
  {
    hide Unit, Encode;
    Fields(scale, value);
  }

  lemma Fields(scale: nat, value: nat)
    requires scale <= 7 && value <= VALUE_MASK
    ensures Encode(scale, value) % 1024 == value && Encode(scale, value) / 1024 % 8 == scale
  {
  }

  /** At scale 5 a value of 128 is exactly 2^32; below that every decode fits 32 bits. */
  lemma WhenDecodeFits(v: nat, scale: nat, value: nat)
    requires v < TWO_TO_32 && scale <= SCALE_MAX && value <= VALUE_MASK && value == CeilDiv(v, Unit(scale))
    ensures value * Unit(scale) < TWO_TO_32 <==> v <= 127 * 0x200_0000 || scale < SCALE_MAX
    ensures value * Unit(scale) <= TWO_TO_32
    ensures scale < SCALE_MAX ==> v <= 127 * 0x200_0000
  {
    Units();
    CeilDivIs(v, Unit(scale), value);
    if scale < SCALE_MAX {
      UnitGrows(scale, 4);
      Product(1023, 0x10_0000, value, Unit(scale));
    }
  }

  /** The latency the device tolerates, as 32-bit arithmetic computes it. */
  function Tolerance(rxa: nat, maxFrame: nat, speed: nat): (v: nat)
    requires speed > 0
    ensures v < TWO_TO_32
  {
    if rxa * 512 > maxFrame then (rxa * 512 - maxFrame) * (16000 / speed) % TWO_TO_32 else 0
  }

  /** The tolerance is the time in ns, at the given speed in Mb/s and 8 bits a byte, in which a
      buffer of `rxa` KB fills up beyond two frames; it is 0 if the buffer does not hold more. */
  lemma ToleranceIsTime(rxa: nat, maxFrame: nat, speed: nat)
    requires speed == 10 || speed == 100 || speed == 1000
    ensures rxa * 1024 <= 2 * maxFrame ==> Tolerance(rxa, maxFrame, speed) == 0
    ensures 2 * maxFrame < rxa * 1024 && (rxa * 1024 - 2 * maxFrame) * 8000 < TWO_TO_32 * speed ==>
      Tolerance(rxa, maxFrame, speed) * speed == (rxa * 1024 - 2 * maxFrame) * 8 * 1000
  {
    assert 16000 / speed == if speed == 10 then 1600 else if speed == 100 then 160 else 16;
    if speed == 10 {
    } else if speed == 100 {
    } else {
    }
  }

  /** The encoding of a latency: rounded up at the least scale at which it fits 10 bits. */
  ghost predicate Encodes(enc: nat, v: nat) {
    var scale, value := enc / 1024, enc % 1024;
    value == CeilDiv(v, Unit(scale)) && (scale > 0 ==> CeilDiv(v, Unit(scale - 1)) > VALUE_MASK)
  }

  lemma EncodeEncodes(scale: nat, value: nat, v: nat)
    requires value <= VALUE_MASK && value == CeilDiv(v, Unit(scale))
    requires scale > 0 ==> CeilDiv(v, Unit(scale - 1)) > VALUE_MASK
    ensures Encodes(Encode(scale, value), v)
  {
    hide CeilDiv, Unit;
  }

  /** The latency written to LTRV: the encoded tolerance `enc`, or the platform's maximum exactly
      if the 32-bit decode of `enc` is above that of the maximum. It stays within a maximum of
      scale 6 or less exactly when the 32-bit decode of the tolerance did not wrap to 0 or the
      maximum is beyond 32 bits itself. For scale 7 the shift is by 35 bits, and the decode is
      anything the processor makes of it. */
  method LatencyEncoded(rxa: nat, maxFrame: nat, speed: nat, maxLtrEnc: nat)
    returns (err: bool, latEnc: nat, ghost enc: nat)
    requires speed > 0 && maxLtrEnc < 0x1_0000
    ensures !err && Encodes(enc, Tolerance(rxa, maxFrame, speed)) && (latEnc == enc || latEnc == maxLtrEnc)
    ensures maxLtrEnc / 1024 % 8 <= 6 ==>
      latEnc == if Decode(enc) % TWO_TO_32 > Decode(maxLtrEnc) % TWO_TO_32 then maxLtrEnc else enc
    ensures var v, m := Tolerance(rxa, maxFrame, speed), Decode(maxLtrEnc);
      maxLtrEnc / 1024 % 8 <= 6 ==> (Decode(latEnc) <= m <==> v <= 127 * 0x200_0000 || m >= TWO_TO_32)
    ensures latEnc == maxLtrEnc || Decode(latEnc) >= Tolerance(rxa, maxFrame, speed)
  {
    hide Tolerance, Decode, Encode, Encodes, CeilDiv, Unit;
    ghost var v := Tolerance(rxa, maxFrame, speed);
    var scale, value := Scale(Tolerance(rxa, maxFrame, speed));
    ScaleFits(v, scale);
    latEnc, enc, err := 0, 0, scale > SCALE_MAX;
    if err { return; }
    latEnc := Encode(scale, value);
    enc := latEnc;
    EncodeEncodes(scale, value, v);
    DecodeEncode(scale, value);
    WhenDecodeFits(v, scale, value);
    var latEncD := Decode(latEnc) % TWO_TO_32;
    var maxLtrEncD: int := *;
    if maxLtrEnc / 1024 % 8 <= 6 { maxLtrEncD := Decode(maxLtrEnc) % TWO_TO_32; }
    if latEncD > maxLtrEncD { latEnc := maxLtrEnc; }
  }

  /** The wrapped case at 10 Mb/s with 5240 KB of receive buffer: whatever 32-bit maximum the
      platform gives, the latency written is above it. */
  method LatencyAboveMaximum(maxLtrEnc: nat) returns (latEnc: nat)
    requires maxLtrEnc < 0x1_0000 && maxLtrEnc / 1024 % 8 <= 6 && Decode(maxLtrEnc) < TWO_TO_32
    ensures Tolerance(5240, 1518, 10) == 4290179200 && 5240 <= PBA_RXA_MASK
    ensures Decode(latEnc) > Decode(maxLtrEnc)
  {
    hide Decode;
    var err;
    ghost var enc;
    err, latEnc, enc := LatencyEncoded(5240, 1518, 10, maxLtrEnc);
  }

  /** How it wraps: at the least scale that will do, the value is 128 and decodes to 2^32. */
  lemma WrappedTolerance()
    ensures CeilDiv(Tolerance(5240, 1518, 10), Unit(5)) == 128
    ensures CeilDiv(Tolerance(5240, 1518, 10), Unit(4)) > VALUE_MASK
    ensures Decode(Encode(5, 128)) == TWO_TO_32
  {
    Units();
  }
}
