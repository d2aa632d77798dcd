/** Conversion between binary32 and binary16 (section 3.4 of IEEE 754-2008) by table look-up.
    Numbers are bit patterns; the values they denote are counted in units of 2^-149, the
    smallest positive binary32 number, so that they are all integers. */
module HalfFloat {
  import opened Integers
  import opened Shifts

  const F := 0x80_0000        // 2^23, one more than the largest binary32 fraction
  const SIGN32 := 0x8000_0000
  const SIGN16 := 0x8000
  const INFINITY16 := 0x7C00

  // ----- the five tables, entry by entry -----

  /** The bits of the half for a float with sign and exponent field i and fraction 0. */
  function BaseTable(i: nat): int
    requires i < 512
  {
    if i >= 256 then SIGN16 + BaseTable(i - 256)
    else if i < 103 then 0
    else if i < 113 then Shl(1, i - 103)
    else if i < 143 then 1024 * (i - 112)
    else INFINITY16
  }

  /** How far the fraction is shifted to the right. */
  function ShiftTable(i: nat): nat
    requires i < 512
  {
    var e := i % 256;
    if e < 103 then 24
    else if e < 113 then 126 - e
    else if e < 143 then 13
    else if e < 255 then 24
    else 13
  }

  /** Shifting the leading one bit of a subnormal fraction to bit 23. */
  lemma Normalised(m: nat)
    requires 0 < m < 1024
    ensures Log2(m) < 10 && F <= Shl(m, 23 - Log2(m)) < 2 * F
  {
    ShlBy10(1);
    Log2Below(m, 10);
    var k := Log2(m);
    ShlBy23(1);
    assert Shl(1, 24) == 2 * F;
    ShlShl(1, k, 23 - k);
    ShlShl(1, k + 1, 23 - k);
    ShlMonotone(m, Shl(1, k), 23 - k);
    ShlMonotone(m, Shl(1, k + 1), 23 - k);
  }

  /** The bits of the float for a subnormal half with fraction i < 1024, whose leading one bit
      moves up to bit 23 and into the exponent field, or for a normal half with fraction i - 1024. */
  function MantissaTable(i: nat): (t: nat)
    requires i < 2048
    ensures i < 1024 ==> t < 113 * F
  {
    if i == 0 then 0
    else if i < 1024 then
      Normalised(i);
      (102 + Log2(i)) * F + Shl(i, 23 - Log2(i))
    else 0x3800_0000 + (i - 1024) * 0x2000
  }

  function ExponentTable(i: nat): int
    requires i < 64
  {
    if i >= 32 then SIGN32 + ExponentTable(i - 32)
    else if i == 31 then 0x4780_0000
    else i * F
  }

  function OffsetTable(i: nat): nat
    requires i < 64
  {
    if i == 0 || i == 32 then 0 else 1024
  }

  // ----- the conversions -----

  function FloatToHalf(x: U32): U16 {
    FloatToHalfFields(x);
    BaseTable(x / F) + Shr(x % F, ShiftTable(x / F))
  }

  function HalfToFloat(h: U16): U32 {
    HalfToFloatBound(h / 1024, h % 1024);
    MantissaTable(OffsetTable(h / 1024) + h % 1024) + ExponentTable(h / 1024)
  }

  /** True of infinities and, as in the source, of not-a-numbers. */
  predicate IsInfHalf(h: U16) {
    h / 1024 % 32 == 31
  }

  predicate IsNanHalf(h: U16) {
    h / 1024 % 32 == 31 && h % 1024 != 0
  }

  // ----- the fields of a pattern and the number it denotes -----

  function Exponent32(x: U32): (e: nat)
    ensures e < 256
  {
    x / F % 256
  }

  function Exponent16(h: U16): (e: nat)
    ensures e < 32
  {
    h / 1024 % 32
  }

  predicate Finite32(x: U32) {
    Exponent32(x) < 255
  }

  predicate Finite16(h: U16) {
    Exponent16(h) < 31
  }

  /** The magnitude of the number with exponent field e and fraction m, in units of 2^-149. */
  function FloatUnits(e: nat, m: nat): int {
    if e == 0 then m else Shl(F + m, e - 1)
  }

  /** The magnitude of the half whose bits below the sign are k, in units of 2^-149.
      The pattern of infinity is given the value 2^16 that follows the largest finite half. */
  function HalfUnits(k: nat): int {
    var e, m := k / 1024, k % 1024;
    if e == 0 then Shl(m, 125) else Shl(1024 + m, e + 124)
  }

  function Magnitude32(x: U32): int
    requires Finite32(x)
  {
    FloatUnits(Exponent32(x), x % F)
  }

  function Magnitude16(h: U16): int
    requires Finite16(h)
  {
    HalfUnits(h % SIGN16)
  }

  function Value32(x: U32): int
    requires Finite32(x)
  {
    if x >= SIGN32 then -Magnitude32(x) else Magnitude32(x)
  }

  function Value16(h: U16): int
    requires Finite16(h)
  {
    if h >= SIGN16 then -Magnitude16(h) else Magnitude16(h)
  }

  // ----- float to half, exponent range by exponent range -----

  /** The half's bits below the sign. */
  function HalfBits(e: nat, m: nat): int
    requires e < 256 && m < F
  {
    BaseTable(e) + Shr(m, ShiftTable(e))
  }

  /** The shift that makes a subnormal half drops the low bits of the full significand. */
  lemma SubnormalBits(e: nat, m: nat)
    requires 103 <= e < 113 && m < F
    ensures var k := HalfBits(e, m);
            0 < k < 1024 && Shl(k, 126 - e) <= F + m < Shl(k + 1, 126 - e)
  {
    var s, t, k := 126 - e, e - 103, HalfBits(e, m);
    var q := Shr(m, s);
    ShrBracket(m, s);
    ShlShl(1, t, s);
    ShlBy23(1);
    ShlAdd(Shl(1, t), q, s);
    ShlAdd(Shl(1, t), q + 1, s);
    ShlGrows(1, 0, t);
    ShlShl(1, t + 1, s);
    ShlMonotone(k, Shl(1, t + 1), s);
    ShlGrows(1, t + 1, 10);
    ShlBy10(1);
  }

  lemma HalfBitsByRange(e: nat, m: nat)
    requires e < 256 && m < F
    ensures var k := HalfBits(e, m);
            && 0 <= k < SIGN16
            && (k >= INFINITY16 <==> e >= 143)
            && (e < 103 ==> k == 0)
            && (103 <= e < 113 ==> 0 < k < 1024)
            && (113 <= e < 143 ==> k == 1024 * (e - 112) + m / 0x2000)
            && (143 <= e < 255 ==> k == INFINITY16)
            && (e == 255 ==> k == INFINITY16 + m / 0x2000)
  {
    if e < 103 || 143 <= e < 255 {
      ShlBy23(1);
      ShlBy23(0);
      assert Shl(0, 24) == 2 * Shl(0, 23) && Shl(1, 24) == 2 * Shl(1, 23);
      ShrUnique(m, 24, 0);
    } else if e < 113 {
      SubnormalBits(e, m);
    } else {
      ShrBy13(m);
    }
  }

  lemma FloatToHalfFields(x: U32)
    ensures var h := BaseTable(x / F) + Shr(x % F, ShiftTable(x / F));
            && h == (if x >= SIGN32 then SIGN16 else 0) + HalfBits(Exponent32(x), x % F)
            && 0 <= h < 0x1_0000
            && h % SIGN16 == HalfBits(Exponent32(x), x % F)
  {
    var i, s := x / F, if x >= SIGN32 then 1 else 0;
    var e := i % 256;
    assert i == 256 * s + e;
    HalfBitsByRange(e, x % F);
    assert BaseTable(i) == s * SIGN16 + BaseTable(e);
    assert ShiftTable(i) == ShiftTable(e);
  }

  lemma HalfUnitsStep(k: nat)
    ensures HalfUnits(k) < HalfUnits(k + 1)
  {
    var e, m := k / 1024, k % 1024;
    var n := if e == 0 then 125 else e + 124;
    var f := if e == 0 then m else 1024 + m;
    ShlMonotone(f, f + 1, n);
    if m == 1023 {
      assert (k + 1) / 1024 == e + 1 && (k + 1) % 1024 == 0;
      if e > 0 {
        ShlShl(1024, 1, n);
        assert Shl(1024, 1) == 2048;
      }
    } else {
      assert (k + 1) / 1024 == e && (k + 1) % 1024 == m + 1;
    }
  }

  lemma {:induction false} HalfUnitsMonotone(j: nat, k: nat)
    requires j <= k
    ensures HalfUnits(j) <= HalfUnits(k)
    ensures j < k ==> HalfUnits(j) < HalfUnits(k)
  {
    if j < k {
      HalfUnitsMonotone(j, k - 1);
      HalfUnitsStep(k - 1);
    }
  }

  /** The significand of a float is at least 2^23 and less than 2^24. */
  lemma FloatUnitsBracket(e: nat, m: nat)
    requires m < F
    ensures 0 <= FloatUnits(e, m) < Shl(1, e + 23)
    ensures e > 0 ==> Shl(1, e + 22) <= FloatUnits(e, m)
  {
    ShlBy23(1);
    if e > 0 {
      assert Shl(1, 24) == 2 * F;
      ShlShl(1, 23, e - 1);
      ShlShl(1, 24, e - 1);
      ShlMonotone(F + m, F, e - 1);
      ShlMonotone(F + m, Shl(1, 24), e - 1);
      ShlGrows(1, 0, e + 22);
    }
  }

  lemma BracketTiny(e: nat, m: nat)
    requires e < 103 && m < F
    ensures HalfUnits(0) <= FloatUnits(e, m) < HalfUnits(1)
  {
    FloatUnitsBracket(e, m);
    ShlGrows(1, e + 23, 125);
    ShlGrows(0, 0, 125);
    ShlAdd(0, 0, 125);
  }

  lemma BracketSubnormal(e: nat, m: nat)
    requires 103 <= e < 113 && m < F
    ensures var k := HalfBits(e, m);
            0 < k < 1024 && HalfUnits(k) <= FloatUnits(e, m) < HalfUnits(k + 1)
  {
    var k, s := HalfBits(e, m), 126 - e;
    SubnormalBits(e, m);
    ShlMonotone(F + m, Shl(k, s), e - 1);
    ShlMonotone(F + m, Shl(k + 1, s), e - 1);
    ShlShl(k, s, e - 1);
    ShlShl(k + 1, s, e - 1);
  }

  lemma BracketNormal(e: nat, m: nat)
    requires 113 <= e < 143 && m < F
    ensures var k := HalfBits(e, m);
            0 < k < INFINITY16 && HalfUnits(k) <= FloatUnits(e, m) < HalfUnits(k + 1)
    ensures HalfUnits(HalfBits(e, m)) == Shl(1024 + m / 0x2000, e + 12)
    ensures FloatUnits(e, m) < Shl(1025 + m / 0x2000, e + 12)
  {
    HalfBitsByRange(e, m);
    var k, q := HalfBits(e, m), m / 0x2000;
    assert k / 1024 == e - 112 && k % 1024 == q;
    ShlBy13(1024 + q);
    ShlBy13(1025 + q);
    ShlMonotone(F + m, Shl(1024 + q, 13), e - 1);
    ShlMonotone(F + m, Shl(1025 + q, 13), e - 1);
    ShlShl(1024 + q, 13, e - 1);
    ShlShl(1025 + q, 13, e - 1);
    if q == 1023 {
      assert (k + 1) / 1024 == e - 111 && (k + 1) % 1024 == 0;
      assert Shl(1024, 1) == 2048;
      ShlShl(1024, 1, e + 12);
    } else {
      assert (k + 1) / 1024 == e - 112 && (k + 1) % 1024 == q + 1;
    }
  }

  /** The float lies between the half it becomes and the next one up. */
  lemma Bracket(x: U32)
    requires Exponent32(x) < 143
    ensures var k := FloatToHalf(x) % SIGN16;
            0 <= k < INFINITY16 && HalfUnits(k) <= Magnitude32(x) < HalfUnits(k + 1)
  {
    var e, m := Exponent32(x), x % F;
    FloatToHalfFields(x);
    if e < 103 {
      HalfBitsByRange(e, m);
      BracketTiny(e, m);
    } else if e < 113 {
      BracketSubnormal(e, m);
    } else {
      BracketNormal(e, m);
    }
  }

  /** 2^16, the first magnitude beyond the halves, in units of 2^-149. */
  ghost const LIMIT: int := Shl(1, 165)

  /** 2^-14, the smallest normal half. */
  ghost const SMALLEST_NORMAL: int := Shl(1, 135)

  /** 2^-24, the distance between subnormal halves. */
  ghost const SMALLEST_HALF: int := Shl(1, 125)

  ghost predicate InHalfRange(x: U32) {
    Finite32(x) && Magnitude32(x) < LIMIT
  }

  lemma RangeByExponent(x: U32)
    ensures InHalfRange(x) <==> Exponent32(x) < 143
    ensures Finite32(x) ==> (Magnitude32(x) < SMALLEST_NORMAL <==> Exponent32(x) < 113)
  {
    var e, m := Exponent32(x), x % F;
    FloatUnitsBracket(e, m);
    if e < 143 {
      ShlGrows(1, e + 23, 165);
    } else {
      ShlGrows(1, 165, e + 22);
    }
    if e < 113 {
      ShlGrows(1, e + 23, 135);
    } else {
      ShlGrows(1, 135, e + 22);
    }
  }

  lemma FiniteByRange(x: U32)
    ensures Finite16(FloatToHalf(x)) <==> Exponent32(x) < 143
    ensures FloatToHalf(x) >= SIGN16 <==> x >= SIGN32
  {
    FloatToHalfFields(x);
    HalfBitsByRange(Exponent32(x), x % F);
    Exponent16OfBits(FloatToHalf(x));
  }

  lemma Exponent16OfBits(h: U16)
    ensures Finite16(h) <==> h % SIGN16 < INFINITY16
  {
  }

  /** Every conversion of a number below 2^16 is finite, keeps the sign, and is of largest
      magnitude among the halves that do not exceed the number. */
  lemma Truncates(x: U32, g: U16)
    requires InHalfRange(x) && Finite16(g)
    ensures Finite16(FloatToHalf(x))
    ensures Magnitude16(g) <= Magnitude32(x) <==> Magnitude16(g) <= Magnitude16(FloatToHalf(x))
    ensures FloatToHalf(x) >= SIGN16 <==> x >= SIGN32
  {
    RangeByExponent(x);
    FiniteByRange(x);
    Bracket(x);
    var j, k := g % SIGN16, FloatToHalf(x) % SIGN16;
    if j <= k {
      HalfUnitsMonotone(j, k);
    } else {
      HalfUnitsMonotone(k + 1, j);
    }
  }

  lemma UnitInLastPlace(q: nat, n: nat)
    ensures Shl(1025 + q, n) == Shl(1024 + q, n) + Shl(1, n)
    ensures 1024 * Shl(1, n) <= Shl(1024 + q, n)
  {
    ShlAdd(1024 + q, 1, n);
    ShlAdd(1024, q, n);
    ShlGrows(q, 0, n);
    ShlShl(1, 10, n);
    ShlShl(1, n, 10);
    ShlBy10(1);
    ShlBy10(Shl(1, n));
  }

  /** The truncation error is below one part in 2^10 for normal results and below 2^-24 otherwise. */
  lemma TruncationError(x: U32)
    requires InHalfRange(x)
    ensures Finite16(FloatToHalf(x))
    ensures var err := Magnitude32(x) - Magnitude16(FloatToHalf(x));
            && 0 <= err
            && (Magnitude32(x) >= SMALLEST_NORMAL ==> 1024 * err < Magnitude32(x))
            && (Magnitude32(x) < SMALLEST_NORMAL ==> err < SMALLEST_HALF)
  {
    RangeByExponent(x);
    FiniteByRange(x);
    Bracket(x);
    FloatToHalfFields(x);
    var e, m, k := Exponent32(x), x % F, FloatToHalf(x) % SIGN16;
    if e < 113 {
      HalfBitsByRange(e, m);
      HalfUnitsSubnormal(k);
    } else {
      BracketNormal(e, m);
      UnitInLastPlace(m / 0x2000, e + 12);
    }
  }

  lemma HalfUnitsSubnormal(k: nat)
    requires k < 1024
    ensures HalfUnits(k + 1) == HalfUnits(k) + SMALLEST_HALF
  {
    ShlAdd(k, 1, 125);
  }

  /** The conversion preserves the order of the numbers. */
  lemma ConversionMonotone(x: U32, y: U32)
    requires InHalfRange(x) && InHalfRange(y)
    requires Value32(x) <= Value32(y)
    ensures Finite16(FloatToHalf(x)) && Finite16(FloatToHalf(y))
    ensures Value16(FloatToHalf(x)) <= Value16(FloatToHalf(y))
  {
    TruncationError(x);
    TruncationError(y);
    Truncates(x, FloatToHalf(y));
    Truncates(y, FloatToHalf(x));
    MagnitudeSign(FloatToHalf(x));
    MagnitudeSign(FloatToHalf(y));
  }

  lemma MagnitudeSign(h: U16)
    requires Finite16(h)
    ensures Magnitude16(h) >= 0
  {
    HalfUnitsMonotone(0, h % SIGN16);
    ShlGrows(0, 0, 125);
  }

  /** The half is an infinity or a not-a-number exactly for the floats that are not below 2^16
      in magnitude: larger numbers, infinities, and not-a-numbers even when the payload is lost. */
  lemma RejectedExactly(x: U32)
    ensures IsInfHalf(FloatToHalf(x)) <==> !InHalfRange(x)
    ensures IsNanHalf(FloatToHalf(x)) <==> Exponent32(x) == 255 && x % F >= 0x2000
  {
    RangeByExponent(x);
    FiniteByRange(x);
    FloatToHalfFields(x);
    HalfBitsByRange(Exponent32(x), x % F);
  }

  /** isinf_float16 takes not-a-numbers for infinities, and is right about all other halves. */
  lemma InfinityOrNan(h: U16)
    ensures IsNanHalf(h) <==> h % SIGN16 > INFINITY16
    ensures (IsInfHalf(h) <==> h % SIGN16 == INFINITY16) <==> !IsNanHalf(h)
    ensures IsInfHalf(h) ==> (IsNanHalf(h) <==> h % 1024 != 0)
  {
  }

  lemma NanTakenForInfinity()
    ensures var h: U16 := 0x7C01;
            IsInfHalf(h) && IsNanHalf(h) && h % SIGN16 != INFINITY16
  {
  }

  // ----- half to float -----

  /** A subnormal half is a normal float: its leading one bit becomes the implicit one. */
  lemma SubnormalImage(m: nat)
    requires 0 < m < 1024
    ensures var e, f := MantissaTable(m) / F, MantissaTable(m) % F;
            103 <= e < 113 && Shl(m, 126 - e) == F + f
  {
    Normalised(m);
    var k := Log2(m);
    var f := Shl(m, 23 - k) - F;
    assert MantissaTable(m) == (103 + k) * F + f;
    Fields32(0, 103 + k, f);
  }

  /** A pattern and its fields: s is the sign bit. */
  lemma Fields16(h: U16, s: nat, e: nat, m: nat)
    requires s < 2 && e < 32 && m < 1024
    requires h == s * SIGN16 + e * 1024 + m
    ensures h / 1024 == 32 * s + e && h % 1024 == m && Exponent16(h) == e
    ensures h % SIGN16 == e * 1024 + m
    ensures h % SIGN16 / 1024 == e && h % SIGN16 % 1024 == m
  {
    assert h / 1024 == 32 * s + e;
  }

  lemma Fields32(s: nat, e: nat, f: nat)
    requires s < 2 && e < 256 && f < F
    ensures var x := s * SIGN32 + e * F + f;
            x < 0x1_0000_0000 && x / F == 256 * s + e && x % F == f && Exponent32(x) == e
  {
    var x := s * SIGN32 + e * F + f;
    assert x / F == 256 * s + e;
  }

  lemma SplitHalf(h: U16) returns (s: nat, e: nat, m: nat)
    ensures s < 2 && e < 32 && m < 1024
    ensures h == s * SIGN16 + e * 1024 + m
    ensures h >= SIGN16 <==> s == 1
  {
    s, e, m := if h >= SIGN16 then 1 else 0, h % SIGN16 / 1024, h % 1024;
  }

  lemma HalfToFloatBound(i: nat, m: nat)
    requires i < 64 && m < 1024
    ensures 0 <= MantissaTable(OffsetTable(i) + m) + ExponentTable(i) < 0x1_0000_0000
  {
    assert ExponentTable(i % 32) <= 0x4780_0000;
    if i % 32 != 0 {
      assert MantissaTable(1024 + m) <= 0x3880_0000 - 0x2000;
    }
  }

  /** The image of a half, field by field. */
  lemma HalfToFloatFields(h: U16, s: nat, e: nat, m: nat)
    requires s < 2 && e < 32 && m < 1024
    requires h == s * SIGN16 + e * 1024 + m
    ensures var x := HalfToFloat(h);
            && (x >= SIGN32 <==> s == 1)
            && (e == 0 ==> Exponent32(x) == MantissaTable(m) / F && x % F == MantissaTable(m) % F)
            && (0 < e < 31 ==> Exponent32(x) == e + 112 && x % F == m * 0x2000)
            && (e == 31 ==> Exponent32(x) == 255 && x % F == m * 0x2000)
  {
    Fields16(h, s, e, m);
    var i := 32 * s + e;
    assert ExponentTable(i) == s * SIGN32 + ExponentTable(e);
    if e == 0 {
      var t := MantissaTable(m);
      Fields32(s, t / F, t % F);
    } else {
      Fields32(s, if e == 31 then 255 else e + 112, m * 0x2000);
    }
  }

  lemma SubnormalExact(m: nat)
    requires m < 1024
    ensures FloatUnits(MantissaTable(m) / F, MantissaTable(m) % F) == Shl(m, 125)
  {
    if m > 0 {
      SubnormalImage(m);
      var g := MantissaTable(m) / F;
      ShlShl(m, 126 - g, g - 1);
    } else {
      ShlAdd(0, 0, 125);
    }
  }

  lemma NormalExact(e: nat, m: nat)
    requires e > 0
    ensures FloatUnits(e + 112, m * 0x2000) == Shl(1024 + m, e + 124)
  {
    ShlBy13(1024 + m);
    ShlShl(1024 + m, 13, e + 111);
  }

  /** Every finite half becomes exactly the same number. */
  lemma HalfToFloatExact(h: U16)
    requires Finite16(h)
    ensures Finite32(HalfToFloat(h)) && Value32(HalfToFloat(h)) == Value16(h)
  {
    var s, e, m := SplitHalf(h);
    Fields16(h, s, e, m);
    HalfToFloatFields(h, s, e, m);
    if e == 0 {
      SubnormalExact(m);
    } else {
      NormalExact(e, m);
    }
  }

  lemma SubnormalInverse(e: nat, f: nat, m: nat)
    requires 103 <= e < 113 && f < F && Shl(m, 126 - e) == F + f
    ensures HalfBits(e, f) == m
  {
    SubnormalBits(e, f);
    ShlBetween(HalfBits(e, f), m, 126 - e);
  }

  lemma SubnormalRoundTrip(m: nat, e: nat, f: nat)
    requires m < 1024 && e == MantissaTable(m) / F && f == MantissaTable(m) % F
    ensures HalfBits(e, f) == m
  {
    if m > 0 {
      SubnormalImage(m);
      SubnormalInverse(e, f, m);
    } else {
      assert e == 0 && f == 0;
      HalfBitsByRange(e, f);
    }
  }

  lemma NormalRoundTrip(e: nat, m: nat)
    requires 0 < e < 32 && m < 1024
    ensures HalfBits(if e == 31 then 255 else e + 112, m * 0x2000) == e * 1024 + m
  {
    HalfBitsByRange(if e == 31 then 255 else e + 112, m * 0x2000);
  }

  /** No half is lost by going to a float and back: subnormals, signed zeros, infinities
      and not-a-number payloads included. */
  lemma HalfRoundTrip(h: U16)
    ensures FloatToHalf(HalfToFloat(h)) == h
  {
    var s, e, m := SplitHalf(h);
    HalfToFloatFields(h, s, e, m);
    FloatToHalfFields(HalfToFloat(h));
    if e == 0 {
      SubnormalRoundTrip(m, MantissaTable(m) / F, MantissaTable(m) % F);
    } else {
      NormalRoundTrip(e, m);
    }
  }

  /** A float written as a half and read back is its truncation, and a second trip changes nothing. */
  lemma WrittenAndReadBack(x: U32)
    requires InHalfRange(x)
    ensures var y := HalfToFloat(FloatToHalf(x));
            && Finite16(FloatToHalf(x))
            && Finite32(y)
            && Value32(y) == Value16(FloatToHalf(x))
            && FloatToHalf(y) == FloatToHalf(x)
  {
    TruncationError(x);
    HalfToFloatExact(FloatToHalf(x));
    HalfRoundTrip(FloatToHalf(x));
  }
}
