/** Compact proof-of-work targets: an exponent byte, a sign bit and a 23-bit mantissa that
    stand for mantissa * 256^(exponent - 3). */
module Compact {
  import opened Words
  import opened Arithmetic

  /** The outcome of expanding a compact number. */
  datatype Expanded = Overflow | Big(value: nat)

  const SIGN_BIT: int := 0x80_0000
  const EXPONENT_UNIT: int := 0x100_0000

  predicate IsNegated(compact: uint32) {
    compact / SIGN_BIT % 2 != 0
  }

  function Mantissa(compact: uint32): (m: nat) {
    compact % SIGN_BIT
  }

  function Exponent(compact: uint32): (e: nat) {
    compact / EXPONENT_UNIT
  }

  function Log256(mantissa: nat): (r: nat) {
    if mantissa > 0xFFFF then 3 else if mantissa > 0xFF then 2 else if mantissa > 0 then 1 else 0
  }

  predicate IsOverflow(exponent: nat, mantissa: nat) {
    mantissa > 0 && exponent > 32 + 3 - Log256(mantissa)
  }

  /** Expands a compact number; the shift into the big number drops bits above 256. */
  function FromCompact(compact: uint32): (r: Expanded) {
    if IsNegated(compact) then Big(0)
    else if Exponent(compact) <= 3 then Big(Mantissa(compact) / Pow(256, 3 - Exponent(compact)))
    else if IsOverflow(Exponent(compact), Mantissa(compact)) then Overflow
    else Big(Mantissa(compact) * Pow(256, Exponent(compact) - 3) % TWO_256)
  }

  /** The number of significant bytes. */
  function LogicalSize(value: nat): (r: nat) {
    if value == 0 then 0 else 1 + LogicalSize(value / 256)
  }

  /** The three leading bytes of a number of the given size. */
  function Leading(big: nat, size: nat): (q: nat) {
    if size <= 3 then big * Pow(256, 3 - size) else big / Pow(256, size - 3)
  }

  /** The normal compact form of a big number. */
  function FromBig(big: nat): (r: nat) {
    var size := LogicalSize(big);
    var leading := Leading(big, size);
    if leading >= SIGN_BIT then (size + 1) * EXPONENT_UNIT + leading / 256
    else size * EXPONENT_UNIT + leading
  }

  /** The value a compact constructed from bits holds: zero when expansion overflows. */
  function Target(bits: uint32): (r: nat) {
    match FromCompact(bits) case Overflow => 0 case Big(v) => v
  }

  // ---- expansion

  lemma Log256Bounds(m: nat)
    requires 0 < m < EXPONENT_UNIT
    ensures 1 <= Log256(m) <= 3
    ensures Pow(256, Log256(m) - 1) <= m < Pow(256, Log256(m))
  {
    assert Pow(256, 1) == 256 && Pow(256, 2) == 0x1_0000 && Pow(256, 3) == EXPONENT_UNIT;
  }

  lemma ScaledSize(m: nat, k: nat)
    requires 0 < m < EXPONENT_UNIT
    ensures m * Pow(256, k) < Pow(256, 32) <==> k + Log256(m) <= 32
  {
    Log256Bounds(m);
    var l := Log256(m);
    if k + l <= 32 {
      PowAdd(256, l, k);
      PowMonotone(256, l + k, 32);
      MulStrict(m, Pow(256, l), Pow(256, k));
    } else {
      PowAdd(256, l - 1, k);
      PowMonotone(256, 32, l - 1 + k);
      MulMono(Pow(256, l - 1), m, Pow(256, k), Pow(256, k));
    }
  }

  lemma ShiftExact(m: nat, k: nat)
    requires m < EXPONENT_UNIT
    ensures IsOverflow(k + 3, m) <==> m * Pow(256, k) >= TWO_256
    ensures !IsOverflow(k + 3, m) ==> m * Pow(256, k) % TWO_256 == m * Pow(256, k)
  {
    if m == 0 {
      assert m * Pow(256, k) == 0;
    } else {
      Pow256_32();
      ScaledSize(m, k);
      if !IsOverflow(k + 3, m) { SmallMod(m * Pow(256, k), TWO_256); }
    }
  }

  /** Expansion fails exactly when mantissa * 256^(exponent - 3) needs more than 256 bits, and
      otherwise is that product with nothing lost. */
  lemma ExpansionExact(c: uint32)
    requires !IsNegated(c)
    ensures FromCompact(c).Overflow?
       <==> Exponent(c) > 3 && Mantissa(c) * Pow(256, Exponent(c) - 3) >= TWO_256
    ensures FromCompact(c).Big? && Exponent(c) > 3
        ==> FromCompact(c).value == Mantissa(c) * Pow(256, Exponent(c) - 3)
    ensures FromCompact(c).Big? ==> FromCompact(c).value < TWO_256
  {
    if Exponent(c) > 3 {
      ShiftExact(Mantissa(c), Exponent(c) - 3);
    } else {
      DivAtMost(Mantissa(c), Pow(256, 3 - Exponent(c)));
    }
  }

  /** One formula for every exponent: the whole part of mantissa * 256^exponent / 256^3, and zero
      under a sign bit. */
  lemma ExpansionIsWholePart(c: uint32)
    requires FromCompact(c).Big?
    ensures var value := FromCompact(c).value;
            var m := if IsNegated(c) then 0 else Mantissa(c);
            value * Pow(256, 3) <= m * Pow(256, Exponent(c)) < (value + 1) * Pow(256, 3)
  {
    hide Pow;
    var e, m := Exponent(c), Mantissa(c);
    if !IsNegated(c) {
      if e > 3 {
        ExpansionExact(c);
        PowAdd(256, e - 3, 3);
        MulAssoc(m, Pow(256, e - 3), Pow(256, 3));
      } else {
        var unit := Pow(256, 3 - e);
        WholePart(m, unit);
        PowAdd(256, 3 - e, e);
        ScaleBounds(FromCompact(c).value, unit, m, Pow(256, e));
      }
    }
  }

  lemma ScaleBounds(v: nat, unit: nat, m: nat, p: nat)
    requires unit * v <= m < unit * v + unit && p > 0
    ensures v * (unit * p) <= m * p < (v + 1) * (unit * p)
  {
    MulMono(unit * v, m, p, p);
    MulStrict(m, unit * v + unit, p);
    assert unit * v * p == v * (unit * p);
    assert (unit * v + unit) * p == (v + 1) * (unit * p);
  }

  // ---- sizes

  lemma {:induction false} LogicalSizeBounds(x: nat)
    ensures x < Pow(256, LogicalSize(x))
    ensures x > 0 ==> LogicalSize(x) > 0 && Pow(256, LogicalSize(x) - 1) <= x
  {
    if x > 0 {
      LogicalSizeBounds(x / 256);
      var s := LogicalSize(x / 256);
      if x / 256 > 0 {
        assert Pow(256, s) == 256 * Pow(256, s - 1);
      }
    }
  }

  lemma {:induction false} LogicalSizeMonotone(x: nat, y: nat)
    requires x <= y
    ensures LogicalSize(x) <= LogicalSize(y)
  {
    LogicalSizeBounds(x);
    LogicalSizeBounds(y);
    if LogicalSize(x) > LogicalSize(y) {
      PowMonotone(256, LogicalSize(y), LogicalSize(x) - 1);
    }
  }

  lemma WordSize(x: nat)
    requires x < TWO_256
    ensures LogicalSize(x) <= 32
  {
    Pow256_32();
    LogicalSizeBounds(x);
    if LogicalSize(x) > 32 {
      PowMonotone(256, 32, LogicalSize(x) - 1);
    }
  }

  /** The leading three bytes fill the mantissa's top byte. */
  lemma LeadingBounds(x: nat)
    requires x > 0
    ensures 0x1_0000 <= Leading(x, LogicalSize(x)) < EXPONENT_UNIT
  {
    LogicalSizeBounds(x);
    var s := LogicalSize(x);
    assert Pow(256, 3) == EXPONENT_UNIT && Pow(256, 2) == 0x1_0000;
    if s <= 3 {
      var p := Pow(256, 3 - s);
      PowAdd(256, s, 3 - s);
      PowAdd(256, s - 1, 3 - s);
      assert x * p < Pow(256, s) * p;
      MulMono(Pow(256, s - 1), x, p, p);
    } else {
      var p := Pow(256, s - 3);
      PowAdd(256, 3, s - 3);
      PowAdd(256, 2, s - 3);
      DivBounds(x, p, 0x1_0000, EXPONENT_UNIT);
    }
  }

  // ---- rounding

  /** The number of low bytes the normal form of a number cannot keep. */
  function LostBytes(x: nat): (j: nat) {
    var s := LogicalSize(x);
    if s < 3 then 0 else if Leading(x, s) >= SIGN_BIT then s - 2 else s - 3
  }

  /** The number with its low bytes cleared so that it fits the mantissa. */
  function Rounded(x: nat): (y: nat) {
    x / Pow(256, LostBytes(x)) * Pow(256, LostBytes(x))
  }

  /** What makes the cleared part minimal: the kept part fits 23 bits, and uses at least
      16 of them whenever anything was cleared. */
  lemma KeptPart(x: nat)
    ensures x / Pow(256, LostBytes(x)) < SIGN_BIT
    ensures LostBytes(x) > 0 ==> x / Pow(256, LostBytes(x)) >= 0x8000
  {
    var s := LogicalSize(x);
    LogicalSizeBounds(x);
    if s < 3 {
      PowMonotone(256, s, 2);
      assert Pow(256, 2) == 0x1_0000;
    } else {
      LeadingBounds(x);
      assert Leading(x, s) == x / Pow(256, s - 3);
      if Leading(x, s) >= SIGN_BIT {
        DivDiv(x, Pow(256, s - 3));
        assert Pow(256, s - 2) == Pow(256, s - 3) * 256;
      }
    }
  }

  lemma Fields(e: nat, m: nat)
    requires e < 256 && m < SIGN_BIT
    ensures var c := e * EXPONENT_UNIT + m;
            c <= MAX_UINT32 && !IsNegated(c) && Exponent(c) == e && Mantissa(c) == m
  {
  }

  /** The fields of a normal form; the sign bit is never set. */
  lemma NormalFields(x: nat)
    requires 0 < x < TWO_256
    ensures 0 <= FromBig(x) <= MAX_UINT32 && !IsNegated(FromBig(x))
    ensures var s := LogicalSize(x);
            var q := Leading(x, s);
            if q >= SIGN_BIT then Exponent(FromBig(x)) == s + 1 && Mantissa(FromBig(x)) == q / 256
            else Exponent(FromBig(x)) == s && Mantissa(FromBig(x)) == q
  {
    WordSize(x);
    LeadingBounds(x);
    var s := LogicalSize(x);
    var q := Leading(x, s);
    if q >= SIGN_BIT { Fields(s + 1, q / 256); } else { Fields(s, q); }
  }

  /** Normalizing and expanding again rounds down to a multiple of a power of 256. */
  lemma ExpandNormal(x: nat)
    requires x < TWO_256
    ensures 0 <= FromBig(x) <= MAX_UINT32
    ensures FromCompact(FromBig(x)) == Big(Rounded(x))
  {
    if x == 0 {
      assert FromBig(0) == 0;
      assert Pow(256, 0) == 1;
    } else {
      NormalFields(x);
      var s := LogicalSize(x);
      if s >= 3 {
        assert Leading(x, s) == x / Pow(256, s - 3) by { assert Pow(256, 0) == 1; }
        DivDiv(x, Pow(256, s - 3));
        NormalExpansion(FromBig(x), x);
      } else {
        LogicalSizeBounds(x);
        SmallExact(x, s);
      }
    }
  }

  lemma NormalExpansion(c: uint32, x: nat)
    requires x < TWO_256 && !IsNegated(c) && Exponent(c) == LostBytes(x) + 3
    requires Mantissa(c) == x / Pow(256, LostBytes(x))
    ensures FromCompact(c) == Big(Rounded(x))
  {
    ExpansionExact(c);
    RoundedBelow(x);
    assert Pow(256, 0) == 1;
  }

  lemma SmallExact(x: nat, s: nat)
    requires s == LogicalSize(x) && 0 < s < 3
    ensures x * Pow(256, 3 - s) / Pow(256, 3 - s) == x == Rounded(x)
    ensures x * Pow(256, 3 - s) / 256 / Pow(256, 2 - s) == x
  {
    assert Pow(256, 0) == 1 && Pow(256, 1) == 256 && Pow(256, 2) == 0x1_0000;
  }

  lemma RoundedBelow(x: nat)
    ensures Rounded(x) <= x < Rounded(x) + Pow(256, LostBytes(x))
  {
    var p := Pow(256, LostBytes(x));
    assert x == p * (x / p) + x % p;
  }

  /** The relative error of normalizing is below 2^-15. */
  lemma RoundingError(x: nat)
    ensures Rounded(x) <= x
    ensures x != Rounded(x) ==> 0x8000 * (x - Rounded(x)) < Rounded(x)
  {
    RoundedBelow(x);
    KeptPart(x);
    var p := Pow(256, LostBytes(x));
    if LostBytes(x) == 0 {
      assert p == 1;
    } else {
      MulMono(0x8000, x / p, p, p);
    }
  }

  /** No more is cleared than it takes for the rest to fit the mantissa. */
  lemma LostAtMost(v: nat, k: nat)
    requires v < SIGN_BIT * Pow(256, k)
    ensures LostBytes(v) <= k
  {
    var j := LostBytes(v);
    if j > k {
      KeptPart(v);
      var p := Pow(256, j);
      PowMonotone(256, k, j - 1);
      RoundedBelow(v);
      MulMono(0x8000, v / p, p, p);
    }
  }

  lemma LostBytesMonotone(x: nat, y: nat)
    requires x <= y
    ensures LostBytes(x) <= LostBytes(y)
  {
    KeptPart(y);
    DivBelow(y, Pow(256, LostBytes(y)), SIGN_BIT);
    LostAtMost(x, LostBytes(y));
  }

  lemma RoundedMonotone(x: nat, y: nat)
    requires x <= y
    ensures Rounded(x) <= Rounded(y)
  {
    LostBytesMonotone(x, y);
    KeptPart(x);
    KeptPart(y);
    RoundedBelow(x);
    var j, k := LostBytes(x), LostBytes(y);
    var p, r := Pow(256, j), Pow(256, k);
    if j == k {
      DivMono(x, y, p);
      MulMono(x / p, y / p, p, p);
    } else {
      PowMonotone(256, j, k - 1);
      assert r == 256 * Pow(256, k - 1);
      MulMono(x / p, SIGN_BIT, p, p);
      MulMono(0x8000, y / r, r, r);
    }
  }

  /** Every expanded compact number is already rounded, so normalizing keeps its value. */
  lemma NormalizingKeepsValue(c: uint32)
    requires FromCompact(c).Big?
    ensures Target(c) < TWO_256
    ensures Rounded(Target(c)) == Target(c)
    ensures FromBig(Target(c)) <= MAX_UINT32
    ensures FromCompact(FromBig(Target(c))) == FromCompact(c)
  {
    var v := Target(c);
    if IsNegated(c) {
      assert v == 0 && Pow(256, 0) == 1;
    } else {
      ExpansionExact(c);
      var m, e := Mantissa(c), Exponent(c);
      if e <= 3 {
        DivAtMost(m, Pow(256, 3 - e));
        MultipleRounds(v, v, 0);
      } else {
        MultipleRounds(v, m, e - 3);
      }
    }
    ExpandNormal(v);
  }

  lemma MultipleRounds(v: nat, m: nat, k: nat)
    requires m < SIGN_BIT && v == m * Pow(256, k)
    ensures Rounded(v) == v
  {
    MulStrict(m, SIGN_BIT, Pow(256, k));
    LostAtMost(v, k);
    var j := LostBytes(v);
    var p := Pow(256, j);
    PowAdd(256, k - j, j);
    MulAssoc(m, Pow(256, k - j), p);
    DivUnique(v, p, m * Pow(256, k - j));
  }

  /** Normalizing picks the largest representable value that is not above the number. */
  lemma LargestRepresentable(x: nat, c: uint32)
    requires x < TWO_256 && FromCompact(c).Big? && Target(c) <= x
    ensures FromBig(x) <= MAX_UINT32 && FromCompact(FromBig(x)).Big?
    ensures Target(c) <= Target(FromBig(x)) <= x
  {
    ExpandNormal(x);
    NormalizingKeepsValue(c);
    RoundedMonotone(Target(c), x);
    RoundingError(x);
  }

  lemma LeadingMonotone(x: nat, y: nat, s: nat)
    requires x <= y
    ensures Leading(x, s) <= Leading(y, s)
  {
    if s <= 3 {
      MulMono(x, y, Pow(256, 3 - s), Pow(256, 3 - s));
    } else {
      DivMono(x, y, Pow(256, s - 3));
    }
  }

  /** Normal forms compare as plain integers in the order of the numbers they stand for. */
  lemma FromBigMonotone(x: nat, y: nat)
    requires x <= y
    ensures FromBig(x) <= FromBig(y)
  {
    if x > 0 {
      LogicalSizeMonotone(x, y);
      LeadingBounds(x);
      LeadingBounds(y);
      if LogicalSize(x) == LogicalSize(y) {
        LeadingMonotone(x, y, LogicalSize(x));
      }
    } else {
      assert LogicalSize(0) == 0 && Leading(0, 0) == 0;
    }
  }

  // ---- the code as it runs

  /** Counts bytes by shifting the value away. */
  method LogicalSizeLoop(big: uint256) returns (size: nat)
    ensures size == LogicalSize(big) <= 32
  {
    var value := big;
    size := 0;
    while value != 0
      invariant 0 <= value <= big
      invariant size + LogicalSize(value) == LogicalSize(big)
    {
      value := value / 256;
      size := size + 1;
    }
    WordSize(big);
  }

  lemma LeadingFits(x: nat)
    ensures 0 <= Leading(x, LogicalSize(x)) < EXPONENT_UNIT
    ensures LogicalSize(x) <= 3 ==> x < EXPONENT_UNIT
  {
    if x > 0 {
      LeadingBounds(x);
      LogicalSizeBounds(x);
      if LogicalSize(x) <= 3 { PowMonotone(256, LogicalSize(x), 3); }
    }
    assert Pow(256, 3) == EXPONENT_UNIT;
  }

  /** Moves the significant bytes into a 64-bit word and then a 32-bit mantissa; the
      truncations never drop a bit. */
  method LeadingWord(big: uint256, exponent: nat) returns (mantissa: nat)
    requires exponent == LogicalSize(big)
    ensures mantissa == Leading(big, exponent) < EXPONENT_UNIT
  {
    LeadingFits(big);
    var mantissa64;
    if exponent <= 3 {
      SmallMod(big, MAX_UINT64 + 1);
      mantissa64 := big % (MAX_UINT64 + 1) * Pow(256, 3 - exponent);
    } else {
      mantissa64 := big / Pow(256, exponent - 3);
    }
    assert mantissa64 == Leading(big, exponent);
    mantissa := mantissa64 % (MAX_UINT64 + 1) % (MAX_UINT32 + 1);
  }

  /** Assembles the normal form, moving a set sign bit into the exponent. */
  method FromBigWords(big: uint256) returns (compact: uint32)
    ensures compact == FromBig(big)
    ensures !IsNegated(compact)
  {
    var exponent := LogicalSizeLoop(big);
    var mantissa := LeadingWord(big, exponent);
    if mantissa / SIGN_BIT % 2 != 0 {
      exponent := exponent + 1;
      mantissa := mantissa / 256;
    }
    Fields(exponent, mantissa);
    compact := exponent * EXPONENT_UNIT + mantissa;
  }
}
