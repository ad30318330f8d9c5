/** Proof-of-work targets stay valid along every run of accepted headers. */
module TargetSafety {
  import opened Words
  import opened Arithmetic
  import opened Compact
  import opened ChainState
  import Work

  /** Bits that expand without overflow to a target within the proof-of-work limit. */
  ghost predicate SafeBits(bits: uint32, c: Config) {
    FromCompact(bits).Big? && Target(bits) <= Target(WorkLimit(c.retarget))
  }

  ghost predicate SafeWindow(window: seq<uint32>, c: Config) {
    forall b <- window :: SafeBits(b, c)
  }

  /** A header's bits are accepted in the state of its own block: they are the work required. */
  ghost predicate Accepted(d: Data, c: Config) {
    d.height > 0 && WorkDefined(d, c) && WorkRequired(d, c) == Required(d.bits.self)
  }

  /** The product of a retarget keeps all its bits. */
  ghost predicate RetargetFits(d: Data) {
    d.bits.ordered != [] && d.timestamp.ordered != []
    && Target(High(d.bits.ordered)) * RetargetTimespan(High(d.timestamp.ordered), d.retargetTime) < TWO_256
  }

  lemma LimitExpands()
    ensures FromCompact(RETARGET_LIMIT).Big? && FromCompact(NO_RETARGET_LIMIT).Big?
    ensures Target(RETARGET_LIMIT) == 0xFFFF * Pow(256, 26)
    ensures FromBig(Target(RETARGET_LIMIT)) == RETARGET_LIMIT
  {
    assert Log256(0xFFFF) == 2 && Log256(0x7FFFFF) == 3;
    assert Exponent(RETARGET_LIMIT) == 29 && Mantissa(RETARGET_LIMIT) == 0xFFFF;
    assert Exponent(NO_RETARGET_LIMIT) == 32 && Mantissa(NO_RETARGET_LIMIT) == 0x7FFFFF;
    ExpansionExact(RETARGET_LIMIT);
    LimitSize();
  }

  lemma LimitSize()
    ensures FromBig(0xFFFF * Pow(256, 26)) == 0x1d00ffff
  {
    hide FromBig, Leading;
    var x, p := 0xFFFF * Pow(256, 26), Pow(256, 26);
    var s := LogicalSize(x);
    LogicalSizeBounds(x);
    PowAdd(256, 2, 26);
    PowAdd(256, 1, 26);
    assert Pow(256, 2) == 0x10000 && Pow(256, 1) == 256;
    if s > 28 { PowMonotone(256, 28, s - 1); }
    if s < 28 { PowMonotone(256, s, 27); }
    assert s == 28;
    LimitLeading(x, p);
  }

  lemma LimitLeading(x: nat, p: nat)
    requires p == Pow(256, 26) && x == 0xFFFF * p && LogicalSize(x) == 28
    ensures FromBig(x) == 0x1d00ffff
  {
    var q := Pow(256, 25);
    assert p == 256 * q;
    DivUnique(x, q, 0xFFFF00);
    assert Leading(x, 28) == 0xFFFF00;
  }

  /** Whatever target is asked for, the resulting bits are within the limit. */
  lemma LimitedIsSafe(t: uint256, c: Config)
    requires c.retarget
    ensures SafeBits(LimitedBits(t), c)
  {
    LimitExpands();
    if t <= Target(RETARGET_LIMIT) {
      ExpandNormal(t);
      RoundingError(t);
    }
  }

  lemma ProductFits(bits: uint32, timespan: nat, c: Config)
    requires c.retarget && SafeBits(bits, c) && timespan <= MAX_TIMESPAN
    ensures Target(bits) * timespan < TWO_256
  {
    LimitExpands();
    Pow256_32();
    var p := Pow(256, 26);
    MulMono(Target(bits), 0xFFFF * p, timespan, MAX_TIMESPAN);
    PowAdd(256, 26, 6);
    assert Pow(256, 6) == 0x1_0000_0000_0000;
    assert 0xFFFF * p * MAX_TIMESPAN == 0xFFFF * MAX_TIMESPAN * p;
  }

  lemma {:induction false} ScanIsSafe(bits: seq<uint32>, height: uint64, c: Config)
    requires c.retarget && SafeWindow(bits, c)
    ensures SafeBits(EasyScan(bits, height), c)
  {
    hide SafeBits;
    if bits == [] {
      LimitIsSafe(c);
    } else {
      ScanIsSafe(bits[..|bits| - 1], if height == 0 then MAX_UINT64 else height - 1, c);
    }
  }

  lemma LimitIsSafe(c: Config)
    ensures SafeBits(WorkLimit(c.retarget), c)
  {
    LimitExpands();
  }

  lemma CashIsSafe(bits: seq<uint32>, times: seq<uint32>, c: Config)
    requires c.retarget && FullCashWindow(bits, times)
    requires CashDifficultyAdjustment(bits, times).Required?
    ensures SafeBits(CashDifficultyAdjustment(bits, times).bits, c)
  {
    hide SafeBits, LimitedBits, CashWork;
    var work := CashWork(bits, times);
    DivAtMost(TWO_256 - work, work);
    LimitedIsSafe((TWO_256 - work) / work, c);
  }

  /** Every branch of the work computation answers with safe bits. */
  lemma WorkIsSafe(d: Data, c: Config)
    requires d.height > 0 && WorkDefined(d, c) && SafeWindow(d.bits.ordered, c)
    requires WorkRequired(d, c).Required?
    ensures SafeBits(WorkRequired(d, c).bits, c)
  {
    hide SafeBits, LimitedBits, CashDifficultyAdjustment, MedianTimePast, EasyScan, Target, RetargetTimespan;
    var bits, times := d.bits.ordered, d.timestamp.ordered;
    LimitIsSafe(c);
    if c.retarget {
      ScanIsSafe(bits, d.height, c);
      if IsDaaEnabled(d.height, c) {
        if CashDifficultyAdjustment(bits, times).Required? { CashIsSafe(bits, times, c); }
      } else {
        RetargetIsSafe(High(bits), RetargetTimespan(High(times), d.retargetTime), c);
      }
    }
  }

  lemma RetargetIsSafe(bits: uint32, timespan: nat, c: Config)
    requires c.retarget
    ensures SafeBits(WorkRequiredRetarget(bits, timespan), c)
    ensures SafeBits(WorkRequiredAdjustCash(bits), c)
  {
    hide SafeBits, LimitedBits, Target;
    var t := Target(bits) * timespan % TWO_256;
    DivAtMost(t, TARGET_TIMESPAN_SECONDS);
    LimitedIsSafe(t / TARGET_TIMESPAN_SECONDS, c);
    LimitedIsSafe((Target(bits) + Target(bits) / 4) % TWO_256, c);
  }

  lemma EnqueueIsSafe(window: seq<uint32>, value: uint32, limit: nat, c: Config)
    requires SafeWindow(window, c) && SafeBits(value, c)
    ensures SafeWindow(Enqueue(window, value, limit), c)
  {
  }

  /** Target safety over every run: when the starting state is safe and the bits of every header
      above it equal the work its state requires, every bits value along the run expands without
      overflow to a target within the limit, and no retarget product exceeds 256 bits. */
  lemma {:induction false} SafeRun(start: Data, headers: seq<Header>, c: Config)
    requires SafeWindow(start.bits.ordered, c) && SafeBits(start.bits.self, c)
    requires forall k :: 0 < k <= |headers| ==> Accepted(Promote(start, headers[..k], c), c)
    ensures var d := Promote(start, headers, c);
            && SafeWindow(d.bits.ordered, c) && SafeBits(d.bits.self, c)
            && (headers != [] && c.retarget ==> RetargetFits(d))
    decreases |headers|
  {
    hide SafeBits, ToHeader, WorkRequired, WorkDefined;
    var n := |headers|;
    if n > 0 {
      var shorter := headers[..n - 1];
      forall k | 0 < k <= n - 1 ensures Accepted(Promote(start, shorter[..k], c), c) {
        assert shorter[..k] == headers[..k];
      }
      SafeRun(start, shorter, c);
      HeaderKeepsSafety(Promote(start, shorter, c), headers[n - 1], c);
      assert headers[..n] == headers;
      AcceptedIsSafe(Promote(start, headers, c), c);
    }
  }

  lemma HeaderKeepsSafety(parent: Data, header: Header, c: Config)
    requires SafeWindow(parent.bits.ordered, c) && SafeBits(parent.bits.self, c)
    ensures SafeWindow(ToHeader(parent, header, c).bits.ordered, c)
  {
    var height := if parent.height == MAX_UINT64 then 0 else parent.height + 1;
    EnqueueIsSafe(parent.bits.ordered, parent.bits.self, BitsCount(height, c), c);
  }

  lemma AcceptedIsSafe(d: Data, c: Config)
    requires SafeWindow(d.bits.ordered, c) && Accepted(d, c)
    ensures SafeBits(d.bits.self, c) && (c.retarget ==> RetargetFits(d))
  {
    hide WorkRequired, SafeBits, Target;
    WorkIsSafe(d, c);
    if c.retarget {
      ProductFits(High(d.bits.ordered), RetargetTimespan(High(d.timestamp.ordered), d.retargetTime), c);
    }
  }

  /** Bits whose target is the largest any bits can express without exceeding a bound. */
  ghost predicate LargestWithin(bits: uint32, bound: int) {
    && FromCompact(bits).Big? && Target(bits) <= bound
    && forall other: uint32 :: FromCompact(other).Big? && Target(other) <= bound ==> Target(other) <= Target(bits)
  }

  lemma NormalIsLargest(t: uint256)
    ensures 0 <= FromBig(t) <= MAX_UINT32 && LargestWithin(FromBig(t), t)
  {
    ZeroExpands();
    hide FromBig, FromCompact, Target;
    NormalIsWord(t);
    forall other: uint32 | FromCompact(other).Big? && Target(other) <= t
      ensures Target(other) <= Target(FromBig(t))
    {
      LargestRepresentable(t, other);
    }
    LargestRepresentable(t, 0);
  }

  lemma ZeroExpands()
    ensures FromCompact(0).Big? && Target(0) == 0
  {
  }

  lemma LimitIsLargest()
    ensures LargestWithin(RETARGET_LIMIT, Target(RETARGET_LIMIT))
  {
    hide FromCompact, Target;
    LimitExpands();
  }

  lemma LimitedIsLargest(t: uint256)
    ensures LargestWithin(LimitedBits(t), Min(t, Target(RETARGET_LIMIT)))
  {
    hide FromBig, FromCompact, Target, LargestWithin;
    LimitIsLargest();
    NormalIsLargest(t);
  }

  /** A retarget scales the old target by the bounded time taken, exactly, and answers with the
      largest expressible target within that and the limit: at most four times the old one. */
  lemma RetargetIsLargest(bits: uint32, high: uint32, retarget: uint32, c: Config)
    requires c.retarget && SafeBits(bits, c)
    ensures var timespan := RetargetTimespan(high, retarget);
            var scaled := Target(bits) * timespan / TARGET_TIMESPAN_SECONDS;
            && LargestWithin(WorkRequiredRetarget(bits, timespan), Min(scaled, Target(RETARGET_LIMIT)))
            && Target(WorkRequiredRetarget(bits, timespan)) <= 4 * Target(bits)
  {
    hide SafeBits, LimitedBits, Target, LargestWithin;
    var timespan := RetargetTimespan(high, retarget);
    ProductFits(bits, timespan, c);
    var product: nat := Target(bits) * timespan;
    SmallMod(product, TWO_256);
    DivAtMost(product, TARGET_TIMESPAN_SECONDS);
    LimitedIsLargest(product / TARGET_TIMESPAN_SECONDS);
    LargestIsWithin(WorkRequiredRetarget(bits, timespan),
                    Min(product / TARGET_TIMESPAN_SECONDS, Target(RETARGET_LIMIT)));
    MulMono(Target(bits), Target(bits), timespan, MAX_TIMESPAN);
    AtMostFourfold(product, Target(bits));
  }

  lemma LargestIsWithin(bits: uint32, bound: int)
    requires LargestWithin(bits, bound)
    ensures Target(bits) <= bound
  {
  }

  lemma AtMostFourfold(product: nat, target: nat)
    requires product <= target * MAX_TIMESPAN
    ensures product / TARGET_TIMESPAN_SECONDS <= 4 * target
  {
  }

  lemma OneExpands()
    ensures FromCompact(0x01010000).Big? && Target(0x01010000) == 1
  {
    PowSucc(256, 1);
    PowSucc(256, 0);
  }

  lemma LargestIsPositive(bits: uint32, bound: int)
    requires LargestWithin(bits, bound)
    ensures Target(bits) > 0 <==> bound >= 1
  {
    OneExpands();
    hide FromCompact, Target;
    assert bound >= 1 ==> Target(0x01010000) <= Target(bits);
  }

  lemma LimitIsPositive()
    ensures Target(RETARGET_LIMIT) >= 1
  {
    hide Target, FromCompact;
    LimitExpands();
    PowMonotone(256, 0, 26);
  }

  /** A retarget keeps the target positive, as a header's bits must be, exactly when the scaled target
      does not fall below one. */
  lemma RetargetStaysPositive(bits: uint32, timespan: nat, c: Config)
    requires c.retarget && SafeBits(bits, c) && timespan <= MAX_TIMESPAN
    ensures Target(WorkRequiredRetarget(bits, timespan)) > 0 <==> Target(bits) * timespan >= TARGET_TIMESPAN_SECONDS
  {
    hide SafeBits, LimitedBits, Target, LargestWithin;
    ProductFits(bits, timespan, c);
    var product: nat := Target(bits) * timespan;
    SmallMod(product, TWO_256);
    DivAtMost(product, TARGET_TIMESPAN_SECONDS);
    LimitedIsLargest(product / TARGET_TIMESPAN_SECONDS);
    LimitIsPositive();
    LargestIsPositive(WorkRequiredRetarget(bits, timespan),
                      Min(product / TARGET_TIMESPAN_SECONDS, Target(RETARGET_LIMIT)));
  }

  /** The Bitcoin Cash adjustment answers with the largest expressible target whose expected work
      is at least the work per block of its period. */
  lemma CashIsLargest(bits: seq<uint32>, times: seq<uint32>)
    requires FullCashWindow(bits, times) && CashWork(bits, times) > 0
    ensures var r := CashDifficultyAdjustment(bits, times);
            r.Required? && LargestWithin(r.bits, Min(TWO_256 / CashWork(bits, times) - 1, Target(RETARGET_LIMIT)))
  {
    hide LimitedBits, CashWork, LargestWithin, Target;
    var work := CashWork(bits, times);
    DivAtMost(TWO_256 - work, work);
    LimitedIsLargest((TWO_256 - work) / work);
    LessOneQuotient(TWO_256, work);
  }

  lemma LessOneQuotient(x: nat, d: nat)
    requires 0 < d <= x
    ensures (x - d) / d == x / d - 1
  {
    var q := x / d;
    assert x == d * q + x % d;
    assert d * (q - 1) == d * q - d;
    MulAtLeastOne(x, d);
    DivUnique(x - d, d, q - 1);
  }

  lemma MulAtLeastOne(x: nat, d: nat)
    requires 0 < d <= x
    ensures x / d >= 1
  {
    DivMono(d, x, d);
    DivUnique(d, d, 1);
  }

  /** An accepted header that is not at a retarget height. */
  ghost predicate BetweenRetargets(d: Data, c: Config) {
    Accepted(d, c) && (c.retarget ==> !IsRetargetHeight(d.height))
  }

  /** Without easy blocks and the Bitcoin Cash rules such a header keeps its parent's bits. */
  lemma HeaderKeepsBits(parent: Data, header: Header, c: Config)
    requires !c.easyBlocks && !c.cash && BetweenRetargets(ToHeader(parent, header, c), c)
    ensures header.bits == parent.bits.self == ToHeader(parent, header, c).bits.self
  {
  }

  /** Along every run of accepted headers that meets no retarget height the bits never change. */
  lemma {:induction false} RunKeepsBits(start: Data, headers: seq<Header>, c: Config)
    requires !c.easyBlocks && !c.cash
    requires forall k :: 0 < k <= |headers| ==> BetweenRetargets(Promote(start, headers[..k], c), c)
    ensures Promote(start, headers, c).bits.self == start.bits.self
    ensures forall k :: 0 <= k < |headers| ==> headers[k].bits == start.bits.self
  {
    hide BetweenRetargets, ToHeader;
    if headers != [] {
      var last := |headers| - 1;
      var before := headers[..last];
      forall k | 0 < k <= last ensures BetweenRetargets(Promote(start, before[..k], c), c) {
        assert before[..k] == headers[..k];
      }
      RunKeepsBits(start, before, c);
      assert headers[..last + 1] == headers;
      HeaderKeepsBits(Promote(start, before, c), headers[last], c);
      forall k | 0 <= k < |headers| ensures headers[k].bits == start.bits.self {
        if k < last { assert before[k] == headers[k]; }
      }
    }
  }

  // When the Bitcoin Cash adjustment divides by zero.

  /** The work of the blocks at places lo..hi, without bound. */
  ghost function TrueWork(bits: seq<uint32>, lo: nat, hi: int): (r: nat)
    requires hi < |bits|
    decreases if lo > hi then 0 else hi - lo + 1
  {
    if lo > hi then 0 else TrueWork(bits, lo, hi - 1) + Work.Proof(bits[hi])
  }

  lemma ModShift(x: nat, q: nat, m: nat)
    requires m > 0
    ensures (x + q * m) % m == x % m
  {
    var d, r := x / m, x % m;
    assert x == m * d + r;
    assert x + q * m == (d + q) * m + r by {
      assert (d + q) * m == d * m + q * m;
    }
    DivModUnique(x + q * m, m, d + q, r);
  }

  lemma ScaleParts(x: int, d: int, r: int, k: int, m: int)
    requires x == m * d + r
    ensures x * k == r * k + d * k * m
  {
    assert (m * d + r) * k == m * d * k + r * k;
    assert m * d * k == d * k * m;
  }

  lemma ModScale(x: nat, k: nat, m: nat, d: nat, r: nat)
    requires m > 0 && x == m * d + r
    ensures r * k % m == x * k % m
  {
    ScaleParts(x, d, r, k, m);
    ModShift(r * k, d * k, m);
  }

  /** The accumulated work is the true work in 256 bits. */
  lemma {:induction false} WorkSumIsTrue(bits: seq<uint32>, lo: nat, hi: int)
    requires hi < |bits|
    ensures WorkSum(bits, lo, hi) == TrueWork(bits, lo, hi) % TWO_256
    decreases if lo > hi then 0 else hi - lo + 1
  {
    hide Work.Proof;
    if lo <= hi {
      WorkSumIsTrue(bits, lo, hi - 1);
      var t := TrueWork(bits, lo, hi - 1);
      assert t == t / TWO_256 * TWO_256 + t % TWO_256;
      ModShift(t % TWO_256 + Work.Proof(bits[hi]), t / TWO_256, TWO_256);
    }
  }

  /** The bounded time of the adjustment period. */
  function CashTimespan(bits: seq<uint32>, times: seq<uint32>): (r: nat)
    requires FullCashWindow(bits, times)
    ensures 43200 <= r <= 172800
  {
    var (first, last) := CashPeriod(bits, times);
    RangeConstrain((first.time - last.time) % (MAX_UINT32 + 1),
                   72 * TARGET_SPACING_SECONDS, 288 * TARGET_SPACING_SECONDS)
  }

  /** The adjustment divides by zero exactly when the scaled work of its period, in 256 bits, is below
      the bounded time. */
  lemma CashDivides(bits: seq<uint32>, times: seq<uint32>)
    requires FullCashWindow(bits, times)
    ensures var (first, last) := CashPeriod(bits, times);
            var scaled := TrueWork(bits, last.index + 1, first.index) * TARGET_SPACING_SECONDS;
            CashDifficultyAdjustment(bits, times).DivisionByZero? <==> scaled % TWO_256 < CashTimespan(bits, times)
  {
    hide LimitedBits, CashPeriod, WorkSum, TrueWork;
    var (first, last) := CashPeriod(bits, times);
    var lo, hi := last.index + 1, first.index;
    WorkSumIsTrue(bits, lo, hi);
    var t := TrueWork(bits, lo, hi);
    ModScale(t, TARGET_SPACING_SECONDS, TWO_256, t / TWO_256, t % TWO_256);
    var work := t * TARGET_SPACING_SECONDS % TWO_256;
    var timespan := CashTimespan(bits, times);
    assert CashWork(bits, times) == work / timespan;
    if work < timespan {
      DivUnique(work, timespan, 0);
    } else {
      MulAtLeastOne(work, timespan);
    }
  }

  /** Safe bits of a positive target stand for at least 2^32 of work, and others for none. */
  lemma SafeWork(bits: uint32, c: Config)
    requires c.retarget && SafeBits(bits, c)
    ensures if Target(bits) > 0 then Work.Proof(bits) >= 0x1_0000_0000 else Work.Proof(bits) == 0
  {
    Work.ProofExact(bits);
    LimitExpands();
    hide Work.Proof, FromCompact, Target, Pow;
    if Target(bits) > 0 {
      Pow256_32();
      PowAdd(256, 28, 4);
      PowAdd(256, 26, 2);
      FourBytes();
      WorkAtLeast(Target(bits), Pow(256, 26), Pow(256, 28));
    }
  }

  lemma FourBytes()
    ensures Pow(256, 4) == 0x1_0000_0000 && Pow(256, 2) == 0x1_0000
  {
    PowSucc(256, 0);
    PowSucc(256, 1);
    PowSucc(256, 2);
    PowSucc(256, 3);
  }

  lemma WorkAtLeast(target: nat, low: nat, high: nat)
    requires target <= 0xFFFF * low && high == low * 0x1_0000 && high * 0x1_0000_0000 == TWO_256 && low > 0
    ensures TWO_256 / (target + 1) >= 0x1_0000_0000
  {
    assert target + 1 <= high;
    MulMono(target + 1, high, 0x1_0000_0000, 0x1_0000_0000);
    DivMono((target + 1) * 0x1_0000_0000, TWO_256, target + 1);
    DivUnique((target + 1) * 0x1_0000_0000, target + 1, 0x1_0000_0000);
  }

  lemma {:induction false} SafeWorkSum(bits: seq<uint32>, lo: nat, hi: int, c: Config)
    requires c.retarget && hi < |bits| && forall i :: lo <= i <= hi ==> SafeBits(bits[i], c)
    ensures if exists i :: lo <= i <= hi && Target(bits[i]) > 0 then TrueWork(bits, lo, hi) >= 0x1_0000_0000
            else TrueWork(bits, lo, hi) == 0
    decreases if lo > hi then 0 else hi - lo + 1
  {
    hide SafeBits, Target, Work.Proof;
    if lo <= hi {
      SafeWorkSum(bits, lo, hi - 1, c);
      SafeWork(bits[hi], c);
    }
  }

  /** On safe bits whose work, scaled, fits 256 bits, the adjustment divides by zero exactly when every
      block of its period has a target of zero; so never on a chain of valid headers. */
  lemma CashDividesByZero(bits: seq<uint32>, times: seq<uint32>, c: Config)
    requires c.retarget && FullCashWindow(bits, times) && SafeWindow(bits, c)
    requires var (first, last) := CashPeriod(bits, times);
             TrueWork(bits, last.index + 1, first.index) * TARGET_SPACING_SECONDS < TWO_256
    ensures var (first, last) := CashPeriod(bits, times);
            CashDifficultyAdjustment(bits, times).DivisionByZero?
            <==> forall i :: last.index < i <= first.index ==> Target(bits[i]) == 0
  {
    hide SafeBits, Target, CashDifficultyAdjustment, CashPeriod, TrueWork, CashTimespan;
    var (first, last) := CashPeriod(bits, times);
    var lo, hi := last.index + 1, first.index;
    SafeWorkSum(bits, lo, hi, c);
    SmallMod(TrueWork(bits, lo, hi) * TARGET_SPACING_SECONDS, TWO_256);
    CashDivides(bits, times);
  }
}
