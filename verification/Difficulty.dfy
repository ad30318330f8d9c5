/** What the median time and the required work are, in terms of the blocks of the chain. Every number
    of the rules is written out here, so that these results do not lean on the state's own functions. */
module Difficulty {
  import opened Words
  import opened Arithmetic
  import opened Compact
  import opened ChainState
  import opened Promotion
  import opened TargetSafety
  import MedianTime

  lemma TracksHigh(d: Data, chain: seq<Header>, h: nat, c: Config)
    requires InChain(chain, h) && Tracks(d, chain, h, c)
    ensures WorkDefined(d, c) && d.height == h && d.bits.ordered != [] && d.timestamp.ordered != []
    ensures High(d.bits.ordered) == chain[h - 1].bits && High(d.timestamp.ordered) == chain[h - 1].timestamp
    ensures d.timestamp.self == chain[h].timestamp
  {
    TracksDefined(d, chain, h, c);
  }

  /** How many of the latest versions and times a state holds. */
  lemma WindowsMeaning(d: Data, chain: seq<Header>, h: nat, c: Config)
    requires InChain(chain, h) && Tracks(d, chain, h, c)
    ensures var sample := if c.retarget && !c.easyBlocks then 1000 else 100;
            var n := if c.bip90 || !c.bip34Activations then 0 else Min(h, sample);
            d.version == Column(chain[h].version, VersionsOf(chain)[h - n..h])
    ensures var n := Min(h, if c.cash then 147 else 11);
            d.timestamp == Column(chain[h].timestamp, TimesOf(chain)[h - n..h])
  {
  }

  // ---- retargeting

  /** Two weeks within a factor of four. */
  function BoundedWeeks(t: int): (r: nat)
    ensures r == if t < 302400 then 302400 else if t > 4838400 then 4838400 else t
  {
    if t <= 302400 then 302400 else if t < 4838400 then t else 4838400
  }

  /** At a retarget height the required target is the largest expressible one within the limit and the
      last block's target scaled by the time the last 2016 blocks took over two weeks. */
  lemma RetargetMeaning(d: Data, chain: seq<Header>, h: nat, c: Config)
    requires InChain(chain, h) && Tracks(d, chain, h, c) && c.retarget && h % 2016 == 0
    requires !c.cash || h <= if c.easyBlocks then 1188697 else 504031
    ensures WorkDefined(d, c) && WorkRequired(d, c).Required?
    ensures var weeks := BoundedWeeks(chain[h - 1].timestamp - chain[h - 2016].timestamp);
            var product := Target(chain[h - 1].bits) * weeks;
            && LargestWithin(WorkRequired(d, c).bits, Min(product % TWO_256 / 1209600, Target(0x1d00ffff)))
            && (SafeBits(chain[h - 1].bits, c) ==> product < TWO_256)
  {
    TracksHigh(d, chain, h, c);
    assert d.retargetTime == chain[h - 2016].timestamp;
    hide Tracks, LargestWithin, LimitedBits, Target, SafeBits;
    hide EasyWorkRequired, CashDifficultyAdjustment, MedianTimePast;
    var weeks := BoundedWeeks(chain[h - 1].timestamp - chain[h - 2016].timestamp);
    assert RetargetTimespan(chain[h - 1].timestamp, chain[h - 2016].timestamp) == weeks;
    var product: nat := Target(chain[h - 1].bits) * weeks;
    DivAtMost(product % TWO_256, 1209600);
    LimitedIsLargest(product % TWO_256 / 1209600);
    if SafeBits(chain[h - 1].bits, c) { ProductFits(chain[h - 1].bits, weeks, c); }
  }

  lemma LargestMonotone(a: uint32, x: int, b: uint32, y: int)
    requires LargestWithin(a, x) && LargestWithin(b, y) && x <= y
    ensures Target(a) <= Target(b)
  {
    hide Target, FromCompact;
  }

  /** The longer the last interval took, the easier the next one. */
  lemma LaterIsEasier(d: Data, chain: seq<Header>, d': Data, chain': seq<Header>, h: nat, c: Config)
    requires InChain(chain, h) && Tracks(d, chain, h, c) && InChain(chain', h) && Tracks(d', chain', h, c)
    requires c.retarget && h % 2016 == 0 && (!c.cash || h <= if c.easyBlocks then 1188697 else 504031)
    requires chain[h - 1].bits == chain'[h - 1].bits && SafeBits(chain[h - 1].bits, c)
    requires chain[h - 2016].timestamp == chain'[h - 2016].timestamp
    requires chain[h - 1].timestamp <= chain'[h - 1].timestamp
    ensures WorkDefined(d, c) && WorkRequired(d, c).Required? && WorkDefined(d', c) && WorkRequired(d', c).Required?
    ensures Target(WorkRequired(d, c).bits) <= Target(WorkRequired(d', c).bits)
  {
    hide Tracks, WorkDefined, WorkRequired, LargestWithin, Target, SafeBits;
    RetargetMeaning(d, chain, h, c);
    RetargetMeaning(d', chain', h, c);
    var t := Target(chain[h - 1].bits);
    var weeks := BoundedWeeks(chain[h - 1].timestamp - chain[h - 2016].timestamp);
    var weeks' := BoundedWeeks(chain'[h - 1].timestamp - chain'[h - 2016].timestamp);
    MulMono(t, t, weeks, weeks');
    SmallMod(t * weeks, TWO_256);
    SmallMod(t * weeks', TWO_256);
    DivMono(t * weeks, t * weeks', 1209600);
    LargestMonotone(WorkRequired(d, c).bits, Min(t * weeks / 1209600, Target(0x1d00ffff)),
                    WorkRequired(d', c).bits, Min(t * weeks' / 1209600, Target(0x1d00ffff)));
  }

  // ---- median time past

  /** The heights, from the first to below the second, whose timestamps a median is taken of. */
  function MedianHeights(h: nat, tip: bool, c: Config): (r: (nat, nat))
    ensures r.0 <= r.1 <= h
  {
    if c.cash && h >= 147 then if tip then (h - 11, h) else (h - 17, h - 6)
    else if c.cash && tip && h >= 136 then (136, h)
    else if c.cash && !tip && h >= 130 then (130, Min(141, h))
    else (h - Min(11, h), h)
  }

  lemma {:induction false} SliceOfSlice(s: seq<uint32>, lo: nat, hi: nat, at: nat, n: nat)
    requires lo <= hi <= |s| && at + n <= hi - lo
    ensures s[lo..hi][at..at + n] == s[lo + at..lo + at + n]
  {
    var a, b := s[lo..hi][at..at + n], s[lo + at..lo + at + n];
    forall i | 0 <= i < n ensures a[i] == b[i] {}
    assert a == b;
  }

  lemma TracksTimes(d: Data, chain: seq<Header>, h: nat, c: Config)
    requires InChain(chain, h) && Tracks(d, chain, h, c)
    ensures var n := Min(h, if c.cash then 147 else 11);
            |d.timestamp.ordered| == n && d.timestamp.ordered == TimesOf(chain)[h - n..h]
  {
    hide BitsNeeded, BitsOf, VersionsOf, VersionCount, RetargetHeight;
  }

  lemma PositionIs(times: seq<uint32>, h: nat, tip: bool, c: Config)
    requires |times| == Min(h, if c.cash then 147 else 11)
    ensures var (lo, hi) := MedianHeights(h, tip, c);
            var at := TimestampsPosition(times, tip, c);
            lo == h - |times| + at && hi - lo == Min(|times| - at, 11)
  {
  }

  lemma SubsetIsHeights(d: Data, chain: seq<Header>, h: nat, tip: bool, c: Config)
    requires InChain(chain, h) && Tracks(d, chain, h, c)
    ensures var (lo, hi) := MedianHeights(h, tip, c);
            TimestampsSubset(d.timestamp.ordered, tip, c) == TimesOf(chain)[lo..hi]
  {
    hide Tracks, TimesOf, MedianHeights, TimestampsPosition;
    var times := d.timestamp.ordered;
    TracksTimes(d, chain, h, c);
    PositionIs(times, h, tip, c);
    var (lo, hi) := MedianHeights(h, tip, c);
    SliceOfSlice(TimesOf(chain), h - |times|, h, TimestampsPosition(times, tip, c), hi - lo);
  }

  /** The median time past is the one of the timestamps at those heights with at most half of them below
      it and more than half at or below it, and zero if there are none. */
  lemma MedianMeaning(d: Data, chain: seq<Header>, h: nat, tip: bool, c: Config)
    requires InChain(chain, h) && Tracks(d, chain, h, c)
    ensures var (lo, hi) := MedianHeights(h, tip, c);
            var times := TimesOf(chain)[lo..hi];
            var m := MedianTimePast(d.timestamp.ordered, tip, c);
            if times == [] then m == 0
            else m in times && MedianTime.CountBelow(times, m) <= |times| / 2 < MedianTime.CountBelow(times, m + 1)
  {
    SubsetIsHeights(d, chain, h, tip, c);
    hide Tracks, TimestampsSubset, MedianTime.Median, MedianTime.CountBelow, TimesOf, MedianHeights;
    var (lo, hi) := MedianHeights(h, tip, c);
    var times := TimesOf(chain)[lo..hi];
    if times == [] { MedianOfNone(); } else { MedianTime.MedianRank(times); }
  }

  lemma MedianOfNone()
    ensures MedianTime.Median([]) == 0
  {
  }

  /** The heights are the last eleven, or all below eleven, exactly outside eleven heights of a young
      Bitcoin Cash chain, where the window is long enough for the offset and not yet full. */
  lemma MedianOfTip(h: nat, c: Config)
    ensures MedianHeights(h, true, c) == (h - Min(11, h), h) <==> !(c.cash && 136 <= h <= 146)
  {
  }

  /** At the first of them the median is zero. */
  lemma MedianOfNothing(d: Data, chain: seq<Header>, c: Config)
    requires InChain(chain, 136) && Tracks(d, chain, 136, c) && c.cash
    ensures MedianTimePast(d.timestamp.ordered, true, c) == 0
  {
    MedianMeaning(d, chain, 136, true, c);
  }

  // ---- between retargets

  /** With easy blocks, more than twenty minutes after its parent a block needs the minimum; otherwise
      the bits of the highest earlier block that is at a retarget height or has other bits. */
  lemma EasyMeaning(d: Data, chain: seq<Header>, h: nat, c: Config)
    requires InChain(chain, h) && Tracks(d, chain, h, c) && c.retarget && c.easyBlocks && h % 2016 != 0
    requires !c.cash || h <= 1188697
    ensures WorkDefined(d, c)
    ensures var k := ScanPoint(BitsOf(chain), h);
            WorkRequired(d, c)
            == if chain[h].timestamp > Min(chain[h - 1].timestamp + 1200, 0xFFFF_FFFF) then Required(0x1d00ffff)
               else Required(chain[k].bits)
    ensures var k := ScanPoint(BitsOf(chain), h);
            && (chain[k].bits != 0x1d00ffff || k % 2016 == 0)
            && forall j :: k < j < h ==> chain[j].bits == 0x1d00ffff && j % 2016 != 0
  {
    hide Tracks, WorkRequired, WorkDefined, EasyScan, BitsOf;
    TracksHigh(d, chain, h, c);
    EasyBranch(d, c);
    if d.timestamp.self <= EasyTimeLimit(High(d.timestamp.ordered)) { EasyWorkIsLastReal(d, chain, h, c); }
    var k := ScanPoint(BitsOf(chain), h);
    forall j | k < j < h ensures chain[j].bits == 0x1d00ffff && j % 2016 != 0 {
      assert !IsRetargetOrNonLimit(j, BitsOf(chain)[j]);
    }
  }

  /** More than twenty minutes after its parent an easy block needs the minimum under the Bitcoin Cash
      adjustment too, at any height. */
  lemma LateMeaning(d: Data, chain: seq<Header>, h: nat, c: Config)
    requires InChain(chain, h) && Tracks(d, chain, h, c) && c.retarget && c.easyBlocks && c.cash && h > 1188697
    requires chain[h].timestamp > Min(chain[h - 1].timestamp + 1200, 0xFFFF_FFFF)
    ensures WorkDefined(d, c) && WorkRequired(d, c) == Required(0x1d00ffff)
  {
    TracksHigh(d, chain, h, c);
    hide Tracks, CashDifficultyAdjustment, MedianTimePast, WorkRequiredRetarget, WorkRequiredAdjustCash, EasyScan;
  }

  /** The pool state above an easy block stands for a block of the latest possible time: it needs the
      minimum, unless the parent's time is within twenty minutes of the largest. */
  lemma PoolMeaning(d: Data, chain: seq<Header>, h: nat, c: Config)
    requires InChain(chain, h) && h < MAX_UINT64 && Tracks(d, chain, h, c)
    requires c.retarget && c.easyBlocks && !c.cash && (h + 1) % 2016 != 0
    ensures var pool := ToPool(d, c);
            && pool.height == h + 1 && WorkDefined(pool, c)
            && (chain[h].timestamp + 1200 < 0xFFFF_FFFF ==> WorkRequired(pool, c) == Required(0x1d00ffff))
            && (chain[h].timestamp + 1200 >= 0xFFFF_FFFF
                ==> WorkRequired(pool, c) == Required(EasyScan(pool.bits.ordered, h + 1)))
  {
    hide Tracks, WorkRequired, EasyScan, ToPool;
    PoolParts(d, chain, h, c);
    EasyBranch(ToPool(d, c), c);
  }

  lemma EnqueuedHigh(window: seq<uint32>, value: uint32, limit: nat)
    requires limit > 0
    ensures Enqueue(window, value, limit) != [] && High(Enqueue(window, value, limit)) == value
  {
  }

  lemma PoolParts(d: Data, chain: seq<Header>, h: nat, c: Config)
    requires InChain(chain, h) && h < MAX_UINT64 && Tracks(d, chain, h, c) && !c.cash
    ensures var pool := ToPool(d, c);
            && pool.height == h + 1 && WorkDefined(pool, c) && pool.timestamp.self == 0xFFFF_FFFF
            && pool.timestamp.ordered != [] && High(pool.timestamp.ordered) == chain[h].timestamp
  {
    TracksHigh(d, chain, h, c);
    assert d.bits.self == chain[h].bits;
    hide Tracks, Enqueue, BitsCount, TimestampCount, VersionCount;
    EnqueuedHigh(d.bits.ordered, d.bits.self, BitsCount(h + 1, c));
    EnqueuedHigh(d.timestamp.ordered, d.timestamp.self, TimestampCount(h + 1, c));
  }

  /** Without retargeting, and on the main network between retargets before the Bitcoin Cash rules, a
      block needs its parent's bits. */
  lemma PlainMeaning(d: Data, chain: seq<Header>, h: nat, c: Config)
    requires InChain(chain, h) && Tracks(d, chain, h, c)
    requires !c.retarget || (!c.easyBlocks && h % 2016 != 0 && (!c.cash || h <= 478558))
    ensures WorkDefined(d, c) && WorkRequired(d, c) == Required(chain[h - 1].bits)
  {
    TracksHigh(d, chain, h, c);
    hide Tracks, CashDifficultyAdjustment, MedianTimePast, EasyWorkRequired;
    hide WorkRequiredRetarget, WorkRequiredAdjustCash;
  }

  /** The first Bitcoin Cash rule: when the median moved more than twelve hours in six blocks, a quarter
      is added to the target. */
  lemma EmergencyMeaning(d: Data, chain: seq<Header>, h: nat, c: Config)
    requires InChain(chain, h) && Tracks(d, chain, h, c)
    requires c.cash && c.retarget && !c.easyBlocks && h % 2016 != 0 && 478558 < h <= 504031
    ensures WorkDefined(d, c) && WorkRequired(d, c).Required?
    ensures var moved := (MedianTimePast(d.timestamp.ordered, true, c) - MedianTimePast(d.timestamp.ordered, false, c))
                         % 0x1_0000_0000;
            var t := Target(chain[h - 1].bits);
            && (moved <= 43200 ==> WorkRequired(d, c).bits == chain[h - 1].bits)
            && (moved > 43200
                ==> LargestWithin(WorkRequired(d, c).bits, Min((t + t / 4) % TWO_256, Target(0x1d00ffff))))
  {
    hide Tracks, WorkDefined, WorkRequired, WorkRequiredAdjustCash, MedianTimePast, LargestWithin, Target;
    TracksHigh(d, chain, h, c);
    EmergencyBranch(d, c);
    AdjustIsLargest(chain[h - 1].bits);
  }

  lemma EmergencyBranch(d: Data, c: Config)
    requires WorkDefined(d, c) && c.cash && c.retarget && !c.easyBlocks
    requires d.height % 2016 != 0 && 478558 < d.height <= 504031
    ensures var high := High(d.bits.ordered);
            var times := d.timestamp.ordered;
            var moved := (MedianTimePast(times, true, c) - MedianTimePast(times, false, c)) % 0x1_0000_0000;
            WorkRequired(d, c) == Required(if moved > 43200 then WorkRequiredAdjustCash(high) else high)
  {
    hide CashDifficultyAdjustment, MedianTimePast, WorkRequiredRetarget, WorkRequiredAdjustCash, EasyWorkRequired;
  }

  lemma AdjustIsLargest(bits: uint32)
    ensures var t := Target(bits);
            LargestWithin(WorkRequiredAdjustCash(bits), Min((t + t / 4) % TWO_256, Target(0x1d00ffff)))
  {
    hide LimitedBits, LargestWithin, Target;
    LimitedIsLargest((Target(bits) + Target(bits) / 4) % TWO_256);
  }

  // ---- the Bitcoin Cash adjustment

  /** The middle of three by compare and exchange: first with third, first with second, second with third. */
  function Exchanged(a: Timed, b: Timed, c: Timed): (r: Timed) {
    var (first, third) := if a.time > c.time then (c, a) else (a, c);
    var second := if first.time > b.time then first else b;
    if second.time > third.time then third else second
  }

  lemma SelectIsExchanged(a: Timed, b: Timed, c: Timed)
    ensures Select13(a, b, c) == Exchanged(a, b, c)
  {
  }

  /** The middle, by timestamp, of the three blocks from a height on. */
  ghost function MiddleOfThree(chain: seq<Header>, h: nat): (r: nat)
    requires h + 2 < |chain|
    ensures h <= r <= h + 2
  {
    Exchanged(Timed(h, chain[h].timestamp), Timed(h + 1, chain[h + 1].timestamp),
              Timed(h + 2, chain[h + 2].timestamp)).index
  }

  /** Half a day to two days. */
  function BoundedDays(t: int): (r: nat)
    ensures r == if t < 43200 then 43200 else if t > 172800 then 172800 else t
  {
    if t <= 43200 then 43200 else if t < 172800 then t else 172800
  }

  lemma MiddleTime(chain: seq<Header>, h: nat, shift: int)
    requires h + 2 < |chain|
    ensures Select13(Timed(h - shift, chain[h].timestamp), Timed(h + 1 - shift, chain[h + 1].timestamp),
                     Timed(h + 2 - shift, chain[h + 2].timestamp))
         == Timed(MiddleOfThree(chain, h) - shift, chain[MiddleOfThree(chain, h)].timestamp)
  {
  }

  lemma {:induction false} WorkSumUpTo(bits: seq<uint32>, end: nat, lo: nat, hi: int)
    requires hi < end <= |bits|
    ensures WorkSum(bits[..end], lo, hi) == WorkSum(bits, lo, hi)
    decreases if lo > hi then 0 else hi - lo + 1
  {
    if lo <= hi { WorkSumUpTo(bits, end, lo, hi - 1); }
  }

  lemma PeriodOfChain(d: Data, chain: seq<Header>, h: nat, c: Config)
    requires InChain(chain, h) && Tracks(d, chain, h, c) && c.cash && h >= 147
    ensures FullCashWindow(d.bits.ordered, d.timestamp.ordered) && |d.bits.ordered| <= h
    ensures var shift := h - |d.bits.ordered|;
            var (first, last) := (MiddleOfThree(chain, h - 3), MiddleOfThree(chain, h - 147));
            CashPeriod(d.bits.ordered, d.timestamp.ordered)
            == (Timed(first - shift, chain[first].timestamp), Timed(last - shift, chain[last].timestamp))
  {
    TracksTimes(d, chain, h, c);
    var times := d.timestamp.ordered;
    assert times[144] == chain[h - 3].timestamp && times[145] == chain[h - 2].timestamp;
    assert times[146] == chain[h - 1].timestamp && times[0] == chain[h - 147].timestamp;
    assert times[1] == chain[h - 146].timestamp && times[2] == chain[h - 145].timestamp;
    var shift := h - |d.bits.ordered|;
    hide Tracks, Select13, MiddleOfThree;
    MiddleTime(chain, h - 3, shift);
    MiddleTime(chain, h - 147, shift);
  }

  /** Work over ten minutes of a bounded time, the product in 256 bits and the time in 32. */
  function PerBlock(work: nat, time: int): (r: nat) {
    var scaled := work * 600 % TWO_256;
    var days := BoundedDays(time % 0x1_0000_0000);
    DivAtMost(scaled, days);
    scaled / days
  }

  /** The work per block of the period of a chain: from the middle of blocks 147 to 145 back to the
      middle of the last three, over the bounded time between those two. */
  ghost function PeriodWork(chain: seq<Header>, h: nat): (r: nat)
    requires InChain(chain, h) && h >= 147
  {
    var first, last := MiddleOfThree(chain, h - 3), MiddleOfThree(chain, h - 147);
    PerBlock(TrueWork(BitsOf(chain), last + 1, first), chain[first].timestamp - chain[last].timestamp)
  }

  lemma WorkOfChain(d: Data, chain: seq<Header>, h: nat, lo: nat, hi: nat, c: Config)
    requires InChain(chain, h) && Tracks(d, chain, h, c) && h - |d.bits.ordered| <= lo && hi < h
    requires h - |d.bits.ordered| <= hi
    ensures var shift := h - |d.bits.ordered|;
            WorkSum(d.bits.ordered, lo - shift, hi - shift) == TrueWork(BitsOf(chain), lo, hi) % TWO_256
  {
    var all := BitsOf(chain);
    var shift := h - |d.bits.ordered|;
    assert d.bits.ordered == all[..h][shift..];
    hide Tracks, WorkSum, TrueWork, BitsOf;
    WorkSumSuffix(all[..h], shift, lo, hi);
    WorkSumUpTo(all, h, lo, hi);
    WorkSumIsTrue(all, lo, hi);
  }

  lemma CashWorkOfChain(d: Data, chain: seq<Header>, h: nat, c: Config)
    requires InChain(chain, h) && Tracks(d, chain, h, c) && c.cash && h >= 147
    ensures FullCashWindow(d.bits.ordered, d.timestamp.ordered)
    ensures CashWork(d.bits.ordered, d.timestamp.ordered) == PeriodWork(chain, h)
  {
    hide Tracks, CashPeriod, WorkSum, TrueWork, MiddleOfThree, BitsOf;
    PeriodOfChain(d, chain, h, c);
    var first, last := MiddleOfThree(chain, h - 3), MiddleOfThree(chain, h - 147);
    WorkOfChain(d, chain, h, last + 1, first, c);
    var t := TrueWork(BitsOf(chain), last + 1, first);
    ModScale(t, 600, TWO_256, t / TWO_256, t % TWO_256);
  }

  /** Under the Bitcoin Cash adjustment a block needs the largest expressible target within the limit
      whose expected work is at least the work per block of the period; without such work it fails. */
  lemma CashMeaning(d: Data, chain: seq<Header>, h: nat, c: Config)
    requires InChain(chain, h) && Tracks(d, chain, h, c) && c.cash && c.retarget
    requires if c.easyBlocks then h > 1188697 && chain[h].timestamp <= Min(chain[h - 1].timestamp + 1200, 0xFFFF_FFFF)
             else h > 504031
    ensures WorkDefined(d, c)
    ensures var work := PeriodWork(chain, h);
            if work == 0 then WorkRequired(d, c).DivisionByZero?
            else WorkRequired(d, c).Required?
                 && LargestWithin(WorkRequired(d, c).bits, Min(TWO_256 / work - 1, Target(0x1d00ffff)))
  {
    hide Tracks, CashWork, PeriodWork, LargestWithin, Target, MedianTimePast, WorkRequired, WorkDefined;
    TracksHigh(d, chain, h, c);
    CashWorkOfChain(d, chain, h, c);
    CashBranch(d, c);
    if PeriodWork(chain, h) > 0 { CashIsLargest(d.bits.ordered, d.timestamp.ordered); }
  }

  lemma CashBranch(d: Data, c: Config)
    requires WorkDefined(d, c) && c.cash && c.retarget && d.height > 0 && d.timestamp.ordered != []
    requires FullCashWindow(d.bits.ordered, d.timestamp.ordered)
    requires if c.easyBlocks
             then d.height > 1188697 && d.timestamp.self <= Min(High(d.timestamp.ordered) + 1200, 0xFFFF_FFFF)
             else d.height > 504031
    ensures WorkRequired(d, c) == CashDifficultyAdjustment(d.bits.ordered, d.timestamp.ordered)
  {
    hide CashDifficultyAdjustment, MedianTimePast, WorkRequiredRetarget, WorkRequiredAdjustCash, EasyScan;
  }
}
