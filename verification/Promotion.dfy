/** Promoting a chain state header by header gives the same answers as rebuilding it from
    the whole chain at the final height. */
module Promotion {
  import opened Words
  import opened ChainState

  function BitsOf(chain: seq<Header>): (r: seq<uint32>)
    ensures |r| == |chain| && forall i :: 0 <= i < |chain| ==> r[i] == chain[i].bits
  {
    seq(|chain|, i requires 0 <= i < |chain| => chain[i].bits)
  }

  function VersionsOf(chain: seq<Header>): (r: seq<uint32>)
    ensures |r| == |chain| && forall i :: 0 <= i < |chain| ==> r[i] == chain[i].version
  {
    seq(|chain|, i requires 0 <= i < |chain| => chain[i].version)
  }

  function TimesOf(chain: seq<Header>): (r: seq<uint32>)
    ensures |r| == |chain| && forall i :: 0 <= i < |chain| ==> r[i] == chain[i].timestamp
  {
    seq(|chain|, i requires 0 <= i < |chain| => chain[i].timestamp)
  }

  predicate InChain(chain: seq<Header>, h: nat) {
    0 < h < |chain| <= MAX_UINT64 + 1
  }

  function Last(column: seq<uint32>, h: nat, n: nat): (r: seq<uint32>)
    requires n <= h <= |column|
  {
    column[h - n..h]
  }

  function Read(column: seq<uint32>, range: Range): (r: seq<uint32>)
    requires range.count <= range.high + 1 <= |column|
  {
    column[range.high + 1 - range.count..range.high + 1]
  }

  /** The state at a height holds what the map requests from the chain; an unrequested
      retarget timestamp may be anything. */
  ghost predicate Populated(d: Data, chain: seq<Header>, h: nat, c: Config)
    requires InChain(chain, h)
  {
    var m := GetMap(h, c);
    && d.height == h
    && d.bits == Column(chain[m.bitsSelf].bits, Read(BitsOf(chain), m.bits))
    && d.version == Column(chain[m.versionSelf].version, Read(VersionsOf(chain), m.version))
    && d.timestamp == Column(chain[m.timestampSelf].timestamp, Read(TimesOf(chain), m.timestamp))
    && (m.timestampRetarget.At? ==> d.retargetTime == chain[m.timestampRetarget.height].timestamp)
  }

  /** How many of the latest bits the work at a height can depend on. */
  function BitsNeeded(h: nat, c: Config): (r: nat)
    ensures h > 0 ==> 1 <= r <= h
  {
    var base := if c.cash then Min(h, CASH_WINDOW) else 1;
    if EasyWindow(h, c) && h % RETARGETING_INTERVAL > base then h % RETARGETING_INTERVAL else base
  }

  /** What promotion keeps: exact version and timestamp windows and retarget time, and a bits
      window that ends at the parent and is long enough, though not always as requested. */
  ghost predicate Tracks(d: Data, chain: seq<Header>, h: nat, c: Config)
    requires InChain(chain, h)
  {
    && d.height == h
    && d.bits.self == chain[h].bits
    && BitsNeeded(h, c) <= |d.bits.ordered| <= h
    && d.bits.ordered == Last(BitsOf(chain), h, |d.bits.ordered|)
    && d.version == Column(chain[h].version, Last(VersionsOf(chain), h, VersionCount(h, c)))
    && d.timestamp == Column(chain[h].timestamp, Last(TimesOf(chain), h, TimestampCount(h, c)))
    && (c.retarget ==> d.retargetTime == chain[RetargetHeight(h, c).height].timestamp)
  }

  lemma PopulatedTracks(d: Data, chain: seq<Header>, h: nat, c: Config)
    requires InChain(chain, h) && Populated(d, chain, h, c)
    ensures Tracks(d, chain, h, c)
  {
  }

  lemma EnqueueLast(column: seq<uint32>, h: nat, n: nat, limit: nat)
    requires n <= h < |column|
    ensures Enqueue(Last(column, h, n), column[h], limit)
         == Last(column, h + 1, if n + 1 > limit then n else n + 1)
  {
    var longer := Last(column, h, n) + [column[h]];
    assert longer == column[h - n..h + 1];
    assert longer[1..] == column[h - n + 1..h + 1];
  }

  lemma NeededGrowsByOne(h: nat, c: Config)
    requires h > 0
    ensures BitsNeeded(h + 1, c) <= BitsNeeded(h, c) + 1
    ensures BitsNeeded(h + 1, c) <= BitsCount(h + 1, c)
  {
  }

  /** The bits window stays long enough: it loses its oldest entry only when it is longer
      than a rebuild would read. */
  lemma BitsTrack(window: seq<uint32>, all: seq<uint32>, h: nat, c: Config)
    requires 0 < h < |all| && BitsNeeded(h, c) <= |window| <= h && window == Last(all, h, |window|)
    ensures var r := Enqueue(window, all[h], BitsCount(h + 1, c));
            BitsNeeded(h + 1, c) <= |r| <= h + 1 && r == Last(all, h + 1, |r|)
  {
    EnqueueLast(all, h, |window|, BitsCount(h + 1, c));
    NeededGrowsByOne(h, c);
  }

  lemma RetargetTrack(h: nat, c: Config)
    requires h > 0 && c.retarget
    ensures RetargetHeight(h + 1, c) == if IsRetargetHeight(h) then At(h) else RetargetHeight(h, c)
  {
    var q := h / RETARGETING_INTERVAL;
    assert h == RETARGETING_INTERVAL * q + h % RETARGETING_INTERVAL;
  }

  lemma VersionsTrack(all: seq<uint32>, h: nat, c: Config)
    requires 0 < h < |all|
    ensures Enqueue(Last(all, h, VersionCount(h, c)), all[h], VersionCount(h + 1, c))
         == Last(all, h + 1, VersionCount(h + 1, c))
  {
    EnqueueLast(all, h, VersionCount(h, c), VersionCount(h + 1, c));
  }

  lemma TimesTrack(all: seq<uint32>, h: nat, c: Config)
    requires 0 < h < |all|
    ensures Enqueue(Last(all, h, TimestampCount(h, c)), all[h], TimestampCount(h + 1, c))
         == Last(all, h + 1, TimestampCount(h + 1, c))
  {
    EnqueueLast(all, h, TimestampCount(h, c), TimestampCount(h + 1, c));
  }

  /** One header keeps the invariant. */
  lemma HeaderTracks(d: Data, chain: seq<Header>, h: nat, c: Config)
    requires InChain(chain, h) && h + 1 < |chain| && Tracks(d, chain, h, c)
    ensures Tracks(ToHeader(d, chain[h + 1], c), chain, h + 1, c)
  {
    hide BitsNeeded, BitsCount, VersionCount, TimestampCount, RetargetHeight, IsRetargetHeight;
    hide Enqueue, Last, BitsOf, VersionsOf, TimesOf;
    BitsTrack(d.bits.ordered, BitsOf(chain), h, c);
    VersionsTrack(VersionsOf(chain), h, c);
    TimesTrack(TimesOf(chain), h, c);
    if c.retarget { RetargetTrack(h, c); }
  }

  /** Any number of headers keeps the invariant. */
  lemma {:induction false} PromoteTracks(d: Data, chain: seq<Header>, h0: nat, h: nat, c: Config)
    requires h0 <= h && InChain(chain, h0) && InChain(chain, h) && Tracks(d, chain, h0, c)
    ensures Tracks(Promote(d, chain[h0 + 1..h + 1], c), chain, h, c)
  {
    hide Tracks, ToHeader;
    if h > h0 {
      PromoteTracks(d, chain, h0, h - 1, c);
      var headers := chain[h0 + 1..h + 1];
      assert headers[..|headers| - 1] == chain[h0 + 1..h];
      HeaderTracks(Promote(d, chain[h0 + 1..h], c), chain, h - 1, c);
    }
  }

  // ---- the minimum-difficulty scan

  /** The highest height below h that is a retarget height or has non-limit bits. */
  ghost function ScanPoint(bits: seq<uint32>, h: nat): (k: nat)
    requires 0 < h <= |bits|
    ensures k < h && IsRetargetOrNonLimit(k, bits[k])
    ensures forall j :: k < j < h ==> !IsRetargetOrNonLimit(j, bits[j])
  {
    if IsRetargetOrNonLimit(h - 1, bits[h - 1]) then h - 1 else ScanPoint(bits, h - 1)
  }

  /** A window that reaches the last retarget height is scanned to that point: the scan
      neither falls through nor decrements below zero. */
  lemma {:induction false} ScanFindsPoint(bits: seq<uint32>, h: nat, n: nat)
    requires 0 < h <= |bits| && h <= MAX_UINT64 && (h - 1) % RETARGETING_INTERVAL < n <= h
    ensures EasyScan(Last(bits, h, n), h) == bits[ScanPoint(bits, h)]
    ensures h - n <= ScanPoint(bits, h)
  {
    var window := Last(bits, h, n);
    assert High(window) == bits[h - 1];
    if !IsRetargetOrNonLimit(h - 1, bits[h - 1]) {
      assert window[..|window| - 1] == Last(bits, h - 1, n - 1);
      ScanFindsPoint(bits, h - 1, n - 1);
    }
  }

  lemma EasyBranch(d: Data, c: Config)
    requires d.height > 0 && EasyWindow(d.height, c) && !IsDaaEnabled(d.height, c)
    requires WorkDefined(d, c)
    ensures WorkRequired(d, c)
         == if d.timestamp.self > EasyTimeLimit(High(d.timestamp.ordered)) then Required(RETARGET_LIMIT)
            else Required(EasyScan(d.bits.ordered, d.height))
  {
    hide WorkRequiredRetarget, CashDifficultyAdjustment, WorkRequiredAdjustCash, MedianTimePast, EasyScan;
  }

  lemma NeededReachesRetarget(h: nat, c: Config)
    requires h > 0 && EasyWindow(h, c)
    ensures (h - 1) % RETARGETING_INTERVAL < BitsNeeded(h, c)
  {
  }

  /** Minimum difficulty: in every state promotion reaches on an easy-blocks network, at a
      height that is neither a retarget height nor under the adjustment algorithm, with the time
      limit not passed, the work is that of the highest earlier block of the whole chain
      that is a retarget height or has non-limit bits. */
  lemma EasyWorkIsLastReal(d: Data, chain: seq<Header>, h: nat, c: Config)
    requires InChain(chain, h) && Tracks(d, chain, h, c) && EasyWindow(h, c) && !IsDaaEnabled(h, c)
    requires WorkDefined(d, c) && d.timestamp.self <= EasyTimeLimit(High(d.timestamp.ordered))
    ensures WorkRequired(d, c) == Required(chain[ScanPoint(BitsOf(chain), h)].bits)
    ensures h - |d.bits.ordered| <= ScanPoint(BitsOf(chain), h)
  {
    hide WorkRequired, EasyScan, EasyTimeLimit, IsDaaEnabled, Last, BitsOf, WorkDefined;
    EasyBranch(d, c);
    NeededReachesRetarget(h, c);
    ScanFindsPoint(BitsOf(chain), h, |d.bits.ordered|);
  }

  // ---- agreement

  lemma TracksDefined(d: Data, chain: seq<Header>, h: nat, c: Config)
    requires InChain(chain, h) && Tracks(d, chain, h, c)
    ensures WorkDefined(d, c)
  {
  }

  lemma {:induction false} WorkSumSuffix(bits: seq<uint32>, k: nat, lo: nat, hi: int)
    requires k <= lo && k <= hi < |bits|
    ensures WorkSum(bits, lo, hi) == WorkSum(bits[k..], lo - k, hi - k)
    decreases hi
  {
    if lo <= hi {
      if k < hi {
        WorkSumSuffix(bits, k, lo, hi - 1);
      } else {
        assert WorkSum(bits, lo, hi - 1) == 0 == WorkSum(bits[k..], lo - k, hi - k - 1);
      }
    }
  }

  /** The adjustment algorithm looks at the last 147 bits only. */
  lemma CashSuffix(bits: seq<uint32>, times: seq<uint32>)
    requires FullCashWindow(bits, times)
    ensures CashDifficultyAdjustment(bits, times)
         == CashDifficultyAdjustment(bits[|bits| - CASH_WINDOW..], times)
  {
    hide LimitedBits, WorkSum;
    var k := |bits| - CASH_WINDOW;
    var tail := bits[k..];
    var (first, last) := CashPeriod(bits, times);
    var (first', last') := CashPeriod(tail, times);
    assert first' == Timed(first.index - k, first.time);
    assert last' == Timed(last.index - k, last.time);
    WorkSumSuffix(bits, k, last.index + 1, first.index);
  }

  lemma CashAgrees(a: Data, b: Data, chain: seq<Header>, h: nat, c: Config)
    requires InChain(chain, h) && Tracks(a, chain, h, c) && Tracks(b, chain, h, c)
    requires c.retarget && IsDaaEnabled(h, c)
    ensures WorkDefined(a, c) && WorkDefined(b, c)
    ensures CashDifficultyAdjustment(a.bits.ordered, a.timestamp.ordered)
         == CashDifficultyAdjustment(b.bits.ordered, b.timestamp.ordered)
  {
    CashSuffix(a.bits.ordered, a.timestamp.ordered);
    CashSuffix(b.bits.ordered, b.timestamp.ordered);
    var all := BitsOf(chain);
    assert a.bits.ordered[|a.bits.ordered| - CASH_WINDOW..] == Last(all, h, CASH_WINDOW);
    assert b.bits.ordered[|b.bits.ordered| - CASH_WINDOW..] == Last(all, h, CASH_WINDOW);
  }

  /** Work is a function of the height, the highest bits and time, the timestamp window, the
      retarget time and, in the two scanning branches, what those branches return. */
  lemma WorkFromParts(a: Data, b: Data, c: Config)
    requires WorkDefined(a, c) && WorkDefined(b, c)
    requires a.height == b.height > 0 && a.timestamp == b.timestamp
    requires High(a.bits.ordered) == High(b.bits.ordered)
    requires c.retarget ==> a.retargetTime == b.retargetTime
    requires c.retarget && IsDaaEnabled(a.height, c)
         ==> CashDifficultyAdjustment(a.bits.ordered, a.timestamp.ordered)
             == CashDifficultyAdjustment(b.bits.ordered, b.timestamp.ordered)
    requires EasyWindow(a.height, c) && !IsDaaEnabled(a.height, c)
         ==> EasyScan(a.bits.ordered, a.height) == EasyScan(b.bits.ordered, b.height)
    ensures WorkRequired(a, c) == WorkRequired(b, c)
  {
    hide WorkRequiredRetarget, CashDifficultyAdjustment, WorkRequiredAdjustCash, MedianTimePast, EasyScan;
  }

  /** Any two states that track the chain at a height require the same work. */
  lemma WorkAgrees(a: Data, b: Data, chain: seq<Header>, h: nat, c: Config)
    requires InChain(chain, h) && Tracks(a, chain, h, c) && Tracks(b, chain, h, c)
    ensures WorkDefined(a, c) && WorkDefined(b, c)
    ensures WorkRequired(a, c) == WorkRequired(b, c)
  {
    hide WorkRequired, EasyScan, CashDifficultyAdjustment, WorkDefined, IsDaaEnabled, EasyWindow, BitsNeeded;
    TracksDefined(a, chain, h, c);
    TracksDefined(b, chain, h, c);
    assert High(a.bits.ordered) == BitsOf(chain)[h - 1] == High(b.bits.ordered);
    hide BitsOf, Last;
    if c.retarget && IsDaaEnabled(h, c) {
      CashAgrees(a, b, chain, h, c);
    } else if EasyWindow(h, c) {
      NeededReachesRetarget(h, c);
      ScanFindsPoint(BitsOf(chain), h, |a.bits.ordered|);
      ScanFindsPoint(BitsOf(chain), h, |b.bits.ordered|);
    }
    WorkFromParts(a, b, c);
  }

  /** Promotion refines rebuild: from a state populated at any height, promotion along the
      chain gives the timestamp window, version window, retarget time, median time past and
      work required of a state populated at the final height. */
  lemma PromotionRefinesRebuild(start: Data, rebuilt: Data, chain: seq<Header>, h0: nat, h: nat, c: Config)
    requires h0 <= h && InChain(chain, h0) && InChain(chain, h)
    requires Populated(start, chain, h0, c) && Populated(rebuilt, chain, h, c)
    ensures var promoted := Promote(start, chain[h0 + 1..h + 1], c);
            && promoted.height == rebuilt.height
            && promoted.timestamp == rebuilt.timestamp
            && promoted.version == rebuilt.version
            && (c.retarget ==> promoted.retargetTime == rebuilt.retargetTime)
            && MedianTimePast(promoted.timestamp.ordered, true, c) == MedianTimePast(rebuilt.timestamp.ordered, true, c)
            && WorkDefined(promoted, c) && WorkDefined(rebuilt, c)
            && WorkRequired(promoted, c) == WorkRequired(rebuilt, c)
  {
    PopulatedTracks(start, chain, h0, c);
    PromoteTracks(start, chain, h0, h, c);
    PopulatedTracks(rebuilt, chain, h, c);
    WorkAgrees(Promote(start, chain[h0 + 1..h + 1], c), rebuilt, chain, h, c);
  }

  // ---- when the bits windows themselves agree

  /** The length of a bits window promoted from one height to another. */
  ghost function PromotedCount(h0: nat, h: nat, c: Config): (r: nat)
    requires 0 < h0 <= h
  {
    if h == h0 then BitsCount(h0, c)
    else
      var n := PromotedCount(h0, h - 1, c);
      if n + 1 > BitsCount(h, c) then n else n + 1
  }

  lemma {:induction false} PromotedLength(start: Data, chain: seq<Header>, h0: nat, h: nat, c: Config)
    requires h0 <= h && InChain(chain, h0) && InChain(chain, h) && Populated(start, chain, h0, c)
    ensures var promoted := Promote(start, chain[h0 + 1..h + 1], c);
            promoted.height == h && |promoted.bits.ordered| == PromotedCount(h0, h, c)
  {
    hide BitsCount;
    if h > h0 {
      PromotedLength(start, chain, h0, h - 1, c);
      var headers := chain[h0 + 1..h + 1];
      assert headers[..|headers| - 1] == chain[h0 + 1..h];
    }
  }

  /** The bits requested at a retarget height. */
  function RetargetBits(c: Config): (r: nat) {
    if c.cash then CASH_WINDOW else 1
  }

  lemma {:induction false} SteadyCount(h0: nat, h: nat, c: Config)
    requires 0 < h0 <= h && !(c.easyBlocks && c.retarget)
    ensures PromotedCount(h0, h, c) == BitsCount(h, c)
  {
    if h > h0 { SteadyCount(h0, h - 1, c); }
  }

  /** With easy blocks a window keeps growing over a retarget height, where fewer are requested,
      and starts short from one. */
  lemma {:induction false} EasyCount(h0: nat, h: nat, c: Config)
    requires 0 < h0 <= h && c.easyBlocks && c.retarget
    ensures IsRetargetHeight(h0) ==> PromotedCount(h0, h, c) == Min(RetargetBits(c) + h - h0, RETARGETING_INTERVAL)
    ensures !IsRetargetHeight(h0)
        ==> PromotedCount(h0, h, c) == Min(if IsRetargetHeight(h) then h - 1 else h, RETARGETING_INTERVAL)
  {
    if h > h0 {
      EasyCount(h0, h - 1, c);
      if IsRetargetHeight(h) && IsRetargetHeight(h0) { IntervalApart(h0, h); }
    }
  }

  lemma IntervalApart(h0: nat, h: nat)
    requires h0 < h && IsRetargetHeight(h0) && IsRetargetHeight(h)
    ensures h - h0 >= RETARGETING_INTERVAL
  {
  }

  /** Promotion gives the bits window a rebuild reads exactly without easy blocks, or at a height
      that is not a retarget one, unless it started at a retarget height not long before. */
  predicate WindowsAgree(h0: nat, h: nat, c: Config) {
    || h == h0 || !c.easyBlocks || !c.retarget
    || (!IsRetargetHeight(h) && (!IsRetargetHeight(h0) || h - h0 >= RETARGETING_INTERVAL - RetargetBits(c)))
  }

  lemma CountsAgree(h0: nat, h: nat, c: Config)
    requires 0 < h0 <= h
    ensures PromotedCount(h0, h, c) == BitsCount(h, c) <==> WindowsAgree(h0, h, c)
  {
    if c.easyBlocks && c.retarget {
      EasyCount(h0, h, c);
      if h > h0 && IsRetargetHeight(h) && IsRetargetHeight(h0) { IntervalApart(h0, h); }
    } else {
      SteadyCount(h0, h, c);
    }
  }

  lemma BitsWindowAgrees(start: Data, rebuilt: Data, chain: seq<Header>, h0: nat, h: nat, c: Config)
    requires h0 <= h && InChain(chain, h0) && InChain(chain, h)
    requires Populated(start, chain, h0, c) && Populated(rebuilt, chain, h, c)
    ensures Promote(start, chain[h0 + 1..h + 1], c).bits == rebuilt.bits <==> WindowsAgree(h0, h, c)
  {
    hide WindowsAgree, BitsCount, PromotedCount, VersionCount, TimestampCount, RetargetHeight, BitsNeeded;
    PopulatedTracks(start, chain, h0, c);
    PromoteTracks(start, chain, h0, h, c);
    PopulatedTracks(rebuilt, chain, h, c);
    PromotedLength(start, chain, h0, h, c);
    CountsAgree(h0, h, c);
  }

  /** They may differ: started at a retarget height of an easy-blocks network, one promotion
      leaves two bits where a rebuild reads a full interval. */
  lemma BitsWindowMayDiffer(start: Data, rebuilt: Data, chain: seq<Header>, c: Config)
    requires |chain| == 2018 && c.retarget && c.easyBlocks && !c.cash
    requires Populated(start, chain, 2016, c) && Populated(rebuilt, chain, 2017, c)
    ensures |Promote(start, [chain[2017]], c).bits.ordered| == 2
    ensures |rebuilt.bits.ordered| == 2016
  {
    assert [chain[2017]][..0] == [];
    assert Promote(start, [chain[2017]], c) == ToHeader(start, chain[2017], c);
  }
}
