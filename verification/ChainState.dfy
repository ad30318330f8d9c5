/** The chain state used to validate a block: sliding windows of the preceding headers'
    bits, versions and timestamps, how they are requested from the chain, how they are
    promoted from one height to the next, and the work they require. */
module ChainState {
  import opened Words
  import opened Arithmetic
  import opened Compact
  import MedianTime
  import Work

  const RETARGETING_INTERVAL: int := 2016
  const TARGET_SPACING_SECONDS: int := 600
  const TARGET_TIMESPAN_SECONDS: int := 1209600
  const MIN_TIMESPAN: int := 302400
  const MAX_TIMESPAN: int := 4838400
  const EASY_SPACING_SECONDS: int := 1200
  const MEDIAN_TIME_PAST_INTERVAL: int := 11
  const CASH_WINDOW: int := 147
  const CASH_OFFSET_TIP: int := 136
  const CASH_OFFSET_TIP_MINUS_6: int := 130
  const MAINNET_SAMPLE: int := 1000
  const TESTNET_SAMPLE: int := 100
  const RETARGET_LIMIT: uint32 := 0x1d00ffff
  const NO_RETARGET_LIMIT: uint32 := 0x207fffff

  /** The configured rules that shape the state: `cash` is the Bitcoin Cash build, and
      `signalVersion` the version signalled by a pool state. */
  datatype Config = Config(retarget: bool, easyBlocks: bool, bip90: bool, bip34Activations: bool,
                           cash: bool, signalVersion: uint32)

  datatype Header = Header(bits: uint32, version: uint32, timestamp: uint32)

  /** A value of the state's own block and the same value of preceding blocks, highest last. */
  datatype Column = Column(self: uint32, ordered: seq<uint32>)

  datatype Data = Data(height: uint64, bits: Column, version: Column, timestamp: Column,
                       retargetTime: uint32)

  predicate IsRetargetHeight(height: nat) {
    height % RETARGETING_INTERVAL == 0
  }

  function WorkLimit(retarget: bool): (r: uint32) {
    if retarget then RETARGET_LIMIT else NO_RETARGET_LIMIT
  }

  // ---- what is requested from the chain

  predicate EasyWindow(height: nat, c: Config) {
    c.easyBlocks && c.retarget && !IsRetargetHeight(height)
  }

  function BitsCount(height: nat, c: Config): (r: nat)
    ensures height > 0 ==> 1 <= r <= height
  {
    if EasyWindow(height, c) then Min(height, RETARGETING_INTERVAL)
    else if c.cash then Min(height, CASH_WINDOW) else 1
  }

  function VersionCount(height: nat, c: Config): (r: nat)
    ensures r <= height
  {
    if c.bip90 || !c.bip34Activations then 0
    else Min(height, if c.retarget && !c.easyBlocks then MAINNET_SAMPLE else TESTNET_SAMPLE)
  }

  function TimestampCount(height: nat, c: Config): (r: nat)
    ensures r <= height && (height > 0 ==> r > 0)
  {
    Min(height, if c.cash then CASH_WINDOW else MEDIAN_TIME_PAST_INTERVAL)
  }

  /** A contiguous run of `count` heights that ends at `high`. */
  datatype Range = Range(count: nat, high: nat)

  datatype Request = Unrequested | At(height: nat)

  datatype Map = Map(bits: Range, bitsSelf: nat, version: Range, versionSelf: nat,
                     timestamp: Range, timestampSelf: nat, timestampRetarget: Request)

  function RetargetHeight(height: nat, c: Config): (r: Request)
    requires height > 0
    ensures r.At? <==> c.retarget
    ensures r.At? ==> r.height < height
  {
    if !c.retarget then Unrequested
    else At(height - if IsRetargetHeight(height) then RETARGETING_INTERVAL
                     else height % RETARGETING_INTERVAL)
  }

  /** The requested height is the latest retarget height below the given one. */
  lemma RetargetHeightIsLatest(height: nat, c: Config)
    requires height > 0 && c.retarget
    ensures var latest := RetargetHeight(height, c).height;
            IsRetargetHeight(latest) && forall h :: latest < h < height ==> !IsRetargetHeight(h)
  {
    var latest := RetargetHeight(height, c).height;
    DivModFacts(height, RETARGETING_INTERVAL);
    forall h | latest < h < height ensures !IsRetargetHeight(h) {
      DivModFacts(h, RETARGETING_INTERVAL);
    }
  }

  function GetMap(height: nat, c: Config): (r: Map) {
    if height == 0 then Map(Range(0, 0), 0, Range(0, 0), 0, Range(0, 0), 0, At(0))
    else Map(Range(BitsCount(height, c), height - 1), height,
             Range(VersionCount(height, c), height - 1), height,
             Range(TimestampCount(height, c), height - 1), height,
             RetargetHeight(height, c))
  }

  // ---- promotion

  /** Enqueues a value and dequeues the oldest one when the window overflows. */
  function Enqueue(window: seq<uint32>, value: uint32, limit: nat): (r: seq<uint32>) {
    if |window| + 1 > limit then (window + [value])[1..] else window + [value]
  }

  /** The state of the memory pool above a block; a height that overflows becomes zero. */
  function ToPool(top: Data, c: Config): (r: Data) {
    var height := if top.height == MAX_UINT64 then 0 else top.height + 1;
    Data(height,
         Column(WorkLimit(c.retarget), Enqueue(top.bits.ordered, top.bits.self, BitsCount(height, c))),
         Column(c.signalVersion, Enqueue(top.version.ordered, top.version.self, VersionCount(height, c))),
         Column(MAX_UINT32, Enqueue(top.timestamp.ordered, top.timestamp.self, TimestampCount(height, c))),
         if c.retarget && IsRetargetHeight(top.height) then top.timestamp.self else top.retargetTime)
  }

  /** The state of a block at the height of a pool state. */
  function ToBlock(pool: Data, header: Header): (r: Data) {
    pool.(bits := pool.bits.(self := header.bits),
          version := pool.version.(self := header.version),
          timestamp := pool.timestamp.(self := header.timestamp))
  }

  /** The state of a header above its parent. */
  function ToHeader(parent: Data, header: Header, c: Config): (r: Data) {
    ToBlock(ToPool(parent, c), header)
  }

  /** Promotion along a list of headers, lowest first. */
  function Promote(start: Data, headers: seq<Header>, c: Config): (r: Data)
    decreases |headers|
  {
    if headers == [] then start
    else ToHeader(Promote(start, headers[..|headers| - 1], c), headers[|headers| - 1], c)
  }

  // ---- median time past

  function TimestampsPosition(times: seq<uint32>, tip: bool, c: Config): (r: nat)
    ensures r <= |times|
  {
    if c.cash && tip && |times| >= CASH_OFFSET_TIP then CASH_OFFSET_TIP
    else if c.cash && !tip && |times| >= CASH_OFFSET_TIP_MINUS_6 then CASH_OFFSET_TIP_MINUS_6
    else if |times| > 11 then |times| - 11 else 0
  }

  function TimestampsSubset(times: seq<uint32>, tip: bool, c: Config): (r: seq<uint32>) {
    var at := TimestampsPosition(times, tip, c);
    times[at..at + Min(|times| - at, MEDIAN_TIME_PAST_INTERVAL)]
  }

  function MedianTimePast(times: seq<uint32>, tip: bool, c: Config): (r: uint32) {
    MedianTime.Median(TimestampsSubset(times, tip, c))
  }

  // ---- work required

  function High(window: seq<uint32>): (r: uint32)
    requires window != []
  {
    window[|window| - 1]
  }

  function RangeConstrain(value: int, minimum: int, maximum: int): (r: int)
    ensures minimum <= maximum ==> minimum <= r <= maximum
  {
    if value < minimum then minimum else if value > maximum then maximum else value
  }

  /** The bounded time the last interval took; the difference is taken in signed 64 bits. */
  function RetargetTimespan(high: uint32, retarget: uint32): (r: nat) {
    RangeConstrain(high - retarget, MIN_TIMESPAN, MAX_TIMESPAN)
  }

  /** The bits of a target: the limit's own bits when the target is above the limit. */
  function LimitedBits(target: uint256): (r: uint32) {
    if target > Target(RETARGET_LIMIT) then RETARGET_LIMIT else NormalIsWord(target); FromBig(target)
  }

  lemma NormalIsWord(x: uint256)
    ensures 0 <= FromBig(x) <= MAX_UINT32
  {
    ExpandNormal(x);
  }

  /** Retargeting in 256-bit arithmetic, where the product wraps. */
  function WorkRequiredRetarget(bits: uint32, timespan: nat): (r: uint32) {
    LimitedBits(Target(bits) * timespan % TWO_256 / TARGET_TIMESPAN_SECONDS)
  }

  /** A retarget height, or bits other than the minimum difficulty. */
  predicate IsRetargetOrNonLimit(height: nat, bits: uint32) {
    bits != RETARGET_LIMIT || IsRetargetHeight(height)
  }

  /** The downward scan for real difficulty, with the height decrement of an unsigned word. */
  function EasyScan(bits: seq<uint32>, height: uint64): (r: uint32) {
    if bits == [] then RETARGET_LIMIT
    else
      var below := if height == 0 then MAX_UINT64 else height - 1;
      if IsRetargetOrNonLimit(below, High(bits)) then High(bits)
      else EasyScan(bits[..|bits| - 1], below)
  }

  function EasyTimeLimit(high: uint32): (r: uint32) {
    Min(high + EASY_SPACING_SECONDS, MAX_UINT32)
  }

  // ---- Bitcoin Cash rules

  const MAINNET_UAHF_HEIGHT: int := 478558
  const TESTNET_UAHF_HEIGHT: int := 1155876
  const MAINNET_DAA_HEIGHT: int := 504031
  const TESTNET_DAA_HEIGHT: int := 1188697

  predicate IsRuleEnabled(height: nat, c: Config, mainnetHeight: int, testnetHeight: int) {
    (!c.retarget && !c.easyBlocks) || height > (if c.easyBlocks then testnetHeight else mainnetHeight)
  }

  predicate IsUahfEnabled(height: nat, c: Config) {
    c.cash && IsRuleEnabled(height, c, MAINNET_UAHF_HEIGHT, TESTNET_UAHF_HEIGHT)
  }

  predicate IsDaaEnabled(height: nat, c: Config) {
    c.cash && IsRuleEnabled(height, c, MAINNET_DAA_HEIGHT, TESTNET_DAA_HEIGHT)
  }

  /** A block by its place in the bits window, with its time. */
  datatype Timed = Timed(index: int, time: uint32)

  function Select02(a: Timed, b: Timed): (r: Timed) {
    if b.time < a.time then b else a
  }

  function Select13AC(a: Timed, b: Timed, c: Timed): (r: Timed) {
    if b.time < a.time then a else Select02(b, c)
  }

  function Select13(a: Timed, b: Timed, c: Timed): (r: Timed) {
    if c.time < a.time then Select13AC(c, b, a) else Select13AC(a, b, c)
  }

  /** The work of the blocks at places lo..hi, wrapping at 2^256. */
  function WorkSum(bits: seq<uint32>, lo: nat, hi: int): (r: uint256)
    requires hi < |bits|
    decreases if lo > hi then 0 else hi - lo + 1
  {
    if lo > hi then 0 else (WorkSum(bits, lo, hi - 1) + Work.Proof(bits[hi])) % TWO_256
  }

  /** Required bits, or the exception of a division by zero work. */
  datatype Required = Required(bits: uint32) | DivisionByZero

  predicate FullCashWindow(bits: seq<uint32>, times: seq<uint32>) {
    |bits| >= CASH_WINDOW && |times| >= CASH_WINDOW
  }

  /** The first and the last block of the adjustment period, each a median of three. */
  function CashPeriod(bits: seq<uint32>, times: seq<uint32>): (r: (Timed, Timed))
    requires FullCashWindow(bits, times)
    ensures |bits| - 3 <= r.0.index <= |bits| - 1
    ensures |bits| - 147 <= r.1.index <= |bits| - 145
  {
    var n := |bits|;
    (Select13(Timed(n - 3, times[144]), Timed(n - 2, times[145]), Timed(n - 1, times[146])),
     Select13(Timed(n - 147, times[0]), Timed(n - 146, times[1]), Timed(n - 145, times[2])))
  }

  /** The work per period scaled to one block; the time difference is taken in 32 bits. */
  function CashWork(bits: seq<uint32>, times: seq<uint32>): (r: uint256)
    requires FullCashWindow(bits, times)
  {
    var (first, last) := CashPeriod(bits, times);
    var work := WorkSum(bits, last.index + 1, first.index) * TARGET_SPACING_SECONDS % TWO_256;
    var timespan := RangeConstrain((first.time - last.time) % (MAX_UINT32 + 1),
                                   72 * TARGET_SPACING_SECONDS, 288 * TARGET_SPACING_SECONDS);
    DivAtMost(work, timespan);
    work / timespan
  }

  function CashDifficultyAdjustment(bits: seq<uint32>, times: seq<uint32>): (r: Required)
    requires FullCashWindow(bits, times)
  {
    var work := CashWork(bits, times);
    if work == 0 then DivisionByZero
    else Arithmetic.DivAtMost(TWO_256 - work, work); Required(LimitedBits((TWO_256 - work) / work))
  }

  /** The emergency adjustment: a target a quarter larger. */
  function WorkRequiredAdjustCash(bits: uint32): (r: uint32) {
    LimitedBits((Target(bits) + Target(bits) / 4) % TWO_256)
  }

  /** The windows a state needs for its work to be computable. */
  predicate WorkDefined(values: Data, c: Config) {
    values.height > 0 ==>
      values.bits.ordered != [] && values.timestamp.ordered != []
      && (c.retarget && IsDaaEnabled(values.height, c) ==>
            FullCashWindow(values.bits.ordered, values.timestamp.ordered))
  }

  function EasyWorkRequired(values: Data, c: Config): (r: Required)
    requires values.height > 0 && c.retarget && WorkDefined(values, c)
  {
    if values.timestamp.self > EasyTimeLimit(High(values.timestamp.ordered)) then Required(RETARGET_LIMIT)
    else if IsDaaEnabled(values.height, c) then
      CashDifficultyAdjustment(values.bits.ordered, values.timestamp.ordered)
    else Required(EasyScan(values.bits.ordered, values.height))
  }

  function WorkRequired(values: Data, c: Config): (r: Required)
    requires WorkDefined(values, c)
  {
    var bits, times := values.bits.ordered, values.timestamp.ordered;
    if values.height == 0 then Required(0)
    else if !c.retarget then Required(High(bits))
    else if IsRetargetHeight(values.height) && !IsDaaEnabled(values.height, c) then
      Required(WorkRequiredRetarget(High(bits), RetargetTimespan(High(times), values.retargetTime)))
    else if c.easyBlocks then EasyWorkRequired(values, c)
    else if IsUahfEnabled(values.height, c) then
      if IsDaaEnabled(values.height, c) then CashDifficultyAdjustment(bits, times)
      else if (MedianTimePast(times, true, c) - MedianTimePast(times, false, c)) % (MAX_UINT32 + 1)
              > 12 * 3600 then
        Required(WorkRequiredAdjustCash(High(bits)))
      else Required(High(bits))
    else Required(High(bits))
  }

  // ---- the loops as they run

  /** The easy-blocks scan with its reverse iterator and pre-decremented height. */
  method EasyWorkScan(values: Data) returns (r: uint32)
    ensures r == EasyScan(values.bits.ordered, values.height)
  {
    var height: uint64 := values.height;
    var at := |values.bits.ordered|;
    assert values.bits.ordered[..at] == values.bits.ordered;
    while at != 0
      invariant 0 <= at <= |values.bits.ordered|
      invariant EasyScan(values.bits.ordered[..at], height) == EasyScan(values.bits.ordered, values.height)
    {
      at := at - 1;
      height := if height == 0 then MAX_UINT64 else height - 1;
      if IsRetargetOrNonLimit(height, values.bits.ordered[at]) {
        return values.bits.ordered[at];
      }
      assert values.bits.ordered[..at + 1][..at] == values.bits.ordered[..at];
    }
    return RETARGET_LIMIT;
  }

  /** The accumulation of work over the adjustment period. */
  method AccumulateWork(bits: seq<uint32>, lo: nat, hi: nat) returns (work: uint256)
    requires hi < |bits|
    ensures work == WorkSum(bits, lo, hi)
  {
    work := 0;
    var i := lo;
    while i <= hi
      invariant lo <= i && (i <= hi + 1 || i == lo)
      invariant work == WorkSum(bits, lo, Min(i - 1, hi))
    {
      work := (work + Work.Proof(bits[i])) % TWO_256;
      i := i + 1;
    }
  }

  lemma CountThree(a: uint32, b: uint32, c: uint32, v: int)
    ensures MedianTime.CountBelow([a, b, c], v)
         == (if a < v then 1 else 0) + (if b < v then 1 else 0) + if c < v then 1 else 0
  {
    assert [a, b, c][1..] == [b, c] && [b, c][1..] == [c];
    assert MedianTime.CountBelow([c], v) == if c < v then 1 else 0;
  }

  /** The selection is one of the three blocks and its time is the median of the times. */
  lemma SelectIsMedian(a: Timed, b: Timed, c: Timed)
    ensures Select13(a, b, c) in {a, b, c}
    ensures Select13(a, b, c).time == MedianTime.Median([a.time, b.time, c.time])
  {
    var m: int := Select13(a, b, c).time;
    CountThree(a.time, b.time, c.time, m);
    CountThree(a.time, b.time, c.time, m + 1);
    MedianTime.MedianUnique([a.time, b.time, c.time], m);
  }
}
