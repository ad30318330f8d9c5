/** The block subsidy and the money it issues. */
module Money {
  import opened Words
  import opened Arithmetic

  const INITIAL_SUBSIDY: int := 50 * 100_000_000
  const SUBSIDY_INTERVAL: int := 210_000
  const RECURSIVE_MONEY: int := 0x02540be3f5
  const MAX_MONEY: int := RECURSIVE_MONEY * SUBSIDY_INTERVAL
  const LAST_ERA: int := 64

  /** The initial subsidy shifted right, which divides it by two once a shift. */
  function Shifted(shift: nat): (r: uint64)
    ensures r <= INITIAL_SUBSIDY
  {
    if shift == 0 then INITIAL_SUBSIDY else Shifted(shift - 1) / 2
  }

  /** A shift by the word size or more is undefined, and the code then does not shift at all. */
  function Subsidy(height: nat): (r: uint64)
    ensures r <= INITIAL_SUBSIDY
  {
    var halvings := height / SUBSIDY_INTERVAL;
    Shifted(if halvings >= LAST_ERA then 0 else halvings)
  }

  lemma HalveQuotient(x: nat, p: nat)
    requires p > 0
    ensures x / p / 2 == x / (2 * p)
  {
    var a, q := x / p, x / p / 2;
    var s := a - 2 * q;
    assert x == p * a + x % p;
    assert p * a == 2 * p * q + p * s by {
      assert a == 2 * q + s;
    }
    assert p * s <= p by {
      if s == 0 { assert p * s == 0; } else { assert s == 1; }
    }
    DivUnique(x, 2 * p, q);
  }

  lemma {:induction false} ShiftedIsQuotient(shift: nat)
    ensures Shifted(shift) == INITIAL_SUBSIDY / Pow(2, shift)
  {
    if shift > 0 {
      ShiftedIsQuotient(shift - 1);
      PowSucc(2, shift - 1);
      HalveQuotient(INITIAL_SUBSIDY, Pow(2, shift - 1));
    }
  }

  lemma {:induction false} ShiftedVanishes(shift: nat)
    requires shift >= 33
    ensures Shifted(shift) == 0
  {
    if shift == 33 { FirstEras(); } else { ShiftedVanishes(shift - 1); }
  }

  /** The subsidy halves every interval exactly until the sixty-fourth halving. */
  lemma SubsidyHalves(height: nat)
    ensures Subsidy(height) == INITIAL_SUBSIDY / Pow(2, height / SUBSIDY_INTERVAL)
       <==> height < LAST_ERA * SUBSIDY_INTERVAL
  {
    var halvings := height / SUBSIDY_INTERVAL;
    ShiftedIsQuotient(halvings);
    if halvings >= LAST_ERA { ShiftedVanishes(halvings); }
  }

  /** The subsidies of all heights below one. */
  ghost function IssuedBelow(height: nat): (r: nat) {
    if height == 0 then 0 else IssuedBelow(height - 1) + Subsidy(height - 1)
  }

  ghost function EraSum(eras: nat): (r: nat) {
    if eras == 0 then 0 else EraSum(eras - 1) + Shifted(eras - 1)
  }

  lemma FirstEras()
    ensures Shifted(33) == 0 && EraSum(33) == RECURSIVE_MONEY
  {
    assert Shifted(4) == 312_500_000 && EraSum(4) == 9_375_000_000;
    assert Shifted(8) == 19_531_250 && EraSum(8) == 9_960_937_500;
    assert Shifted(12) == 1_220_703 && EraSum(12) == 9_997_558_593;
    assert Shifted(16) == 76_293 && EraSum(16) == 9_999_847_409;
    assert Shifted(20) == 4_768 && EraSum(20) == 9_999_990_457;
    assert Shifted(24) == 298 && EraSum(24) == 9_999_999_397;
    assert Shifted(28) == 18 && EraSum(28) == 9_999_999_955;
    assert Shifted(32) == 1 && EraSum(32) == 9_999_999_988;
  }

  lemma {:induction false} LaterEras(eras: nat)
    requires eras >= 33
    ensures EraSum(eras) == RECURSIVE_MONEY
  {
    if eras == 33 { FirstEras(); } else {
      LaterEras(eras - 1);
      ShiftedVanishes(eras - 1);
    }
  }

  lemma {:induction false} IssuedInEra(era: nat, offset: nat)
    requires era < LAST_ERA && offset <= SUBSIDY_INTERVAL
    ensures IssuedBelow(era * SUBSIDY_INTERVAL + offset) == SUBSIDY_INTERVAL * EraSum(era) + offset * Shifted(era)
    decreases era, offset
  {
    hide Shifted;
    if offset > 0 {
      IssuedInEra(era, offset - 1);
      assert (era * SUBSIDY_INTERVAL + offset - 1) / SUBSIDY_INTERVAL == era;
      assert offset * Shifted(era) == (offset - 1) * Shifted(era) + Shifted(era);
    } else if era > 0 {
      IssuedInEra(era - 1, SUBSIDY_INTERVAL);
    }
  }

  lemma {:induction false} IssuedGrows(low: nat, high: nat)
    requires low <= high
    ensures IssuedBelow(low) <= IssuedBelow(high)
  {
    hide Subsidy;
    if low < high { IssuedGrows(low, high - 1); }
  }

  /** The money limit is all that is ever issued, until the shift wraps. */
  lemma IssueIsLimited(height: nat)
    ensures IssuedBelow(height) <= MAX_MONEY <==> height <= LAST_ERA * SUBSIDY_INTERVAL
  {
    hide Shifted;
    var end := LAST_ERA * SUBSIDY_INTERVAL;
    IssuedInEra(63, SUBSIDY_INTERVAL);
    LaterEras(63);
    ShiftedVanishes(63);
    if height <= end {
      IssuedGrows(height, end);
    } else {
      IssuedGrows(end + 1, height);
      FullSubsidyAgain(end);
    }
  }

  lemma FullSubsidyAgain(height: nat)
    requires height == LAST_ERA * SUBSIDY_INTERVAL
    ensures Subsidy(height) == INITIAL_SUBSIDY
  {
  }
}

/** The value rules of transactions and blocks. Rules that do not concern value enter as facts. */
module BlockValue {
  import opened Words
  import opened Money

  const NOT_FOUND: uint64 := MAX_UINT64

  datatype Code =
    | Success
    | EmptyTransaction | PreviousOutputNull | SpendOverflow | InvalidCoinbaseScriptSize
    | CoinbaseTransaction | TransactionInternalDoubleSpend | TransactionSizeLimit
    | PrematureValidation | TransactionNonFinal | UnspentDuplicate | MissingPreviousOutput
    | DoubleSpend | CoinbaseMaturity | SpendExceedsValue | SequenceLocked
    | TransactionEmbeddedSigopLimit | TransactionWeightLimit
    | HeaderFailure | BlockSizeLimit | EmptyBlock | FirstNotCoinbase | ExtraCoinbases
    | ForwardReference | BlockInternalDoubleSpend | MerkleMismatch
    | BlockWeightLimit | CoinbaseHeightMismatch | CoinbaseValueLimit | BlockNonFinal
    | InvalidWitnessCommitment | BlockEmbeddedSigopLimit

  /** An input: whether its point is null, and the value of the output it spends. */
  datatype Input = Input(isNull: bool, prevout: uint64)

  datatype TxFacts = TxFacts(oversizedCoinbase: bool, internalDoubleSpend: bool, tooLarge: bool, segregated: bool,
                             final: bool, duplicate: bool, doubleSpend: bool, mature: bool, locked: bool,
                             tooManySigops: bool, tooHeavy: bool)

  datatype Transaction = Transaction(inputs: seq<Input>, outputs: seq<uint64>, facts: TxFacts)

  datatype BlockFacts = BlockFacts(headerChecks: bool, headerAccepted: bool, tooLarge: bool, forwardReference: bool,
                                   internalDoubleSpend: bool, merkleMatches: bool, tooHeavy: bool,
                                   coinbaseScript: bool, final: bool, commitment: bool, tooManySigops: bool)

  datatype Block = Block(transactions: seq<Transaction>, facts: BlockFacts)

  datatype State = State(height: nat, underCheckpoint: bool, bip30: bool, bip34: bool, bip68: bool, bip141: bool,
                         allowCollisions: bool)

  // Totals.

  /** Adds from the left, stopping at the largest value. */
  function CeilingSum(values: seq<uint64>): (r: uint64) {
    if values == [] then 0
    else CeilingAdd(CeilingSum(values[..|values| - 1]), values[|values| - 1])
  }

  ghost function Sum(values: seq<uint64>): (r: nat) {
    if values == [] then 0 else Sum(values[..|values| - 1]) + values[|values| - 1]
  }

  /** A saturating sum is the true sum cut at the largest value; below it, it is exact. */
  lemma {:induction false} CeilingSumIsCut(values: seq<uint64>)
    ensures CeilingSum(values) == if Sum(values) < MAX_UINT64 then Sum(values) else MAX_UINT64
  {
    if values != [] { CeilingSumIsCut(values[..|values| - 1]); }
  }

  predicate Missing(input: Input) {
    input.prevout == NOT_FOUND
  }

  /** Missing previous outputs count as zero. */
  function PopulatedValue(input: Input): (r: uint64) {
    if Missing(input) then 0 else input.prevout
  }

  function InputValues(tx: Transaction): (r: seq<uint64>) {
    seq(|tx.inputs|, i requires 0 <= i < |tx.inputs| => PopulatedValue(tx.inputs[i]))
  }

  function TotalInputValue(tx: Transaction): (r: uint64) {
    CeilingSum(InputValues(tx))
  }

  function TotalOutputValue(tx: Transaction): (r: uint64) {
    CeilingSum(tx.outputs)
  }

  function TransactionFees(tx: Transaction): (r: uint64) {
    FloorSubtract(TotalInputValue(tx), TotalOutputValue(tx))
  }

  function FeeValues(txs: seq<Transaction>): (r: seq<uint64>) {
    seq(|txs|, i requires 0 <= i < |txs| => TransactionFees(txs[i]))
  }

  function Fees(block: Block): (r: uint64) {
    CeilingSum(FeeValues(block.transactions))
  }

  function Claim(block: Block): (r: uint64) {
    if block.transactions == [] then 0 else TotalOutputValue(block.transactions[0])
  }

  function Reward(block: Block, height: nat): (r: uint64) {
    CeilingAdd(Fees(block), Subsidy(height))
  }

  // Rules.

  predicate IsCoinbase(tx: Transaction) {
    |tx.inputs| == 1 && tx.inputs[0].isNull
  }

  predicate IsNullNonCoinbase(tx: Transaction) {
    !IsCoinbase(tx) && exists i :: 0 <= i < |tx.inputs| && tx.inputs[i].isNull
  }

  predicate IsMissingPreviousOutputs(tx: Transaction) {
    exists i :: 0 <= i < |tx.inputs| && Missing(tx.inputs[i]) && !tx.inputs[i].isNull
  }

  predicate IsOverspent(tx: Transaction) {
    !IsCoinbase(tx) && TotalOutputValue(tx) > TotalInputValue(tx)
  }

  function CheckTransaction(tx: Transaction, pool: bool): (r: Code) {
    if tx.inputs == [] || tx.outputs == [] then EmptyTransaction
    else if IsNullNonCoinbase(tx) then PreviousOutputNull
    else if TotalOutputValue(tx) > MAX_MONEY then SpendOverflow
    else if !pool && tx.facts.oversizedCoinbase then InvalidCoinbaseScriptSize
    else if pool && IsCoinbase(tx) then CoinbaseTransaction
    else if pool && tx.facts.internalDoubleSpend then TransactionInternalDoubleSpend
    else if pool && tx.facts.tooLarge then TransactionSizeLimit
    else Success
  }

  function AcceptTransaction(tx: Transaction, state: State, pool: bool): (r: Code) {
    if pool && state.underCheckpoint then PrematureValidation
    else if !state.bip141 && tx.facts.segregated then EmptyTransaction
    else if pool && !tx.facts.final then TransactionNonFinal
    else if state.bip30 && !state.allowCollisions && tx.facts.duplicate then UnspentDuplicate
    else if IsMissingPreviousOutputs(tx) then MissingPreviousOutput
    else if tx.facts.doubleSpend then DoubleSpend
    else if !tx.facts.mature then CoinbaseMaturity
    else if IsOverspent(tx) then SpendExceedsValue
    else if state.bip68 && tx.facts.locked then SequenceLocked
    else if pool && tx.facts.tooManySigops then TransactionEmbeddedSigopLimit
    else if pool && state.bip141 && tx.facts.tooHeavy then TransactionWeightLimit
    else Success
  }

  /** The first failure, or success. */
  function FirstCode(codes: seq<Code>): (r: Code)
    ensures r == Success <==> forall i :: 0 <= i < |codes| ==> codes[i] == Success
  {
    if codes == [] then Success
    else if codes[0] != Success then codes[0] else FirstCode(codes[1..])
  }

  function CheckCodes(txs: seq<Transaction>): (r: seq<Code>) {
    seq(|txs|, i requires 0 <= i < |txs| => CheckTransaction(txs[i], false))
  }

  function AcceptCodes(txs: seq<Transaction>, state: State): (r: seq<Code>) {
    seq(|txs|, i requires 0 <= i < |txs| => AcceptTransaction(txs[i], state, false))
  }

  predicate IsExtraCoinbases(block: Block) {
    exists i :: 1 <= i < |block.transactions| && IsCoinbase(block.transactions[i])
  }

  function Check(block: Block): (r: Code) {
    if !block.facts.headerChecks then HeaderFailure
    else if block.facts.tooLarge then BlockSizeLimit
    else if block.transactions == [] then EmptyBlock
    else if !IsCoinbase(block.transactions[0]) then FirstNotCoinbase
    else if IsExtraCoinbases(block) then ExtraCoinbases
    else if block.facts.forwardReference then ForwardReference
    else if block.facts.internalDoubleSpend then BlockInternalDoubleSpend
    else if !block.facts.merkleMatches then MerkleMismatch
    else FirstCode(CheckCodes(block.transactions))
  }

  function Accept(block: Block, state: State, transactions: bool): (r: Code) {
    if !block.facts.headerAccepted then HeaderFailure
    else if state.underCheckpoint then Success
    else if state.bip141 && block.facts.tooHeavy then BlockWeightLimit
    else if state.bip34 && !block.facts.coinbaseScript then CoinbaseHeightMismatch
    else if !(Claim(block) <= Reward(block, state.height)) then CoinbaseValueLimit
    else if !block.facts.final then BlockNonFinal
    else if state.bip141 && !block.facts.commitment then InvalidWitnessCommitment
    else if transactions && block.facts.tooManySigops then BlockEmbeddedSigopLimit
    else if transactions then FirstCode(AcceptCodes(block.transactions, state))
    else Success
  }

  /** What the pool takes a block may hold: a transaction checked and accepted for the pool is no
      coinbase, is checked and accepted in a block, and was not accepted under a checkpoint. */
  lemma PoolIsStricter(tx: Transaction, state: State)
    requires tx.facts.oversizedCoinbase ==> IsCoinbase(tx)
    ensures CheckTransaction(tx, true) == Success ==> !IsCoinbase(tx) && CheckTransaction(tx, false) == Success
    ensures AcceptTransaction(tx, state, true) == Success
        ==> !state.underCheckpoint && AcceptTransaction(tx, state, false) == Success
  {
  }

  // Conservation.

  /** The values of the outputs a transaction spends, as far as they were found. */
  ghost function SpentValues(tx: Transaction): (r: seq<uint64>) {
    seq(|tx.inputs|, i requires 0 <= i < |tx.inputs| =>
      if tx.inputs[i].prevout == 0xFFFF_FFFF_FFFF_FFFF then 0 else tx.inputs[i].prevout)
  }

  lemma InputsAreSpent(tx: Transaction)
    ensures InputValues(tx) == SpentValues(tx)
  {
  }

  ghost function InputSum(txs: seq<Transaction>): (r: nat) {
    if txs == [] then 0 else InputSum(txs[..|txs| - 1]) + Sum(SpentValues(txs[|txs| - 1]))
  }

  ghost function OutputSum(txs: seq<Transaction>): (r: nat) {
    if txs == [] then 0 else OutputSum(txs[..|txs| - 1]) + Sum(txs[|txs| - 1].outputs)
  }

  /** What a transaction that is not overspent leaves over, with exact output totals. */
  lemma FeesAreLeftOver(tx: Transaction)
    requires CheckTransaction(tx, false) == Success
    ensures TotalOutputValue(tx) == Sum(tx.outputs)
    ensures TransactionFees(tx) <= Sum(InputValues(tx))
    ensures !IsOverspent(tx) && !IsCoinbase(tx) ==> Sum(tx.outputs) + TransactionFees(tx) <= Sum(InputValues(tx))
  {
    CeilingSumIsCut(tx.outputs);
    CeilingSumIsCut(InputValues(tx));
  }

  /** After the coinbase, outputs and fees together stay within inputs. */
  lemma {:induction false} FeesCovered(txs: seq<Transaction>, n: nat)
    requires 1 <= n <= |txs|
    requires forall i :: 0 <= i < |txs| ==> CheckTransaction(txs[i], false) == Success
    requires forall i :: 1 <= i < |txs| ==> !IsCoinbase(txs[i]) && !IsOverspent(txs[i])
    ensures OutputSum(txs[..n]) + Sum(FeeValues(txs[..n])) <= InputSum(txs[..n]) + TotalOutputValue(txs[0])
  {
    hide CheckTransaction, IsOverspent, IsCoinbase, TransactionFees, TotalOutputValue, InputValues, SpentValues;
    InputsAreSpent(txs[n - 1]);
    FeesAreLeftOver(txs[n - 1]);
    assert FeeValues(txs[..n])[..n - 1] == FeeValues(txs[..n - 1]);
    assert txs[..n][..n - 1] == txs[..n - 1];
    if n > 1 {
      FeesCovered(txs, n - 1);
    } else {
      assert txs[..0] == [] && FeeValues(txs[..0]) == [];
    }
  }

  /** An accepted block creates no more value than it spends plus the subsidy, whatever saturated. */
  lemma Conservation(block: Block, state: State)
    requires Check(block) == Success && Accept(block, state, true) == Success && !state.underCheckpoint
    ensures OutputSum(block.transactions) <= InputSum(block.transactions) + Subsidy(state.height)
  {
    var txs := block.transactions;
    forall i | 0 <= i < |txs|
      ensures CheckTransaction(txs[i], false) == Success && AcceptTransaction(txs[i], state, false) == Success
    {
      assert CheckCodes(txs)[i] == Success && AcceptCodes(txs, state)[i] == Success;
    }
    assert txs[..|txs|] == txs;
    FeesCovered(txs, |txs|);
    CeilingSumIsCut(FeeValues(txs));
  }

  // What checked and accepted blocks look like, and which blocks are accepted.

  /** A checked block has a coinbase of one null input first and no null input elsewhere, and every
      transaction has inputs and outputs and pays out at most the money limit, without bound. */
  lemma CheckedShape(block: Block, t: nat)
    requires Check(block) == Success
    ensures block.transactions != []
    ensures t < |block.transactions|
        ==> var tx := block.transactions[t];
            && tx.inputs != [] && tx.outputs != [] && Sum(tx.outputs) <= 2_099_999_997_690_000
            && (t == 0 ==> |tx.inputs| == 1 && tx.inputs[0].isNull)
            && (t > 0 ==> forall i :: 0 <= i < |tx.inputs| ==> !tx.inputs[i].isNull)
  {
    if t < |block.transactions| {
      assert CheckCodes(block.transactions)[t] == Success;
      FeesAreLeftOver(block.transactions[t]);
    }
  }

  /** In a block accepted with its transactions, outside checkpoints, every output spent after the
      coinbase was found. */
  lemma AcceptedSpendsFound(block: Block, state: State, t: nat, i: nat)
    requires Check(block) == Success && Accept(block, state, true) == Success && !state.underCheckpoint
    requires 0 < t < |block.transactions| && i < |block.transactions[t].inputs|
    ensures block.transactions[t].inputs[i].prevout != MAX_UINT64
  {
    hide CheckTransaction, IsOverspent;
    CheckedShape(block, t);
    assert AcceptCodes(block.transactions, state)[t] == Success;
  }

  ghost predicate Conserves(block: Block, height: nat) {
    OutputSum(block.transactions) <= InputSum(block.transactions) + Subsidy(height)
  }

  /** Which transactions are checked and accepted in a block, by their true sums. */
  lemma TransactionExactly(tx: Transaction, state: State)
    ensures CheckTransaction(tx, false) == Success
       <==> && tx.inputs != [] && tx.outputs != [] && !tx.facts.oversizedCoinbase
            && Sum(tx.outputs) <= 2_099_999_997_690_000
            && (|tx.inputs| == 1 || forall i :: 0 <= i < |tx.inputs| ==> !tx.inputs[i].isNull)
    ensures CheckTransaction(tx, false) == Success
        ==> (AcceptTransaction(tx, state, false) == Success
             <==> && (forall i :: 0 <= i < |tx.inputs| ==> tx.inputs[i].isNull || tx.inputs[i].prevout != MAX_UINT64)
                  && (tx.inputs[0].isNull || Sum(tx.outputs) <= Sum(SpentValues(tx)))
                  && GoodFacts(tx, state))
  {
    CeilingSumIsCut(tx.outputs);
    CeilingSumIsCut(InputValues(tx));
    InputsAreSpent(tx);
    hide CeilingSum, Sum, InputValues, SpentValues;
    if |tx.inputs| == 1 && !tx.inputs[0].isNull {
      assert !IsNullNonCoinbase(tx);
    }
  }

  /** The rules for a transaction of a block that do not concern value. */
  predicate GoodFacts(tx: Transaction, state: State) {
    && !tx.facts.doubleSpend && tx.facts.mature
    && (!tx.facts.segregated || state.bip141)
    && (!tx.facts.duplicate || !state.bip30 || state.allowCollisions)
    && (!tx.facts.locked || !state.bip68)
  }

  /** Which blocks are checked. */
  lemma CheckedExactly(block: Block)
    ensures Check(block) == Success
       <==> && block.facts.headerChecks && block.facts.merkleMatches && !block.facts.tooLarge
            && !block.facts.forwardReference && !block.facts.internalDoubleSpend && block.transactions != []
            && |block.transactions[0].inputs| == 1 && block.transactions[0].inputs[0].isNull
            && (forall t :: 1 <= t < |block.transactions| ==> !IsCoinbase(block.transactions[t]))
            && forall t :: 0 <= t < |block.transactions| ==> CheckTransaction(block.transactions[t], false) == Success
  {
    hide CheckTransaction;
    var txs := block.transactions;
    if forall t :: 0 <= t < |txs| ==> CheckTransaction(txs[t], false) == Success {
      assert forall t :: 0 <= t < |txs| ==> CheckCodes(txs)[t] == Success;
    } else {
      var t :| 0 <= t < |txs| && CheckTransaction(txs[t], false) != Success;
      assert CheckCodes(txs)[t] != Success;
    }
  }

  /** The rules of acceptance that do not concern value. */
  predicate OtherwiseGood(block: Block, state: State) {
    && block.facts.headerAccepted && block.facts.final && !block.facts.tooManySigops
    && (state.bip141 ==> !block.facts.tooHeavy && block.facts.commitment)
    && (state.bip34 ==> block.facts.coinbaseScript)
  }

  lemma {:induction false} FeesExact(txs: seq<Transaction>, n: nat)
    requires 1 <= n <= |txs| && InputSum(txs[..n]) <= MAX_UINT64
    requires forall i :: 0 <= i < |txs| ==> CheckTransaction(txs[i], false) == Success
    requires forall i :: 1 <= i < |txs| ==> !IsCoinbase(txs[i]) && !IsOverspent(txs[i])
    requires Sum(InputValues(txs[0])) == 0
    ensures OutputSum(txs[..n]) + Sum(FeeValues(txs[..n])) == InputSum(txs[..n]) + TotalOutputValue(txs[0])
  {
    hide CheckTransaction, IsOverspent, IsCoinbase, TransactionFees, TotalOutputValue, InputValues, SpentValues;
    InputsAreSpent(txs[n - 1]);
    assert FeeValues(txs[..n])[..n - 1] == FeeValues(txs[..n - 1]);
    assert txs[..n][..n - 1] == txs[..n - 1];
    if n > 1 {
      FeesExact(txs, n - 1);
      ExactlyLeftOver(txs[n - 1]);
    } else {
      assert txs[..0] == [] && FeeValues(txs[..0]) == [];
      NoFees(txs[0]);
    }
  }

  lemma ExactlyLeftOver(tx: Transaction)
    requires CheckTransaction(tx, false) == Success && !IsCoinbase(tx) && !IsOverspent(tx)
    requires Sum(InputValues(tx)) <= MAX_UINT64
    ensures Sum(tx.outputs) + TransactionFees(tx) == Sum(InputValues(tx))
  {
    CeilingSumIsCut(tx.outputs);
    CeilingSumIsCut(InputValues(tx));
  }

  lemma NoFees(tx: Transaction)
    requires CheckTransaction(tx, false) == Success && Sum(InputValues(tx)) == 0
    ensures TransactionFees(tx) == 0 && TotalOutputValue(tx) == Sum(tx.outputs)
  {
    FeesAreLeftOver(tx);
  }

  ghost predicate AllAccepted(txs: seq<Transaction>, state: State) {
    forall i :: 0 <= i < |txs| ==> AcceptTransaction(txs[i], state, false) == Success
  }

  lemma AcceptedCodes(block: Block, state: State)
    requires Check(block) == Success && AllAccepted(block.transactions, state)
    ensures FirstCode(AcceptCodes(block.transactions, state)) == Success
    ensures forall i :: 0 <= i < |block.transactions|
              ==> CheckTransaction(block.transactions[i], false) == Success && !IsOverspent(block.transactions[i])
    ensures forall i :: 1 <= i < |block.transactions| ==> !IsCoinbase(block.transactions[i])
  {
    hide CheckTransaction, IsOverspent;
    var txs := block.transactions;
    forall i | 0 <= i < |txs| ensures CheckTransaction(txs[i], false) == Success && !IsOverspent(txs[i]) {
      assert CheckCodes(txs)[i] == Success;
    }
  }

  lemma ClaimConserves(block: Block, height: nat)
    requires var txs := block.transactions;
             && txs != [] && InputSum(txs) <= MAX_UINT64 && Sum(InputValues(txs[0])) == 0
             && (forall i :: 0 <= i < |txs| ==> CheckTransaction(txs[i], false) == Success)
             && forall i :: 1 <= i < |txs| ==> !IsCoinbase(txs[i]) && !IsOverspent(txs[i])
    ensures Claim(block) <= Reward(block, height) <==> Conserves(block, height)
  {
    hide CheckTransaction, IsOverspent, IsCoinbase, InputValues, InputSum, OutputSum, FeeValues, Subsidy;
    var txs := block.transactions;
    assert txs[..|txs|] == txs;
    FeesExact(txs, |txs|);
    CeilingSumIsCut(FeeValues(txs));
    FeesAreLeftOver(txs[0]);
    OutputsCounted(txs);
  }

  /** A checked block whose coinbase spends nothing and whose inputs do not saturate is accepted if and
      only if it is good otherwise, its transactions are accepted and it conserves value: all its fees
      may be claimed, and no more. */
  lemma AcceptedExactly(block: Block, state: State)
    requires Check(block) == Success && !state.underCheckpoint && InputSum(block.transactions) <= MAX_UINT64
    requires block.transactions[0].inputs[0].prevout == MAX_UINT64
    ensures Accept(block, state, true) == Success
       <==> && OtherwiseGood(block, state) && AllAccepted(block.transactions, state)
            && OutputSum(block.transactions) <= InputSum(block.transactions) + Subsidy(state.height)
  {
    var txs := block.transactions;
    CheckedShape(block, 0);
    if AllAccepted(txs, state) {
      AcceptedCodes(block, state);
      assert InputValues(txs[0]) == [0] && [0 as uint64][..0] == [];
      assert Sum([0]) == 0;
      hide CheckTransaction, Check, AllAccepted, Claim, Reward, AcceptCodes, IsOverspent, IsCoinbase, FirstCode;
      hide InputSum, OutputSum, Sum, InputValues, Subsidy;
      ClaimConserves(block, state.height);
    } else {
      hide AcceptTransaction;
      var i :| 0 <= i < |txs| && AcceptTransaction(txs[i], state, false) != Success;
      assert AcceptCodes(txs, state)[i] != Success;
    }
  }

  lemma {:induction false} OutputsCounted(txs: seq<Transaction>)
    requires txs != []
    ensures OutputSum(txs) >= Sum(txs[0].outputs)
  {
    hide Sum;
    if |txs| > 1 {
      OutputsCounted(txs[..|txs| - 1]);
    }
  }

  const GOOD_TX: TxFacts := TxFacts(false, false, false, false, true, false, false, true, false, false, false)
  const GOOD_BLOCK: BlockFacts := BlockFacts(true, true, false, false, false, true, false, true, true, true, false)

  /** A coinbase of one output. */
  function Coinbase(claim: uint64): (r: Transaction) {
    Transaction([Input(true, NOT_FOUND)], [claim], GOOD_TX)
  }

  lemma CoinbaseChecks(claim: uint64)
    requires claim <= MAX_MONEY
    ensures CheckTransaction(Coinbase(claim), false) == Success && TotalOutputValue(Coinbase(claim)) == claim
    ensures OutputSum([Coinbase(claim)]) == claim && InputSum([Coinbase(claim)]) == 0
  {
    assert [claim][..0] == [] && [0 as uint64][..0] == [] && [Coinbase(claim)][..0] == [];
    assert CeilingSum([claim]) == claim && Sum([claim]) == claim && Sum([0]) == 0;
    assert SpentValues(Coinbase(claim)) == [0];
  }

  /** Under a checkpoint nothing of this is checked: a lone coinbase may claim any amount of money. */
  lemma CheckpointSkipsValue(state: State, transactions: bool, claim: uint64) returns (block: Block)
    requires state.underCheckpoint && claim <= MAX_MONEY
    ensures Check(block) == Success && Accept(block, state, transactions) == Success
    ensures OutputSum(block.transactions) == claim && InputSum(block.transactions) == 0
  {
    block := Block([Coinbase(claim)], GOOD_BLOCK);
    CoinbaseChecks(claim);
    assert CheckCodes([Coinbase(claim)]) == [Success];
  }

  /** Nor is it when transactions are not asked for: one of them may create any amount. */
  lemma SkippedTransactionsCreate(state: State, value: uint64) returns (block: Block)
    requires value <= MAX_MONEY
    ensures Check(block) == Success && Accept(block, state, false) == Success
    ensures OutputSum(block.transactions) == value && InputSum(block.transactions) == 0
  {
    var spender := Transaction([Input(false, 0)], [value], GOOD_TX);
    block := Block([Coinbase(0), spender], GOOD_BLOCK);
    CoinbaseChecks(0);
    assert [value][..0] == [] && CeilingSum([value]) == value == Sum([value]);
    assert CheckTransaction(spender, false) == Success;
    assert CheckCodes(block.transactions) == [Success, Success];
    assert block.transactions[..1] == [Coinbase(0)];
    assert SpentValues(spender) == [0] && [0 as uint64][..0] == [] && Sum([0]) == 0;
  }

  /** Accepting conserves value for every block exactly when transactions are asked for and the
      state is not under a checkpoint. */
  lemma ConservationExact(state: State, transactions: bool)
    ensures transactions && !state.underCheckpoint
       <==> forall block :: Check(block) == Success && Accept(block, state, transactions) == Success
                            ==> Conserves(block, state.height)
  {
    hide Check, Accept, OutputSum, InputSum, Subsidy;
    if state.underCheckpoint {
      var block := CheckpointSkipsValue(state, transactions, MAX_MONEY);
      assert !Conserves(block, state.height);
    } else if !transactions {
      var block := SkippedTransactionsCreate(state, MAX_MONEY);
      assert !Conserves(block, state.height);
    } else {
      forall block | Check(block) == Success && Accept(block, state, transactions) == Success
        ensures Conserves(block, state.height)
      {
        Conservation(block, state);
      }
    }
  }

  // Whole chains.

  /** A block accepted on the state of its height. */
  ghost predicate Connected(block: Block, state: State, height: nat) {
    && state.height == height && !state.underCheckpoint
    && Check(block) == Success && Accept(block, state, true) == Success
  }

  ghost function ChainInputs(chain: seq<Block>): (r: nat) {
    if chain == [] then 0 else ChainInputs(chain[..|chain| - 1]) + InputSum(chain[|chain| - 1].transactions)
  }

  ghost function ChainOutputs(chain: seq<Block>): (r: nat) {
    if chain == [] then 0 else ChainOutputs(chain[..|chain| - 1]) + OutputSum(chain[|chain| - 1].transactions)
  }

  /** Over any stretch of accepted blocks, from any height on, the value created is at most the
      value spent plus the subsidies of those heights, and so, with what was issued before, at most
      the value spent plus the money limit as long as that limits the subsidies. */
  lemma {:induction false} ChainConservation(start: nat, chain: seq<Block>, states: seq<State>)
    requires |chain| == |states|
    requires forall i :: 0 <= i < |chain| ==> Connected(chain[i], states[i], start + i)
    ensures ChainOutputs(chain) + IssuedBelow(start) <= ChainInputs(chain) + IssuedBelow(start + |chain|)
    ensures start + |chain| <= LAST_ERA * SUBSIDY_INTERVAL
        ==> ChainOutputs(chain) + IssuedBelow(start) <= ChainInputs(chain) + MAX_MONEY
  {
    hide OutputSum, InputSum, Subsidy, Check, Accept;
    if chain != [] {
      var last := |chain| - 1;
      ChainConservation(start, chain[..last], states[..last]);
      assert Connected(chain[last], states[last], start + last);
      Conservation(chain[last], states[last]);
    }
    IssueIsLimited(start + |chain|);
  }

  // The loops over transactions.

  method CheckTransactions(txs: seq<Transaction>) returns (code: Code)
    ensures code == FirstCode(CheckCodes(txs))
  {
    hide CheckTransaction;
    var i := 0;
    assert CheckCodes(txs)[0..] == CheckCodes(txs);
    while i < |txs|
      invariant 0 <= i <= |txs| && FirstCode(CheckCodes(txs)[i..]) == FirstCode(CheckCodes(txs))
    {
      code := CheckTransaction(txs[i], false);
      if code != Success {
        return;
      }
      assert CheckCodes(txs)[i..][1..] == CheckCodes(txs)[i + 1..];
      i := i + 1;
    }
    code := Success;
  }

  method AcceptTransactions(txs: seq<Transaction>, state: State) returns (code: Code)
    ensures code == FirstCode(AcceptCodes(txs, state))
  {
    hide AcceptTransaction;
    var i := 0;
    assert AcceptCodes(txs, state)[0..] == AcceptCodes(txs, state);
    while i < |txs|
      invariant 0 <= i <= |txs| && FirstCode(AcceptCodes(txs, state)[i..]) == FirstCode(AcceptCodes(txs, state))
    {
      code := AcceptTransaction(txs[i], state, false);
      if code != Success {
        return;
      }
      assert AcceptCodes(txs, state)[i..][1..] == AcceptCodes(txs, state)[i + 1..];
      i := i + 1;
    }
    code := Success;
  }
}
