/** Reading and writing transactions on streams, step by step, against the wire functions. */
module TransactionStream {
  import opened Words
  import opened Arithmetic
  import opened Streams
  import opened Sinks
  import opened PrefixedBytes
  import opened WireList
  import opened WireTransaction
  import LittleEndian
  import VariableInteger

  const NULL_HASH: Hash := seq(32, _ => 0)
  const RESET_POINT: Point := Point(NULL_HASH, 0)
  const RESET_INPUT: Input := Input(RESET_POINT, [], 0, [])
  const RESET_OUTPUT: Output := Output(MAX_UINT64, [])
  const RESET_STACK: Stack := []

  /** The elements read before the first that fails. */
  ghost function ReadGood<T>(read: Read<T>, count: nat, bytes: seq<byte>): (r: seq<T>)
    ensures |r| <= count
    decreases count
  {
    if count == 0 || read(bytes).None? then []
    else [read(bytes).value.0] + ReadGood(read, count - 1, read(bytes).value.1)
  }

  /** What a failed read leaves of a list: nothing beyond the guard, else the elements read and
      reset ones up to the count. */
  ghost predicate FailedList<T(!new)>(read: Read<T>, reset: T, bytes: seq<byte>, xs: seq<T>) {
    match VariableInteger.Read(bytes)
    case None => forall x :: x in xs ==> x == reset
    case Some((count, next)) =>
      if count > MAX_BLOCK_SIZE then xs == [] else
      var good := ReadGood(read, count, next);
      xs == good + seq(count - |good|, _ => reset)
  }

  /** A list being read: what is left to read completes it, or it failed and is reset from there. */
  ghost predicate Progress<T>(read: Read<T>, reset: T, count: nat, bytes: seq<byte>,
                              failed: bool, xs: seq<T>, rest: seq<byte>) {
    && |xs| <= count
    && if failed then
         var good := ReadGood(read, count, bytes);
         && ReadMore(read, [], count, bytes).None?
         && |good| <= |xs| && xs == good + seq(|xs| - |good|, _ => reset)
       else
         && ReadMore(read, [], count, bytes) == ReadMore(read, xs, count - |xs|, rest)
         && ReadGood(read, count, bytes) == xs + ReadGood(read, count - |xs|, rest)
  }

  lemma ProgressStart<T>(read: Read<T>, reset: T, count: nat, bytes: seq<byte>)
    ensures Progress(read, reset, count, bytes, false, [], bytes)
  {
    assert [] + ReadGood(read, count, bytes) == ReadGood(read, count, bytes);
  }

  lemma {:induction false} ProgressStep<T>(read: Read<T>, reset: T, count: nat, bytes: seq<byte>,
                         failed: bool, xs: seq<T>, rest: seq<byte>, x: T, next: seq<byte>)
    requires Progress(read, reset, count, bytes, failed, xs, rest) && |xs| < count
    requires !failed && read(rest).Some? ==> read(rest) == Some((x, next))
    requires failed || read(rest).None? ==> x == reset
    ensures Progress(read, reset, count, bytes, failed || read(rest).None?, xs + [x], next)
  {
    var good := ReadGood(read, count, bytes);
    if failed {
      assert xs + [x] == good + seq(|xs| + 1 - |good|, _ => reset);
    } else if read(rest).None? {
      assert xs + [] == xs;
      assert xs + [x] == good + seq(|xs| + 1 - |good|, _ => reset);
    } else {
      var more := ReadGood(read, count - |xs| - 1, next);
      assert xs + ([x] + more) == xs + [x] + more;
    }
  }

  lemma ProgressEnd<T>(read: Read<T>, reset: T, count: nat, bytes: seq<byte>,
                       failed: bool, xs: seq<T>, rest: seq<byte>)
    requires Progress(read, reset, count, bytes, failed, xs, rest) && |xs| == count
    ensures ReadMore(read, [], count, bytes) == if failed then None else Some((xs, rest))
    ensures var good := ReadGood(read, count, bytes);
            failed ==> xs == good + seq(count - |good|, _ => reset)
  {
  }

  method Uint32FromData(source: Reader) returns (value: uint32)
    requires source.Valid()
    modifies source
    ensures source.Valid() && (!source.failed <==> !old(source.failed) && ReadUint32(old(source.Rest())).Some?)
    ensures !source.failed ==> ReadUint32(old(source.Rest())) == Some((value, source.Rest()))
  {
    hide LittleEndian.Decode, Pow;
    LittleEndian.Widths();
    value := source.ReadLittleEndian(4);
  }

  method PointFromData(source: Reader) returns (point: Point)
    requires source.Valid()
    modifies source
    ensures source.Valid() && (!source.failed <==> !old(source.failed) && ReadPoint(old(source.Rest())).Some?)
    ensures !source.failed ==> ReadPoint(old(source.Rest())) == Some((point, source.Rest()))
    ensures source.failed ==> point == RESET_POINT
  {
    hide ReadUint32;
    var hash := source.ReadBytes(32);
    var index := Uint32FromData(source);
    point := if source.failed then RESET_POINT else Point(hash, index);
  }

  method InputFromData(source: Reader) returns (input: Input)
    requires source.Valid()
    modifies source
    ensures source.Valid() && (!source.failed <==> !old(source.failed) && ReadInput(old(source.Rest())).Some?)
    ensures !source.failed ==> ReadInput(old(source.Rest())) == Some((input, source.Rest()))
    ensures source.failed ==> input == RESET_INPUT
  {
    hide ReadUint32, ReadPoint, ReadPrefixed;
    var point := PointFromData(source);
    if source.failed {
      return Input(point, [], 0, []);
    }
    var script := PrefixedFromData(source, MAX_BLOCK_SIZE);
    var sequence := Uint32FromData(source);
    input := if source.failed then RESET_INPUT else Input(point, script, sequence, []);
  }

  method OutputFromData(source: Reader) returns (output: Output)
    requires source.Valid()
    modifies source
    ensures source.Valid() && (!source.failed <==> !old(source.failed) && ReadOutput(old(source.Rest())).Some?)
    ensures !source.failed ==> ReadOutput(old(source.Rest())) == Some((output, source.Rest()))
    ensures source.failed ==> output == RESET_OUTPUT
  {
    hide ReadPrefixed, LittleEndian.Decode, Pow;
    LittleEndian.Widths();
    var value := source.ReadLittleEndian(8);
    var script := PrefixedFromData(source, MAX_BLOCK_SIZE);
    output := if source.failed then RESET_OUTPUT else Output(value, script);
  }

  /** An element count, then that many sized elements. */
  method StackFromData(source: Reader) returns (stack: Stack)
    requires source.Valid()
    modifies source
    ensures source.Valid() && (!source.failed <==> !old(source.failed) && ReadWitness(old(source.Rest())).Some?)
    ensures !source.failed ==> ReadWitness(old(source.Rest())) == Some((stack, source.Rest()))
    ensures source.failed ==> stack == []
  {
    hide VariableInteger.Read, ReadPrefixed;
    var size := VariableInteger.ReadSize(source);
    ghost var start := source.failed;
    ghost var bytes := source.Rest();
    stack := [];
    var count := size;
    while count > 0
      invariant source.Valid() && 0 <= count <= size && |stack| == size - count && (start ==> source.failed)
      invariant !start ==> ReadMore(ReadElement, [], size, bytes)
                           == if source.failed then None else ReadMore(ReadElement, stack, count, source.Rest())
    {
      var element := PrefixedFromData(source, MAX_BLOCK_WEIGHT);
      stack := stack + [element];
      count := count - 1;
    }
    if source.failed {
      stack := [];
    }
  }

  /** A count within the guard, then that many inputs. */
  method InputsFromData(source: Reader) returns (inputs: List<Input>)
    requires source.Valid()
    modifies source
    ensures source.Valid()
    ensures !source.failed <==> !old(source.failed) && ReadList(ReadInput, old(source.Rest())).Some?
    ensures !source.failed ==> ReadList(ReadInput, old(source.Rest())) == Some((inputs, source.Rest()))
    ensures source.failed && !old(source.failed) ==> FailedList(ReadInput, RESET_INPUT, old(source.Rest()), inputs)
  {
    hide VariableInteger.Read, ReadInput, ReadMore, ReadGood, Progress;
    inputs := [];
    var count := VariableInteger.ReadSize(source);
    if count > MAX_BLOCK_SIZE {
      source.Invalidate();
      return;
    }
    ghost var start := source.failed;
    ghost var bytes := source.Rest();
    ProgressStart(ReadInput, RESET_INPUT, count, bytes);
    var i := 0;
    while i < count
      invariant source.Valid() && 0 <= i <= count && |inputs| == i
      invariant start ==> source.failed && forall x :: x in inputs ==> x == RESET_INPUT
      invariant !start ==> Progress(ReadInput, RESET_INPUT, count, bytes, source.failed, inputs, source.Rest())
    {
      ghost var failed, rest := source.failed, source.Rest();
      var input := InputFromData(source);
      if !start {
        ProgressStep(ReadInput, RESET_INPUT, count, bytes, failed, inputs, rest, input, source.Rest());
      }
      inputs := inputs + [input];
      i := i + 1;
    }
    if !start {
      ProgressEnd(ReadInput, RESET_INPUT, count, bytes, source.failed, inputs, source.Rest());
    }
  }

  method OutputsFromData(source: Reader) returns (outputs: List<Output>)
    requires source.Valid()
    modifies source
    ensures source.Valid()
    ensures !source.failed <==> !old(source.failed) && ReadList(ReadOutput, old(source.Rest())).Some?
    ensures !source.failed ==> ReadList(ReadOutput, old(source.Rest())) == Some((outputs, source.Rest()))
    ensures source.failed && !old(source.failed) ==> FailedList(ReadOutput, RESET_OUTPUT, old(source.Rest()), outputs)
  {
    hide VariableInteger.Read, ReadOutput, ReadMore, ReadGood, Progress;
    outputs := [];
    var count := VariableInteger.ReadSize(source);
    if count > MAX_BLOCK_SIZE {
      source.Invalidate();
      return;
    }
    ghost var start := source.failed;
    ghost var bytes := source.Rest();
    ProgressStart(ReadOutput, RESET_OUTPUT, count, bytes);
    var i := 0;
    while i < count
      invariant source.Valid() && 0 <= i <= count && |outputs| == i
      invariant start ==> source.failed && forall x :: x in outputs ==> x == RESET_OUTPUT
      invariant !start ==> Progress(ReadOutput, RESET_OUTPUT, count, bytes, source.failed, outputs, source.Rest())
    {
      ghost var failed, rest := source.failed, source.Rest();
      var output := OutputFromData(source);
      if !start {
        ProgressStep(ReadOutput, RESET_OUTPUT, count, bytes, failed, outputs, rest, output, source.Rest());
      }
      outputs := outputs + [output];
      i := i + 1;
    }
    if !start {
      ProgressEnd(ReadOutput, RESET_OUTPUT, count, bytes, source.failed, outputs, source.Rest());
    }
  }

  /** The stacks read, and empty ones from the first that fails. */
  ghost function FailedStacks(count: nat, bytes: seq<byte>): (r: seq<Stack>)
    ensures |r| == count
  {
    var good := ReadGood(ReadWitness, count, bytes);
    good + seq(count - |good|, _ => RESET_STACK)
  }

  /** One stack an input; the count is inferred. */
  method WitnessesFromData(source: Reader, inputs: List<Input>) returns (filled: List<Input>)
    requires source.Valid()
    modifies source
    ensures source.Valid()
    ensures !source.failed <==> !old(source.failed) && ReadMore(ReadWitness, [], |inputs|, old(source.Rest())).Some?
    ensures !source.failed ==> (var (stacks, rest) := ReadMore(ReadWitness, [], |inputs|, old(source.Rest())).value;
                                filled == WithWitnesses(inputs, stacks) && rest == source.Rest())
    ensures source.failed && !old(source.failed)
        ==> filled == WithWitnesses(inputs, FailedStacks(|inputs|, old(source.Rest())))
    ensures old(source.failed) ==> filled == StripAll(inputs)
  {
    hide ReadWitness, ReadMore, ReadGood, Progress;
    ghost var start, bytes := source.failed, source.Rest();
    filled := inputs;
    ghost var stacks: seq<Stack> := [];
    ProgressStart<Stack>(ReadWitness, RESET_STACK, |inputs|, bytes);
    var i := 0;
    while i < |inputs|
      invariant source.Valid() && 0 <= i <= |inputs| == |filled| && |stacks| == i
      invariant start ==> source.failed && forall k :: 0 <= k < i ==> stacks[k] == RESET_STACK
      invariant !start
        ==> Progress<Stack>(ReadWitness, RESET_STACK, |inputs|, bytes, source.failed, stacks, source.Rest())
      invariant forall k :: 0 <= k < i ==> filled[k] == inputs[k].(stack := stacks[k])
      invariant forall k :: i <= k < |inputs| ==> filled[k] == inputs[k]
    {
      ghost var failed, rest := source.failed, source.Rest();
      var stack := StackFromData(source);
      if !start {
        ProgressStep<Stack>(ReadWitness, RESET_STACK, |inputs|, bytes, failed, stacks, rest, stack, source.Rest());
      }
      filled := filled[i := filled[i].(stack := stack)];
      stacks := stacks + [stack];
      i := i + 1;
    }
    if !start {
      ProgressEnd<Stack>(ReadWitness, RESET_STACK, |inputs|, bytes, source.failed, stacks, source.Rest());
    }
    assert filled == WithWitnesses(inputs, stacks);
  }

  method PartsFromData(source: Reader) returns (inputs: List<Input>, outputs: List<Output>)
    requires source.Valid()
    modifies source
    ensures source.Valid() && (!source.failed <==> !old(source.failed) && ReadParts(old(source.Rest())).Some?)
    ensures !source.failed ==> ReadParts(old(source.Rest())) == Some((inputs, outputs, source.Rest()))
  {
    hide ReadList, ReadMore, ReadInput, ReadOutput, ReadWitness;
    inputs := InputsFromData(source);
    if inputs == [] && source.PeekByte() == WITNESS_FLAG {
      source.Skip(1);
      inputs := InputsFromData(source);
      outputs := OutputsFromData(source);
      inputs := WitnessesFromData(source, inputs);
    } else {
      outputs := OutputsFromData(source);
    }
  }

  const RESET: Transaction := Transaction(0, [], [], 0)

  method TransactionFromData(source: Reader, segregated: bool) returns (tx: Transaction)
    requires source.Valid()
    modifies source
    ensures source.Valid()
    ensures !source.failed <==> !old(source.failed) && ReadTransaction(old(source.Rest()), segregated).Some?
    ensures !source.failed ==> ReadTransaction(old(source.Rest()), segregated) == Some((tx, source.Rest()))
    ensures source.failed ==> tx == RESET
  {
    hide ReadUint32, ReadParts, Strip;
    var version := Uint32FromData(source);
    var inputs, outputs := PartsFromData(source);
    var locktime := Uint32FromData(source);
    tx := Transaction(version, inputs, outputs, locktime);
    if !segregated {
      tx := Strip(tx);
    }
    if source.failed {
      tx := RESET;
    }
  }

  /** A list is written element by element. */
  method WriteEach<T>(sink: Writer, write: T -> seq<byte>, xs: seq<T>)
    modifies sink
    ensures sink.data == old(sink.data) + WriteAll(write, xs)
  {
    var i := 0;
    assert xs[0..] == xs;
    while i < |xs|
      invariant 0 <= i <= |xs|
      invariant sink.data + WriteAll(write, xs[i..]) == old(sink.data) + WriteAll(write, xs)
    {
      assert xs[i..][1..] == xs[i + 1..];
      sink.WriteBytes(write(xs[i]));
      i := i + 1;
    }
  }

  method ListToData<T>(sink: Writer, write: T -> seq<byte>, xs: List<T>)
    modifies sink
    ensures sink.data == old(sink.data) + WriteList(write, xs)
  {
    hide WriteAll, VariableInteger.Write;
    sink.WriteBytes(VariableInteger.Write(|xs|));
    WriteEach(sink, write, xs);
  }

  method TransactionToData(sink: Writer, tx: Transaction, segregated: bool)
    modifies sink
    ensures sink.data == old(sink.data) + WriteTransaction(tx, segregated)
  {
    hide WriteAll, WriteList, LittleEndian.Encode;
    sink.WriteBytes(LittleEndian.Encode(tx.version, 4));
    if segregated && IsSegregated(tx.inputs) {
      sink.WriteBytes([WITNESS_MARKER]);
      sink.WriteBytes([WITNESS_FLAG]);
      ListToData(sink, WriteInput, tx.inputs);
      ListToData(sink, WriteOutput, tx.outputs);
      WriteEach(sink, WriteStack, Stacks(tx.inputs));
    } else {
      ListToData(sink, WriteInput, tx.inputs);
      ListToData(sink, WriteOutput, tx.outputs);
    }
    sink.WriteBytes(LittleEndian.Encode(tx.locktime, 4));
  }
}
