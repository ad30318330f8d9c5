/** Lists on the wire: a reader applied a number of times, and a writer to each element. */
module WireList {
  import opened Words

  type Read<T> = seq<byte> -> Option<(T, seq<byte>)>

  /** Reads `count` more elements behind those already read. */
  function ReadMore<T>(read: Read<T>, done: seq<T>, count: nat, bytes: seq<byte>): (r: Option<(seq<T>, seq<byte>)>)
    ensures r.Some? ==> |r.value.0| == |done| + count
    decreases count
  {
    if count == 0 then Some((done, bytes)) else
    var (x, rest) :- read(bytes);
    ReadMore(read, done + [x], count - 1, rest)
  }

  function WriteAll<T>(write: T -> seq<byte>, xs: seq<T>): (r: seq<byte>) {
    if xs == [] then [] else write(xs[0]) + WriteAll(write, xs[1..])
  }

  function TotalSize<T>(size: T -> nat, xs: seq<T>): (r: nat) {
    if xs == [] then 0 else size(xs[0]) + TotalSize(size, xs[1..])
  }

  /** The reader gives back the element and whatever follows it. */
  ghost predicate Inverts<T>(read: Read<T>, write: T -> seq<byte>, x: T) {
    forall rest :: read(write(x) + rest) == Some((x, rest))
  }

  lemma {:induction false} ReadWritten<T>(read: Read<T>, write: T -> seq<byte>,
                                          done: seq<T>, xs: seq<T>, rest: seq<byte>)
    requires forall x :: x in xs ==> Inverts(read, write, x)
    ensures ReadMore(read, done, |xs|, WriteAll(write, xs) + rest) == Some((done + xs, rest))
    decreases |xs|
  {
    if xs == [] {
      assert WriteAll(write, xs) + rest == rest && done + xs == done;
    } else {
      var tail := WriteAll(write, xs[1..]) + rest;
      assert WriteAll(write, xs) + rest == write(xs[0]) + tail;
      assert Inverts(read, write, xs[0]);
      assert read(write(xs[0]) + tail) == Some((xs[0], tail));
      ReadWritten(read, write, done + [xs[0]], xs[1..], rest);
      assert done + [xs[0]] + xs[1..] == done + xs;
    }
  }

  lemma {:induction false} WrittenSize<T>(write: T -> seq<byte>, size: T -> nat, xs: seq<T>)
    requires forall x :: x in xs ==> |write(x)| == size(x)
    ensures |WriteAll(write, xs)| == TotalSize(size, xs)
  {
    if xs != [] {
      assert xs[0] in xs;
      WrittenSize(write, size, xs[1..]);
    }
  }

  /** A property every element read has. */
  lemma {:induction false} ReadKeeps<T>(read: Read<T>, good: T -> bool, done: seq<T>, count: nat, bytes: seq<byte>)
    requires forall b :: read(b).Some? ==> good(read(b).value.0)
    requires forall x :: x in done ==> good(x)
    requires ReadMore(read, done, count, bytes).Some?
    ensures forall x :: x in ReadMore(read, done, count, bytes).value.0 ==> good(x)
    decreases count
  {
    if count > 0 {
      var (x, rest) := read(bytes).value;
      ReadKeeps(read, good, done + [x], count - 1, rest);
    }
  }

  /** Reading takes at least the bytes that writing the result does, and exactly those when they
      are minimal. */
  ghost predicate Faithful<T>(read: Read<T>, write: T -> seq<byte>, minimal: seq<byte> -> bool, bytes: seq<byte>) {
    read(bytes).Some? ==>
      var (x, rest) := read(bytes).value;
      && |bytes| >= |write(x)| + |rest|
      && (minimal(bytes) <==> |bytes| == |write(x)| + |rest|)
      && (minimal(bytes) ==> bytes == write(x) + rest)
  }

  predicate AllMinimal<T>(read: Read<T>, minimal: seq<byte> -> bool, count: nat, bytes: seq<byte>)
    decreases count
  {
    count == 0 ||
    (minimal(bytes) && read(bytes).Some? && AllMinimal(read, minimal, count - 1, read(bytes).value.1))
  }

  lemma {:induction false} ListFaithful<T>(read: Read<T>, write: T -> seq<byte>, minimal: seq<byte> -> bool,
                                           done: seq<T>, count: nat, bytes: seq<byte>)
    requires forall b :: Faithful(read, write, minimal, b)
    requires ReadMore(read, done, count, bytes).Some?
    ensures var (xs, rest) := ReadMore(read, done, count, bytes).value;
            done <= xs &&
            var written := WriteAll(write, xs[|done|..]);
            && |bytes| >= |written| + |rest|
            && (AllMinimal(read, minimal, count, bytes) <==> |bytes| == |written| + |rest|)
            && (AllMinimal(read, minimal, count, bytes) ==> bytes == written + rest)
    decreases count
  {
    hide Faithful;
    var (xs, rest) := ReadMore(read, done, count, bytes).value;
    if count == 0 {
      assert xs[|done|..] == [];
    } else {
      var (x, next) := read(bytes).value;
      ListFaithful(read, write, minimal, done + [x], count - 1, next);
      FirstFaithful(read, write, minimal, bytes);
      var tail := WriteAll(write, xs[|done| + 1..]);
      assert xs[|done|..][0] == x && xs[|done|..][1..] == xs[|done| + 1..];
      assert write(x) + tail + rest == write(x) + (tail + rest);
    }
  }

  lemma FirstFaithful<T>(read: Read<T>, write: T -> seq<byte>, minimal: seq<byte> -> bool, bytes: seq<byte>)
    requires Faithful(read, write, minimal, bytes) && read(bytes).Some?
    ensures var (x, rest) := read(bytes).value;
            && |bytes| >= |write(x)| + |rest|
            && (minimal(bytes) <==> |bytes| == |write(x)| + |rest|)
            && (minimal(bytes) ==> bytes == write(x) + rest)
  {
  }
}

/** The wire form of a transaction, with and without witnesses. */
module WireTransaction {
  import opened Words
  import opened Arithmetic
  import opened PrefixedBytes
  import opened WireList
  import LittleEndian
  import VariableInteger

  const MAX_BLOCK_WEIGHT: int := 4 * MAX_BLOCK_SIZE
  const WITNESS_MARKER: byte := 0x00
  const WITNESS_FLAG: byte := 0x01

  type Hash = h: seq<byte> | |h| == 32 witness seq(32, _ => 0)
  type List<T> = s: seq<T> | |s| <= MAX_UINT64
  type Stack = List<Bytes>

  datatype Point = Point(hash: Hash, index: uint32)
  datatype Output = Output(value: uint64, script: Bytes)
  datatype Input = Input(point: Point, script: Bytes, sequence: uint32, stack: Stack)
  datatype Transaction = Transaction(version: uint32, inputs: List<Input>, outputs: List<Output>, locktime: uint32)

  // Reading.

  function ReadUint32(bytes: seq<byte>): (r: Option<(uint32, seq<byte>)>)
    ensures r.Some? ==> |bytes| == 4 + |r.value.1|
  {
    if |bytes| < 4 then None else
    LittleEndian.Widths();
    LittleEndian.DecodeBelow(bytes[..4]);
    Some((LittleEndian.Decode(bytes[..4]), bytes[4..]))
  }

  function ReadUint64(bytes: seq<byte>): (r: Option<(uint64, seq<byte>)>) {
    if |bytes| < 8 then None else
    LittleEndian.Widths();
    LittleEndian.DecodeBelow(bytes[..8]);
    Some((LittleEndian.Decode(bytes[..8]), bytes[8..]))
  }

  function ReadPoint(bytes: seq<byte>): (r: Option<(Point, seq<byte>)>) {
    var (hash, b1) :- ReadBytes(32, bytes);
    var (index, b2) :- ReadUint32(b1);
    Some((Point(hash, index), b2))
  }

  function ReadInput(bytes: seq<byte>): (r: Option<(Input, seq<byte>)>) {
    var (point, b1) :- ReadPoint(bytes);
    var (script, b2) :- ReadPrefixed(MAX_BLOCK_SIZE, b1);
    var (sequence, b3) :- ReadUint32(b2);
    Some((Input(point, script, sequence, []), b3))
  }

  function ReadOutput(bytes: seq<byte>): (r: Option<(Output, seq<byte>)>) {
    var (value, b1) :- ReadUint64(bytes);
    var (script, b2) :- ReadPrefixed(MAX_BLOCK_SIZE, b1);
    Some((Output(value, script), b2))
  }

  function ReadElement(bytes: seq<byte>): (r: Option<(Bytes, seq<byte>)>) {
    ReadPrefixed(MAX_BLOCK_WEIGHT, bytes)
  }

  function ReadWitness(bytes: seq<byte>): (r: Option<(Stack, seq<byte>)>) {
    var (count, rest) :- VariableInteger.Read(bytes);
    ReadMore(ReadElement, [], count, rest)
  }

  function ReadList<T>(read: Read<T>, bytes: seq<byte>): (r: Option<(List<T>, seq<byte>)>) {
    var (count, rest) :- VariableInteger.Read(bytes);
    if count > MAX_BLOCK_SIZE then None else ReadMore(read, [], count, rest)
  }

  function WithWitnesses(inputs: List<Input>, witnesses: seq<Stack>): (r: List<Input>)
    requires |inputs| == |witnesses|
  {
    seq(|inputs|, i requires 0 <= i < |inputs| => inputs[i].(stack := witnesses[i]))
  }

  /** No inputs and the flag byte announce the segregated form. */
  function ReadParts(bytes: seq<byte>): (r: Option<(List<Input>, List<Output>, seq<byte>)>) {
    var (inputs, b1) :- ReadList(ReadInput, bytes);
    if inputs == [] && b1 != [] && b1[0] == WITNESS_FLAG then
      var (inputs', b2) :- ReadList(ReadInput, b1[1..]);
      var (outputs, b3) :- ReadList(ReadOutput, b2);
      var (witnesses, b4) :- ReadMore(ReadWitness, [], |inputs'|, b3);
      Some((WithWitnesses(inputs', witnesses), outputs, b4))
    else
      var (outputs, b2) :- ReadList(ReadOutput, b1);
      Some((inputs, outputs, b2))
  }

  function ReadTransaction(bytes: seq<byte>, segregated: bool): (r: Option<(Transaction, seq<byte>)>) {
    var (version, b1) :- ReadUint32(bytes);
    var (inputs, outputs, b2) :- ReadParts(b1);
    var (locktime, b3) :- ReadUint32(b2);
    var tx := Transaction(version, inputs, outputs, locktime);
    Some((if segregated then tx else Strip(tx), b3))
  }

  function StripInput(input: Input): (r: Input) {
    input.(stack := [])
  }

  function StripAll(inputs: List<Input>): (r: List<Input>) {
    seq(|inputs|, i requires 0 <= i < |inputs| => StripInput(inputs[i]))
  }

  function Strip(tx: Transaction): (r: Transaction) {
    tx.(inputs := StripAll(tx.inputs))
  }

  // Writing.

  function WritePoint(point: Point): (r: seq<byte>) {
    point.hash + LittleEndian.Encode(point.index, 4)
  }

  function WriteInput(input: Input): (r: seq<byte>) {
    WritePoint(input.point) + WritePrefixed(input.script) + LittleEndian.Encode(input.sequence, 4)
  }

  function WriteOutput(output: Output): (r: seq<byte>) {
    LittleEndian.Encode(output.value, 8) + WritePrefixed(output.script)
  }

  function WriteList<T>(write: T -> seq<byte>, xs: List<T>): (r: seq<byte>) {
    VariableInteger.Write(|xs|) + WriteAll(write, xs)
  }

  function WriteStack(stack: Stack): (r: seq<byte>) {
    WriteList(WritePrefixed, stack)
  }

  function Stacks(inputs: List<Input>): (r: List<Stack>) {
    seq(|inputs|, i requires 0 <= i < |inputs| => inputs[i].stack)
  }

  predicate IsSegregated(inputs: List<Input>) {
    exists i :: 0 <= i < |inputs| && inputs[i].stack != []
  }

  function WriteParts(inputs: List<Input>, outputs: List<Output>, segregated: bool): (r: seq<byte>) {
    if segregated && IsSegregated(inputs) then
      [WITNESS_MARKER, WITNESS_FLAG] + WriteList(WriteInput, inputs) + WriteList(WriteOutput, outputs)
      + WriteAll(WriteStack, Stacks(inputs))
    else
      WriteList(WriteInput, inputs) + WriteList(WriteOutput, outputs)
  }

  function WriteTransaction(tx: Transaction, segregated: bool): (r: seq<byte>) {
    LittleEndian.Encode(tx.version, 4) + WriteParts(tx.inputs, tx.outputs, segregated)
    + LittleEndian.Encode(tx.locktime, 4)
  }

  // What was written is read back.

  lemma Uint32Written(value: uint32, rest: seq<byte>)
    ensures ReadUint32(LittleEndian.Encode(value, 4) + rest) == Some((value, rest))
  {
    hide LittleEndian.Encode, LittleEndian.Decode, Pow;
    LittleEndian.Widths();
    LittleEndian.DecodeEncode(value, 4);
    assert (LittleEndian.Encode(value, 4) + rest)[..4] == LittleEndian.Encode(value, 4);
  }

  lemma Uint64Written(value: uint64, rest: seq<byte>)
    ensures ReadUint64(LittleEndian.Encode(value, 8) + rest) == Some((value, rest))
  {
    hide LittleEndian.Encode, LittleEndian.Decode, Pow;
    LittleEndian.Widths();
    LittleEndian.DecodeEncode(value, 8);
    assert (LittleEndian.Encode(value, 8) + rest)[..8] == LittleEndian.Encode(value, 8);
  }

  lemma PointWritten(point: Point, rest: seq<byte>)
    ensures ReadPoint(WritePoint(point) + rest) == Some((point, rest))
  {
    hide ReadUint32, LittleEndian.Encode;
    var tail := LittleEndian.Encode(point.index, 4) + rest;
    Uint32Written(point.index, rest);
    assert WritePoint(point) + rest == point.hash + tail;
    assert (point.hash + tail)[32..] == tail;
  }

  lemma InputWritten(input: Input)
    requires |input.script| <= MAX_BLOCK_SIZE
    ensures Inverts(ReadInput, WriteInput, StripInput(input))
  {
    hide ReadUint32, LittleEndian.Encode, ReadPoint, WritePoint, ReadPrefixed, WritePrefixed;
    forall rest ensures ReadInput(WriteInput(StripInput(input)) + rest) == Some((StripInput(input), rest)) {
      var tail2 := LittleEndian.Encode(input.sequence, 4) + rest;
      var tail1 := WritePrefixed(input.script) + tail2;
      Uint32Written(input.sequence, rest);
      PrefixedWritten(MAX_BLOCK_SIZE, input.script, tail2);
      PointWritten(input.point, tail1);
      assert WriteInput(StripInput(input)) + rest == WritePoint(input.point) + tail1;
    }
  }

  lemma OutputWritten(output: Output)
    requires |output.script| <= MAX_BLOCK_SIZE
    ensures Inverts(ReadOutput, WriteOutput, output)
  {
    hide ReadUint64, LittleEndian.Encode, ReadPrefixed, WritePrefixed;
    forall rest ensures ReadOutput(WriteOutput(output) + rest) == Some((output, rest)) {
      var tail := WritePrefixed(output.script) + rest;
      PrefixedWritten(MAX_BLOCK_SIZE, output.script, rest);
      Uint64Written(output.value, tail);
      assert WriteOutput(output) + rest == LittleEndian.Encode(output.value, 8) + tail;
    }
  }

  lemma ElementWritten(element: Bytes)
    requires |element| <= MAX_BLOCK_WEIGHT
    ensures Inverts(ReadElement, WritePrefixed, element)
  {
    hide ReadPrefixed, WritePrefixed;
    forall rest ensures ReadElement(WritePrefixed(element) + rest) == Some((element, rest)) {
      PrefixedWritten(MAX_BLOCK_WEIGHT, element, rest);
    }
  }

  lemma ListWritten<T>(read: Read<T>, write: T -> seq<byte>, xs: List<T>, rest: seq<byte>)
    requires |xs| <= MAX_BLOCK_SIZE && forall x :: x in xs ==> Inverts(read, write, x)
    ensures ReadList(read, WriteList(write, xs) + rest) == Some((xs, rest))
  {
    hide Inverts, ReadMore, WriteAll, VariableInteger.Read, VariableInteger.Write;
    var tail := WriteAll(write, xs) + rest;
    VariableInteger.ReadWrite(|xs|, tail);
    assert WriteList(write, xs) + rest == VariableInteger.Write(|xs|) + tail;
    ReadWritten(read, write, [], xs, rest);
    assert [] + xs == xs;
  }

  lemma StackWritten(stack: Stack)
    requires forall e :: e in stack ==> |e| <= MAX_BLOCK_WEIGHT
    ensures Inverts(ReadWitness, WriteStack, stack)
  {
    hide ReadMore, WriteAll, VariableInteger.Read, VariableInteger.Write, WritePrefixed, ReadElement;
    forall e | e in stack ensures Inverts(ReadElement, WritePrefixed, e) {
      ElementWritten(e);
    }
    forall rest ensures ReadWitness(WriteStack(stack) + rest) == Some((stack, rest)) {
      var tail := WriteAll(WritePrefixed, stack) + rest;
      VariableInteger.ReadWrite(|stack|, tail);
      assert WriteStack(stack) + rest == VariableInteger.Write(|stack|) + tail;
      ReadWritten(ReadElement, WritePrefixed, [], stack, rest);
      assert [] + stack == stack;
    }
  }

  /** An input writes the same bytes without its witness. */
  lemma {:induction false} StrippedWritesSame(inputs: List<Input>)
    ensures WriteAll(WriteInput, StripAll(inputs)) == WriteAll(WriteInput, inputs)
  {
    hide WritePoint, WritePrefixed, LittleEndian.Encode;
    if inputs != [] {
      StrippedWritesSame(inputs[1..]);
      assert StripAll(inputs)[1..] == StripAll(inputs[1..]);
    }
  }

  /** The sizes the reader accepts. */
  ghost predicate WithinLimits(inputs: List<Input>, outputs: List<Output>) {
    && |inputs| <= MAX_BLOCK_SIZE && |outputs| <= MAX_BLOCK_SIZE
    && (forall i :: i in inputs ==> InputWithinLimits(i))
    && (forall o :: o in outputs ==> |o.script| <= MAX_BLOCK_SIZE)
  }

  ghost predicate InputWithinLimits(input: Input) {
    |input.script| <= MAX_BLOCK_SIZE && forall e :: e in input.stack ==> |e| <= MAX_BLOCK_WEIGHT
  }

  lemma InputsWritten(inputs: List<Input>, outputs: List<Output>, rest: seq<byte>)
    requires WithinLimits(inputs, outputs)
    ensures ReadList(ReadInput, WriteList(WriteInput, inputs) + rest) == Some((StripAll(inputs), rest))
  {
    hide ReadList, Inverts, ReadInput, WriteInput;
    StrippedWritesSame(inputs);
    forall x | x in StripAll(inputs) ensures Inverts(ReadInput, WriteInput, x) {
      var i :| 0 <= i < |inputs| && x == StripInput(inputs[i]);
      assert inputs[i] in inputs;
      InputWritten(inputs[i]);
    }
    ListWritten(ReadInput, WriteInput, StripAll(inputs), rest);
  }

  lemma OutputsWritten(inputs: List<Input>, outputs: List<Output>, rest: seq<byte>)
    requires WithinLimits(inputs, outputs)
    ensures ReadList(ReadOutput, WriteList(WriteOutput, outputs) + rest) == Some((outputs, rest))
  {
    hide ReadList, Inverts, ReadOutput, WriteOutput;
    forall o | o in outputs ensures Inverts(ReadOutput, WriteOutput, o) {
      OutputWritten(o);
    }
    ListWritten(ReadOutput, WriteOutput, outputs, rest);
  }

  lemma StacksWritten(inputs: List<Input>, outputs: List<Output>, rest: seq<byte>)
    requires WithinLimits(inputs, outputs)
    ensures ReadMore(ReadWitness, [], |inputs|, WriteAll(WriteStack, Stacks(inputs)) + rest)
         == Some((Stacks(inputs), rest))
  {
    hide Inverts, ReadWitness, WriteStack, ReadMore, WriteAll;
    forall x | x in Stacks(inputs) ensures Inverts(ReadWitness, WriteStack, x) {
      var i :| 0 <= i < |inputs| && x == inputs[i].stack;
      assert inputs[i] in inputs;
      StackWritten(x);
    }
    ReadWritten(ReadWitness, WriteStack, [], Stacks(inputs), rest);
    assert [] + Stacks(inputs) == Stacks(inputs);
  }

  /** A legacy form with no inputs and one output starts like a segregated one. */
  predicate Ambiguous(inputs: List<Input>, outputs: List<Output>) {
    inputs == [] && |outputs| == 1
  }

  lemma CountByte<T>(write: T -> seq<byte>, xs: List<T>)
    ensures 0 < |WriteList(write, xs)| && (WriteList(write, xs)[0] == WITNESS_FLAG <==> |xs| == 1)
    ensures WriteList(write, xs)[0] == WITNESS_MARKER <==> xs == []
    ensures xs == [] ==> WriteList(write, xs) == [WITNESS_MARKER]
  {
    hide LittleEndian.Encode;
  }

  lemma LegacyWritten(inputs: List<Input>, outputs: List<Output>, rest: seq<byte>)
    requires WithinLimits(inputs, outputs) && !Ambiguous(inputs, outputs) && !IsSegregated(inputs)
    ensures ReadParts(WriteParts(inputs, outputs, true) + rest) == Some((inputs, outputs, rest))
  {
    hide ReadList, WriteList, ReadInput, WriteInput, ReadOutput, WriteOutput, WithinLimits;
    var tail := WriteList(WriteOutput, outputs) + rest;
    assert WriteParts(inputs, outputs, true) + rest == WriteList(WriteInput, inputs) + tail;
    InputsWritten(inputs, outputs, tail);
    OutputsWritten(inputs, outputs, rest);
    CountByte(WriteOutput, outputs);
    assert StripAll(inputs) == inputs;
  }

  lemma SegregatedWritten(inputs: List<Input>, outputs: List<Output>, rest: seq<byte>)
    requires WithinLimits(inputs, outputs) && IsSegregated(inputs)
    ensures ReadParts(WriteParts(inputs, outputs, true) + rest) == Some((inputs, outputs, rest))
  {
    hide ReadMore, WriteAll, ReadInput, WriteInput, ReadOutput, WriteOutput, WithinLimits, ReadWitness, WriteStack;
    hide ReadList, WriteList;
    var b3 := WriteAll(WriteStack, Stacks(inputs)) + rest;
    var b2 := WriteList(WriteOutput, outputs) + b3;
    var b1 := WriteList(WriteInput, inputs) + b2;
    var bytes := WriteParts(inputs, outputs, true) + rest;
    assert bytes == [WITNESS_MARKER] + ([WITNESS_FLAG] + b1);
    EmptyListWritten([WITNESS_FLAG] + b1);
    assert ([WITNESS_FLAG] + b1)[1..] == b1;
    InputsWritten(inputs, outputs, b2);
    OutputsWritten(inputs, outputs, b3);
    StacksWritten(inputs, outputs, rest);
    assert WithWitnesses(StripAll(inputs), Stacks(inputs)) == inputs;
  }

  lemma EmptyListWritten(rest: seq<byte>)
    ensures ReadList(ReadInput, [WITNESS_MARKER] + rest) == Some(([], rest))
  {
    hide ReadInput;
    assert ([WITNESS_MARKER] + rest)[1..] == rest;
  }

  // What is read is within the limits, and takes at least the bytes that writing it does.

  lemma ReadWithinLimits(bytes: seq<byte>)
    requires ReadParts(bytes).Some?
    ensures WithinLimits(ReadParts(bytes).value.0, ReadParts(bytes).value.1)
  {
    hide VariableInteger.Read, ReadUint32, ReadUint64, ReadPoint, ReadMore;
    var (inputs, b1) := ReadList(ReadInput, bytes).value;
    InputsReadWithinLimits(bytes);
    if inputs == [] && b1 != [] && b1[0] == WITNESS_FLAG {
      var (inputs', b2) := ReadList(ReadInput, b1[1..]).value;
      InputsReadWithinLimits(b1[1..]);
      OutputsReadWithinLimits(b2);
      var (_, b3) := ReadList(ReadOutput, b2).value;
      StacksReadWithinLimits(inputs', b3);
    } else {
      OutputsReadWithinLimits(b1);
    }
  }

  lemma InputsReadWithinLimits(bytes: seq<byte>)
    requires ReadList(ReadInput, bytes).Some?
    ensures |ReadList(ReadInput, bytes).value.0| <= MAX_BLOCK_SIZE
    ensures forall i :: i in ReadList(ReadInput, bytes).value.0 ==> |i.script| <= MAX_BLOCK_SIZE && i.stack == []
  {
    hide VariableInteger.Read, ReadUint32, ReadPoint, ReadMore;
    var (count, rest) := VariableInteger.Read(bytes).value;
    ReadKeeps(ReadInput, (i: Input) => |i.script| <= MAX_BLOCK_SIZE && i.stack == [], [], count, rest);
  }

  lemma OutputsReadWithinLimits(bytes: seq<byte>)
    requires ReadList(ReadOutput, bytes).Some?
    ensures |ReadList(ReadOutput, bytes).value.0| <= MAX_BLOCK_SIZE
    ensures forall o :: o in ReadList(ReadOutput, bytes).value.0 ==> |o.script| <= MAX_BLOCK_SIZE
  {
    hide VariableInteger.Read, ReadUint64, ReadMore;
    var (count, rest) := VariableInteger.Read(bytes).value;
    ReadKeeps(ReadOutput, (o: Output) => |o.script| <= MAX_BLOCK_SIZE, [], count, rest);
  }

  lemma StackReadWithinLimits(bytes: seq<byte>)
    requires ReadWitness(bytes).Some?
    ensures forall e :: e in ReadWitness(bytes).value.0 ==> |e| <= MAX_BLOCK_WEIGHT
  {
    hide VariableInteger.Read, ReadMore;
    var (count, rest) := VariableInteger.Read(bytes).value;
    ReadKeeps(ReadElement, (e: Bytes) => |e| <= MAX_BLOCK_WEIGHT, [], count, rest);
  }

  ghost predicate StackWithinLimits(stack: Stack) {
    forall e :: e in stack ==> |e| <= MAX_BLOCK_WEIGHT
  }

  lemma StacksReadWithinLimits(inputs: List<Input>, bytes: seq<byte>)
    requires ReadMore(ReadWitness, [], |inputs|, bytes).Some?
    requires forall i :: i in inputs ==> |i.script| <= MAX_BLOCK_SIZE
    ensures var stacks := ReadMore(ReadWitness, [], |inputs|, bytes).value.0;
            forall i :: i in WithWitnesses(inputs, stacks) ==> InputWithinLimits(i)
  {
    hide ReadMore, ReadWitness;
    forall b | ReadWitness(b).Some? ensures StackWithinLimits(ReadWitness(b).value.0) {
      StackReadWithinLimits(b);
    }
    ReadKeeps(ReadWitness, StackWithinLimits, [], |inputs|, bytes);
    var stacks := ReadMore(ReadWitness, [], |inputs|, bytes).value.0;
    forall x | x in WithWitnesses(inputs, stacks) ensures InputWithinLimits(x) {
      var i :| 0 <= i < |inputs| && x == inputs[i].(stack := stacks[i]);
      assert inputs[i] in inputs && stacks[i] in stacks;
      assert StackWithinLimits(stacks[i]);
    }
  }

  // Reading and writing again.

  predicate InputMinimal(bytes: seq<byte>) {
    |bytes| >= 36 && VariableInteger.Minimal(bytes[36..])
  }

  predicate OutputMinimal(bytes: seq<byte>) {
    |bytes| >= 8 && VariableInteger.Minimal(bytes[8..])
  }

  predicate ListMinimal<T>(read: Read<T>, minimal: seq<byte> -> bool, bytes: seq<byte>) {
    && VariableInteger.Minimal(bytes)
    && AllMinimal(read, minimal, VariableInteger.Read(bytes).value.0, VariableInteger.Read(bytes).value.1)
  }

  predicate StackMinimal(bytes: seq<byte>) {
    ListMinimal(ReadElement, VariableInteger.Minimal, bytes)
  }

  lemma PrefixedFaithful(limit: uint64, bytes: seq<byte>)
    requires ReadPrefixed(limit, bytes).Some?
    ensures var (data, rest) := ReadPrefixed(limit, bytes).value;
            && |bytes| >= |WritePrefixed(data)| + |rest|
            && (VariableInteger.Minimal(bytes) <==> |bytes| == |WritePrefixed(data)| + |rest|)
            && (VariableInteger.Minimal(bytes) ==> bytes == WritePrefixed(data) + rest)
  {
    hide VariableInteger.Read, VariableInteger.Write, VariableInteger.Minimal, VariableInteger.Size;
    VariableInteger.WriteRead(bytes);
    var (size, next) := VariableInteger.Read(bytes).value;
    assert next == next[..size] + next[size..];
  }

  lemma Uint32Read(bytes: seq<byte>)
    requires ReadUint32(bytes).Some?
    ensures bytes == LittleEndian.Encode(ReadUint32(bytes).value.0, 4) + ReadUint32(bytes).value.1
  {
    hide LittleEndian.Encode, LittleEndian.Decode;
    LittleEndian.EncodeDecode(bytes[..4]);
  }

  lemma Uint64Read(bytes: seq<byte>)
    requires ReadUint64(bytes).Some?
    ensures bytes == LittleEndian.Encode(ReadUint64(bytes).value.0, 8) + ReadUint64(bytes).value.1
  {
    hide LittleEndian.Encode, LittleEndian.Decode;
    LittleEndian.EncodeDecode(bytes[..8]);
  }

  lemma PointRead(bytes: seq<byte>)
    requires ReadPoint(bytes).Some?
    ensures bytes == WritePoint(ReadPoint(bytes).value.0) + ReadPoint(bytes).value.1
  {
    hide LittleEndian.Encode, ReadUint32;
    Uint32Read(bytes[32..]);
    assert bytes == bytes[..32] + bytes[32..];
  }

  lemma InputFaithful(bytes: seq<byte>)
    ensures Faithful(ReadInput, WriteInput, InputMinimal, bytes)
  {
    hide LittleEndian.Encode, ReadUint32, ReadPoint, ReadPrefixed, WritePrefixed, VariableInteger.Minimal;
    if ReadInput(bytes).Some? {
      var (point, b1) := ReadPoint(bytes).value;
      PointRead(bytes);
      assert |WritePoint(point)| == 36 && bytes[36..] == b1;
      var (script, b2) := ReadPrefixed(MAX_BLOCK_SIZE, b1).value;
      PrefixedFaithful(MAX_BLOCK_SIZE, b1);
      Uint32Read(b2);
      hide WritePoint;
      var (sequence, b3) := ReadUint32(b2).value;
      assert WritePoint(point) + (WritePrefixed(script) + (LittleEndian.Encode(sequence, 4) + b3))
          == WritePoint(point) + WritePrefixed(script) + LittleEndian.Encode(sequence, 4) + b3;
    }
  }

  lemma OutputFaithful(bytes: seq<byte>)
    ensures Faithful(ReadOutput, WriteOutput, OutputMinimal, bytes)
  {
    hide LittleEndian.Encode, ReadUint64, ReadPrefixed, WritePrefixed, VariableInteger.Minimal;
    if ReadOutput(bytes).Some? {
      var (value, b1) := ReadUint64(bytes).value;
      Uint64Read(bytes);
      assert bytes[8..] == b1;
      var (script, b2) := ReadPrefixed(MAX_BLOCK_SIZE, b1).value;
      PrefixedFaithful(MAX_BLOCK_SIZE, b1);
      assert LittleEndian.Encode(value, 8) + (WritePrefixed(script) + b2)
          == LittleEndian.Encode(value, 8) + WritePrefixed(script) + b2;
    }
  }

  lemma ElementFaithful(bytes: seq<byte>)
    ensures Faithful(ReadElement, WritePrefixed, VariableInteger.Minimal, bytes)
  {
    hide ReadPrefixed, WritePrefixed, VariableInteger.Minimal;
    if ReadElement(bytes).Some? { PrefixedFaithful(MAX_BLOCK_WEIGHT, bytes); }
  }

  /** A count and that many elements. */
  lemma CountedFaithful<T>(read: Read<T>, write: T -> seq<byte>, minimal: seq<byte> -> bool,
                           bytes: seq<byte>, xs: List<T>, rest: seq<byte>)
    requires forall b :: Faithful(read, write, minimal, b)
    requires VariableInteger.Read(bytes).Some?
    requires var (count, next) := VariableInteger.Read(bytes).value;
             ReadMore(read, [], count, next) == Some((xs, rest))
    ensures |bytes| >= |WriteList(write, xs)| + |rest|
    ensures ListMinimal(read, minimal, bytes) <==> |bytes| == |WriteList(write, xs)| + |rest|
    ensures ListMinimal(read, minimal, bytes) ==> bytes == WriteList(write, xs) + rest
  {
    hide Faithful, ReadMore, WriteAll, AllMinimal;
    hide VariableInteger.Read, VariableInteger.Write, VariableInteger.Minimal, VariableInteger.Size;
    var (count, next) := VariableInteger.Read(bytes).value;
    VariableInteger.WriteRead(bytes);
    ListFaithful(read, write, minimal, [], count, next);
    assert xs[0..] == xs;
    assert VariableInteger.Write(count) + (WriteAll(write, xs) + rest)
        == VariableInteger.Write(count) + WriteAll(write, xs) + rest;
  }

  lemma InputsFaithful(bytes: seq<byte>)
    requires ReadList(ReadInput, bytes).Some?
    ensures var (inputs, rest) := ReadList(ReadInput, bytes).value;
            && |bytes| >= |WriteList(WriteInput, inputs)| + |rest|
            && (ListMinimal(ReadInput, InputMinimal, bytes)
                <==> |bytes| == |WriteList(WriteInput, inputs)| + |rest|)
            && (ListMinimal(ReadInput, InputMinimal, bytes) ==> bytes == WriteList(WriteInput, inputs) + rest)
  {
    hide Faithful, ReadMore, WriteList, ListMinimal, ReadInput, WriteInput, InputMinimal, VariableInteger.Read;
    forall b ensures Faithful(ReadInput, WriteInput, InputMinimal, b) { InputFaithful(b); }
    var (inputs, rest) := ReadList(ReadInput, bytes).value;
    CountedFaithful(ReadInput, WriteInput, InputMinimal, bytes, inputs, rest);
  }

  lemma OutputsFaithful(bytes: seq<byte>)
    requires ReadList(ReadOutput, bytes).Some?
    ensures var (outputs, rest) := ReadList(ReadOutput, bytes).value;
            && |bytes| >= |WriteList(WriteOutput, outputs)| + |rest|
            && (ListMinimal(ReadOutput, OutputMinimal, bytes)
                <==> |bytes| == |WriteList(WriteOutput, outputs)| + |rest|)
            && (ListMinimal(ReadOutput, OutputMinimal, bytes) ==> bytes == WriteList(WriteOutput, outputs) + rest)
  {
    hide Faithful, ReadMore, WriteList, ListMinimal, ReadOutput, WriteOutput, OutputMinimal, VariableInteger.Read;
    forall b ensures Faithful(ReadOutput, WriteOutput, OutputMinimal, b) { OutputFaithful(b); }
    var (outputs, rest) := ReadList(ReadOutput, bytes).value;
    CountedFaithful(ReadOutput, WriteOutput, OutputMinimal, bytes, outputs, rest);
  }

  lemma StackFaithful(bytes: seq<byte>)
    ensures Faithful(ReadWitness, WriteStack, StackMinimal, bytes)
  {
    hide ReadMore, WriteList, ListMinimal, ReadElement, WritePrefixed, VariableInteger.Read, VariableInteger.Minimal;
    if ReadWitness(bytes).Some? {
      forall b ensures Faithful(ReadElement, WritePrefixed, VariableInteger.Minimal, b) { ElementFaithful(b); }
      var (stack, rest) := ReadWitness(bytes).value;
      CountedFaithful(ReadElement, WritePrefixed, VariableInteger.Minimal, bytes, stack, rest);
    }
  }

  /** The ambiguous form is never read back: what a reader would have to find does not fit. */
  lemma AmbiguousNotRead(outputs: List<Output>, rest: seq<byte>)
    requires |outputs| == 1
    ensures var r := ReadParts(WriteParts([], outputs, true) + rest);
            r.None? || r.value.0 != [] || r.value.1 != outputs || |r.value.2| != |rest|
  {
    hide VariableInteger.Read, ReadMore, ReadInput, ReadOutput, WriteOutput, WriteList, ReadWitness;
    var bytes := WriteParts([], outputs, true) + rest;
    CountByte(WriteInput, []);
    CountByte(WriteOutput, outputs);
    var b1 := WriteList(WriteOutput, outputs) + rest;
    assert bytes == [WITNESS_MARKER] + b1;
    EmptyListWritten(b1);
    if ReadParts(bytes).Some? {
      var (inputs', b2) := ReadList(ReadInput, b1[1..]).value;
      OutputsFaithful(b2);
      if inputs' == [] {
        InputsFaithful(b1[1..]);
        ReadNoStacks(ReadList(ReadOutput, b2).value.1);
      }
    }
  }

  lemma ReadNoStacks(bytes: seq<byte>)
    ensures ReadMore(ReadWitness, [], 0, bytes) == Some(([], bytes))
  {
  }

  // The main results.

  function Visible(tx: Transaction, segregated: bool): (r: Transaction) {
    if segregated then tx else Strip(tx)
  }

  lemma VisibleWritesSame(tx: Transaction, segregated: bool)
    ensures WriteParts(tx.inputs, tx.outputs, segregated)
         == WriteParts(Visible(tx, segregated).inputs, tx.outputs, true)
  {
    hide WriteInput, WriteOutput, WriteStack, VariableInteger.Write;
    StrippedWritesSame(tx.inputs);
  }

  lemma PartsWritten(inputs: List<Input>, outputs: List<Output>, rest: seq<byte>)
    ensures ReadParts(WriteParts(inputs, outputs, true) + rest) == Some((inputs, outputs, rest))
       <==> WithinLimits(inputs, outputs) && !Ambiguous(inputs, outputs)
  {
    hide ReadParts, WriteParts, WithinLimits;
    var r := ReadParts(WriteParts(inputs, outputs, true) + rest);
    if r.Some? { ReadWithinLimits(WriteParts(inputs, outputs, true) + rest); }
    if Ambiguous(inputs, outputs) {
      AmbiguousNotRead(outputs, rest);
    } else if WithinLimits(inputs, outputs) {
      if IsSegregated(inputs) {
        SegregatedWritten(inputs, outputs, rest);
      } else {
        LegacyWritten(inputs, outputs, rest);
      }
    }
  }

  /** A transaction written and read with the same witness flag comes back, leaving exactly what
      followed it, if and only if it is within the read guards and does not have no inputs and
      one output. Without witnesses it comes back stripped. */
  lemma RoundTrip(tx: Transaction, segregated: bool, rest: seq<byte>)
    ensures ReadTransaction(WriteTransaction(tx, segregated) + rest, segregated)
              == Some((Visible(tx, segregated), rest))
       <==> WithinLimits(Visible(tx, segregated).inputs, tx.outputs) && !Ambiguous(tx.inputs, tx.outputs)
  {
    hide ReadParts, WriteParts, WithinLimits, ReadUint32, LittleEndian.Encode;
    var t := Visible(tx, segregated);
    var b2 := LittleEndian.Encode(tx.locktime, 4) + rest;
    var b1 := WriteParts(tx.inputs, tx.outputs, segregated) + b2;
    VisibleWritesSame(tx, segregated);
    PartsWritten(t.inputs, t.outputs, b2);
    Uint32Written(tx.version, b1);
    Uint32Written(tx.locktime, rest);
    assert WriteTransaction(tx, segregated) + rest == LittleEndian.Encode(tx.version, 4) + b1;
    assert StripAll(StripAll(tx.inputs)) == StripAll(tx.inputs);
    if Ambiguous(t.inputs, t.outputs) {
      AmbiguousNotRead(tx.outputs, b2);
    }
    if ReadParts(b1).Some? {
      var (inputs, outputs, _) := ReadParts(b1).value;
      ReadWithinLimits(b1);
      StripKeepsLimits(inputs, outputs);
    }
  }

  /** Every count and size is minimal, and a form with marker and flag is one that would be
      written: witnesses are asked for and some stack is not empty. */
  ghost predicate PartsMinimal(bytes: seq<byte>, segregated: bool)
    requires ReadParts(bytes).Some?
  {
    var (inputs, b1) := ReadList(ReadInput, bytes).value;
    if inputs == [] && b1 != [] && b1[0] == WITNESS_FLAG then
      var (inputs', b2) := ReadList(ReadInput, b1[1..]).value;
      var (_, b3) := ReadList(ReadOutput, b2).value;
      && segregated && IsSegregated(ReadParts(bytes).value.0)
      && VariableInteger.Minimal(bytes) && ListMinimal(ReadInput, InputMinimal, b1[1..])
      && ListMinimal(ReadOutput, OutputMinimal, b2) && AllMinimal(ReadWitness, StackMinimal, |inputs'|, b3)
    else
      ListMinimal(ReadInput, InputMinimal, bytes) && ListMinimal(ReadOutput, OutputMinimal, b1)
  }

  lemma LegacyRead(bytes: seq<byte>, segregated: bool)
    requires ReadList(ReadInput, bytes).Some?
    requires var (inputs, b1) := ReadList(ReadInput, bytes).value;
             !(inputs == [] && b1 != [] && b1[0] == WITNESS_FLAG) && ReadList(ReadOutput, b1).Some?
    ensures var (inputs, outputs, rest) := ReadParts(bytes).value;
            bytes == WriteParts(inputs, outputs, segregated) + rest <==> PartsMinimal(bytes, segregated)
  {
    hide ReadInput, WriteInput, InputMinimal, ReadOutput, WriteOutput, OutputMinimal, ListMinimal, WriteList;
    InputsReadWithinLimits(bytes);
    hide ReadList;
    var (inputs, b1) := ReadList(ReadInput, bytes).value;
    var (outputs, b2) := ReadList(ReadOutput, b1).value;
    InputsFaithful(bytes);
    OutputsFaithful(b1);
    assert WriteList(WriteInput, inputs) + (WriteList(WriteOutput, outputs) + b2)
        == WriteList(WriteInput, inputs) + WriteList(WriteOutput, outputs) + b2;
  }

  lemma StacksFaithful(inputs: List<Input>, bytes: seq<byte>)
    requires ReadMore(ReadWitness, [], |inputs|, bytes).Some?
    ensures var (stacks, rest) := ReadMore(ReadWitness, [], |inputs|, bytes).value;
            var filled := WithWitnesses(inputs, stacks);
            var written := WriteAll(WriteStack, Stacks(filled));
            && WriteList(WriteInput, filled) == WriteList(WriteInput, inputs)
            && |bytes| >= |written| + |rest|
            && (AllMinimal(ReadWitness, StackMinimal, |inputs|, bytes) <==> |bytes| == |written| + |rest|)
            && (AllMinimal(ReadWitness, StackMinimal, |inputs|, bytes) ==> bytes == written + rest)
  {
    hide Faithful, ReadMore, WriteAll, AllMinimal, ReadWitness, WriteStack, StackMinimal, WriteInput;
    forall b ensures Faithful(ReadWitness, WriteStack, StackMinimal, b) { StackFaithful(b); }
    var (stacks, rest) := ReadMore(ReadWitness, [], |inputs|, bytes).value;
    ListFaithful(ReadWitness, WriteStack, StackMinimal, [], |inputs|, bytes);
    assert stacks[0..] == stacks;
    var filled := WithWitnesses(inputs, stacks);
    assert Stacks(filled) == stacks;
    StrippedWritesSame(filled);
    StrippedWritesSame(inputs);
    assert StripAll(filled) == StripAll(inputs);
  }

  lemma MarkedRead(bytes: seq<byte>, segregated: bool)
    requires ReadParts(bytes).Some?
    requires var (inputs, b1) := ReadList(ReadInput, bytes).value;
             inputs == [] && b1 != [] && b1[0] == WITNESS_FLAG
    ensures var (inputs, outputs, rest) := ReadParts(bytes).value;
            bytes == WriteParts(inputs, outputs, segregated) + rest <==> PartsMinimal(bytes, segregated)
  {
    hide ReadInput, WriteInput, InputMinimal, ReadOutput, WriteOutput, OutputMinimal, ListMinimal, WriteList;
    hide ReadMore, WriteAll, AllMinimal, ReadWitness, WriteStack, StackMinimal;
    var b1 := ReadList(ReadInput, bytes).value.1;
    EmptyListRead(bytes);
    hide ReadList, VariableInteger.Minimal;
    var (inputs', b2) := ReadList(ReadInput, b1[1..]).value;
    InputsFaithful(b1[1..]);
    var (outputs, b3) := ReadList(ReadOutput, b2).value;
    OutputsFaithful(b2);
    StacksFaithful(inputs', b3);
    var (stacks, rest) := ReadMore(ReadWitness, [], |inputs'|, b3).value;
    var filled := WithWitnesses(inputs', stacks);
    assert b1 == [WITNESS_FLAG] + b1[1..];
    MarkedJoin(WriteList(WriteInput, inputs'), WriteList(WriteOutput, outputs),
               WriteAll(WriteStack, Stacks(filled)), rest);
  }

  lemma MarkedJoin(wi: seq<byte>, wo: seq<byte>, ws: seq<byte>, rest: seq<byte>)
    ensures [WITNESS_MARKER] + ([WITNESS_FLAG] + (wi + (wo + (ws + rest))))
         == [WITNESS_MARKER, WITNESS_FLAG] + wi + wo + ws + rest
  {
  }

  lemma EmptyListRead(bytes: seq<byte>)
    requires ReadList(ReadInput, bytes).Some? && ReadList(ReadInput, bytes).value.0 == []
    ensures var rest := ReadList(ReadInput, bytes).value.1;
            && |bytes| >= 1 + |rest|
            && (VariableInteger.Minimal(bytes) <==> |bytes| == 1 + |rest|)
            && (VariableInteger.Minimal(bytes) ==> bytes == [WITNESS_MARKER] + rest)
  {
    hide VariableInteger.Read, ReadInput, VariableInteger.Minimal;
    VariableInteger.WriteRead(bytes);
  }

  lemma PartsRead(bytes: seq<byte>, segregated: bool)
    requires ReadParts(bytes).Some?
    ensures var (inputs, outputs, rest) := ReadParts(bytes).value;
            bytes == WriteParts(inputs, outputs, segregated) + rest <==> PartsMinimal(bytes, segregated)
  {
    hide ReadList, WriteParts, PartsMinimal, ReadMore;
    var (inputs, b1) := ReadList(ReadInput, bytes).value;
    if inputs == [] && b1 != [] && b1[0] == WITNESS_FLAG {
      MarkedRead(bytes, segregated);
    } else {
      LegacyRead(bytes, segregated);
    }
  }

  /** A transaction read and written with the same witness flag gives the bytes it was read from,
      if and only if those are minimal. */
  lemma WriteRead(bytes: seq<byte>, segregated: bool)
    ensures ReadTransaction(bytes, segregated).Some?
        ==> var (tx, rest) := ReadTransaction(bytes, segregated).value;
            bytes == WriteTransaction(tx, segregated) + rest <==> PartsMinimal(bytes[4..], segregated)
  {
    hide ReadParts, WriteParts, PartsMinimal, LittleEndian.Encode;
    if ReadTransaction(bytes, segregated).Some? {
      var (tx, rest) := ReadTransaction(bytes, segregated).value;
      Uint32Read(bytes);
      var (version, b1) := ReadUint32(bytes).value;
      assert bytes[4..] == b1;
      var (inputs, outputs, b2) := ReadParts(b1).value;
      PartsRead(b1, segregated);
      Uint32Read(b2);
      hide ReadUint32;
      var whole := Transaction(version, inputs, outputs, tx.locktime);
      var v, p, l := LittleEndian.Encode(version, 4), WriteParts(inputs, outputs, segregated),
                     LittleEndian.Encode(tx.locktime, 4);
      VisibleTwice(whole, segregated);
      assert WriteTransaction(tx, segregated) + rest == v + (p + (l + rest));
      if bytes == v + (p + (l + rest)) {
        assert b1 == bytes[4..] == p + (l + rest);
      }
    }
  }

  lemma VisibleTwice(tx: Transaction, segregated: bool)
    ensures WriteParts(Visible(tx, segregated).inputs, tx.outputs, segregated)
         == WriteParts(tx.inputs, tx.outputs, segregated)
  {
    VisibleWritesSame(tx, segregated);
    VisibleWritesSame(Visible(tx, segregated), segregated);
    assert StripAll(StripAll(tx.inputs)) == StripAll(tx.inputs);
  }

  /** Behind the version, the marker and flag bytes appear in the segregated form and in the
      ambiguous one, and in no other; version and lock time are at the two ends. */
  lemma MarkerMeansSegregated(tx: Transaction, segregated: bool)
    ensures var bytes := WriteTransaction(tx, segregated);
            && |bytes| >= 10
            && bytes[..4] == LittleEndian.Encode(tx.version, 4)
            && bytes[|bytes| - 4..] == LittleEndian.Encode(tx.locktime, 4)
            && (bytes[4] == WITNESS_MARKER && bytes[5] == WITNESS_FLAG
                <==> || (segregated && exists i :: 0 <= i < |tx.inputs| && tx.inputs[i].stack != [])
                     || (tx.inputs == [] && |tx.outputs| == 1))
  {
    hide LittleEndian.Encode, WriteInput, WriteOutput, WriteAll, WriteStack, WriteList;
    CountByte(WriteInput, tx.inputs);
    CountByte(WriteOutput, tx.outputs);
    var bytes := WriteTransaction(tx, segregated);
    var parts := WriteParts(tx.inputs, tx.outputs, segregated);
    assert bytes[4] == parts[0] && bytes[5] == parts[1];
  }

  lemma StripKeepsLimits(inputs: List<Input>, outputs: List<Output>)
    requires WithinLimits(inputs, outputs)
    ensures WithinLimits(StripAll(inputs), outputs)
  {
    forall x | x in StripAll(inputs) ensures InputWithinLimits(x) {
      var i :| 0 <= i < |inputs| && x == StripInput(inputs[i]);
      assert inputs[i] in inputs;
    }
  }

  /** A point is the hash and four bytes of index, the low one first. */
  lemma PointLayout(point: Point, i: nat)
    requires i < 4
    ensures var bytes := WritePoint(point);
            |bytes| == 36 && bytes[..32] == point.hash && bytes[32 + i] == point.index / Pow(256, i) % 256
  {
    hide LittleEndian.Encode;
    LittleEndian.EncodedByte(point.index, 4, i);
  }

  /** An input is its point, its sized script and its sequence; an output its value and sized script. */
  lemma InputLayout(input: Input, i: nat)
    requires i < 4
    ensures var bytes := WriteInput(input);
            var n := |bytes|;
            && n >= 41 && bytes[..36] == WritePoint(input.point)
            && bytes[36..n - 4] == VariableInteger.Write(|input.script|) + input.script
            && bytes[n - 4 + i] == input.sequence / Pow(256, i) % 256
  {
    hide LittleEndian.Encode, VariableInteger.Write;
    PointLayout(input.point, i);
    hide WritePoint;
    LittleEndian.EncodedByte(input.sequence, 4, i);
  }

  lemma OutputLayout(output: Output, i: nat)
    requires i < 8
    ensures var bytes := WriteOutput(output);
            && |bytes| >= 9 && bytes[i] == output.value / Pow(256, i) % 256
            && bytes[8..] == VariableInteger.Write(|output.script|) + output.script
  {
    hide LittleEndian.Encode, VariableInteger.Write;
    LittleEndian.EncodedByte(output.value, 8, i);
  }

  // Sizes.

  function StackSize(stack: Stack): (r: nat) {
    VariableInteger.Size(|stack|) + TotalSize((e: Bytes) => VariableInteger.Size(|e|) + |e|, stack)
  }

  function InputSize(input: Input, segregated: bool): (r: nat) {
    36 + VariableInteger.Size(|input.script|) + |input.script| + (if segregated then StackSize(input.stack) else 0) + 4
  }

  function OutputSize(output: Output): (r: nat) {
    8 + VariableInteger.Size(|output.script|) + |output.script|
  }

  function SerializedSize(tx: Transaction, segregated: bool): (r: nat) {
    var both := segregated && IsSegregated(tx.inputs);
    (if both then 2 else 0) + 4 + 4
    + VariableInteger.Size(|tx.inputs|) + VariableInteger.Size(|tx.outputs|)
    + TotalSize((i: Input) => InputSize(i, both), tx.inputs)
    + TotalSize((o: Output) => OutputSize(o), tx.outputs)
  }

  lemma StackSizeExact(stack: Stack)
    ensures |WriteStack(stack)| == StackSize(stack)
  {
    hide VariableInteger.Size, VariableInteger.Write;
    WrittenSize(WritePrefixed, (e: Bytes) => VariableInteger.Size(|e|) + |e|, stack);
  }

  lemma {:induction false} InputSizes(inputs: List<Input>)
    ensures |WriteAll(WriteInput, inputs)| == TotalSize((i: Input) => InputSize(i, false), inputs)
    ensures |WriteAll(WriteInput, inputs)| + |WriteAll(WriteStack, Stacks(inputs))|
         == TotalSize((i: Input) => InputSize(i, true), inputs)
  {
    hide VariableInteger.Size, VariableInteger.Write, LittleEndian.Encode, WriteStack, StackSize;
    if inputs != [] {
      InputSizes(inputs[1..]);
      StackSizeExact(inputs[0].stack);
      assert Stacks(inputs)[1..] == Stacks(inputs[1..]);
    }
  }

  /** The size computed in advance is the number of bytes written. */
  lemma SizeExact(tx: Transaction, segregated: bool)
    ensures SerializedSize(tx, segregated) == |WriteTransaction(tx, segregated)|
  {
    hide VariableInteger.Size, VariableInteger.Write, LittleEndian.Encode, WriteInput, InputSize, WriteStack;
    InputSizes(tx.inputs);
    WrittenSize(WriteOutput, (o: Output) => OutputSize(o), tx.outputs);
  }
}
