/** One script operation: an opcode, an optional little-endian length, and the data pushed. */
module Operations {
  import opened Words
  import opened Arithmetic
  import opened Streams
  import LittleEndian

  const MAX_PUSH_DATA_SIZE: int := 520
  const PUSH_SIZE_75: byte := 75
  const PUSH_ONE_SIZE: byte := 76
  const PUSH_TWO_SIZE: byte := 77
  const PUSH_FOUR_SIZE: byte := 78
  const INVALID_CODE: byte := 0x86

  datatype Operation = Operation(code: byte, data: seq<byte>, valid: bool)

  /** What a failed read leaves behind. */
  const INVALID: Operation := Operation(INVALID_CODE, [], false)

  function PrefixWidth(code: byte): (r: nat) {
    if code == PUSH_ONE_SIZE then 1
    else if code == PUSH_TWO_SIZE then 2
    else if code == PUSH_FOUR_SIZE then 4
    else 0
  }

  function Serialize(op: Operation): (r: seq<byte>)
    ensures r != []
  {
    [op.code] + LittleEndian.Encode(|op.data|, PrefixWidth(op.code)) + op.data
  }

  function SerializedSize(op: Operation): (r: nat)
    ensures r == |Serialize(op)|
  {
    1 + PrefixWidth(op.code) + |op.data|
  }

  /** The data size that follows an opcode, out of its prefix bytes. */
  function DataSize(code: byte, prefix: seq<byte>): (r: nat) {
    if PrefixWidth(code) > 0 then LittleEndian.Decode(prefix)
    else if code <= PUSH_SIZE_75 then code else 0
  }

  /** The first operation of a byte string and the bytes it takes; nothing when the bytes run out
      or the size is beyond a block. */
  function ParseOne(bytes: seq<byte>): (r: Option<(Operation, nat)>)
    ensures r.Some? ==> 0 < r.value.1 <= |bytes|
  {
    if bytes == [] then None else
    var start := 1 + PrefixWidth(bytes[0]);
    if |bytes| < start then None else
    var size := DataSize(bytes[0], bytes[1..start]);
    if size > MAX_BLOCK_SIZE || |bytes| - start < size then None
    else Some((Operation(bytes[0], bytes[start..start + size], true), start + size))
  }

  /** The opcode and the data size agree the way a reader needs them to. */
  ghost predicate WellFormed(op: Operation) {
    && op.valid && |op.data| <= MAX_BLOCK_SIZE
    && if PrefixWidth(op.code) > 0 then |op.data| < Pow(256, PrefixWidth(op.code))
       else |op.data| == if op.code <= PUSH_SIZE_75 then op.code else 0
  }

  lemma ParseSerialized(op: Operation, rest: seq<byte>)
    requires WellFormed(op)
    ensures ParseOne(Serialize(op) + rest) == Some((op, SerializedSize(op)))
  {
    var w := PrefixWidth(op.code);
    var bytes := Serialize(op) + rest;
    assert bytes[1..1 + w] == LittleEndian.Encode(|op.data|, w);
    if w > 0 { LittleEndian.DecodeEncode(|op.data|, w); }
    assert bytes[1 + w..1 + w + |op.data|] == op.data;
  }

  lemma ThreeParts(s: seq<byte>, a: nat, b: nat, n: nat)
    requires a <= b <= n <= |s|
    ensures s[..n] == s[..a] + s[a..b] + s[b..n]
  {
  }

  lemma SerializeParsed(bytes: seq<byte>)
    requires ParseOne(bytes).Some?
    ensures var (op, n) := ParseOne(bytes).value;
            WellFormed(op) && n == SerializedSize(op) && Serialize(op) == bytes[..n]
  {
    var (op, n) := ParseOne(bytes).value;
    var w := PrefixWidth(op.code);
    var prefix := bytes[1..1 + w];
    if w > 0 {
      LittleEndian.DecodeBelow(prefix);
      LittleEndian.EncodeDecode(prefix);
    }
    ThreeParts(bytes, 1, 1 + w, n);
    assert bytes[..1] == [bytes[0]];
  }

  method ReadDataSize(code: byte, source: Reader) returns (size: nat)
    requires source.Valid()
    modifies source
    ensures source.Valid() && (!source.failed <==> !old(source.failed) && PrefixWidth(code) <= |old(source.Rest())|)
    ensures !source.failed ==> size == DataSize(code, old(source.Rest())[..PrefixWidth(code)])
    ensures !source.failed ==> source.position == old(source.position) + PrefixWidth(code)
    ensures !source.failed ==> source.Rest() == old(source.Rest())[PrefixWidth(code)..]
  {
    if code == PUSH_ONE_SIZE {
      size := source.ReadLittleEndian(1);
    } else if code == PUSH_TWO_SIZE {
      size := source.ReadLittleEndian(2);
    } else if code == PUSH_FOUR_SIZE {
      size := source.ReadLittleEndian(4);
    } else {
      size := if code <= PUSH_SIZE_75 then code else 0;
    }
  }

  method FromData(source: Reader) returns (op: Operation)
    requires source.Valid()
    modifies source
    ensures source.Valid() && (!source.failed <==> !old(source.failed) && ParseOne(old(source.Rest())).Some?)
    ensures source.failed ==> op == INVALID
    ensures !source.failed ==> ParseOne(old(source.Rest())) == Some((op, source.position - old(source.position)))
  {
    hide LittleEndian.Decode;
    ghost var bytes := source.Rest();
    var code := source.ReadByte();
    var size := ReadDataSize(code, source);
    var data := [];
    if size > MAX_BLOCK_SIZE {
      source.Invalidate();
    } else {
      data := source.ReadBytes(size);
    }
    op := if source.failed then INVALID else Operation(code, data, true);
    if bytes != [] && PrefixWidth(bytes[0]) < |bytes| {
      ghost var start := 1 + PrefixWidth(bytes[0]);
      assert bytes[1..][..start - 1] == bytes[1..start];
      assert bytes[1..][start - 1..] == bytes[start..];
      if size <= |bytes| - start {
        assert bytes[start..][..size] == bytes[start..start + size];
      }
    }
  }

  /** The smallest push that can hold a size, never a numeric opcode. */
  function OpcodeFromSize(size: nat): (r: byte) {
    if size <= PUSH_SIZE_75 then size
    else if size <= 0xFF then PUSH_ONE_SIZE
    else if size <= 0xFFFF then PUSH_TWO_SIZE
    else PUSH_FOUR_SIZE
  }

  /** A push of raw data; data too large to push gives the invalid operation. */
  function Push(data: seq<byte>): (r: Operation) {
    if |data| > MAX_PUSH_DATA_SIZE then INVALID else Operation(OpcodeFromSize(|data|), data, true)
  }

  lemma PushIsWellFormed(data: seq<byte>)
    ensures WellFormed(Push(data)) <==> |data| <= MAX_PUSH_DATA_SIZE
    ensures |data| > MAX_PUSH_DATA_SIZE ==> Serialize(Push(data)) == [INVALID_CODE]
  {
    LittleEndian.Widths();
  }

  /** The bytes of a push: the size in the opcode up to 75, in one byte up to 255, else in two. */
  lemma PushBytes(data: seq<byte>)
    ensures Serialize(Push(data))
         == (if |data| <= 75 then [|data|] + data
             else if |data| <= 255 then [76, |data|] + data
             else if |data| <= 520 then [77, |data| % 256, |data| / 256] + data
             else [0x86])
  {
    var n := |data|;
    if 75 < n <= 255 {
      assert LittleEndian.Encode(n, 1) == [n];
    } else if 255 < n <= 520 {
      assert LittleEndian.Encode(n / 256, 1) == [n / 256];
      assert LittleEndian.Encode(n, 2) == [n % 256, n / 256];
    }
  }

  /** A push is the shortest well-formed operation for its data, and the only one so short. */
  lemma PushIsShortest(data: seq<byte>, op: Operation)
    requires 0 < |data| <= 520 && WellFormed(op) && op.data == data
    ensures |Serialize(Push(data))| <= |Serialize(op)|
    ensures |Serialize(Push(data))| == |Serialize(op)| <==> op == Push(data)
  {
    PushBytes(data);
    LittleEndian.Widths();
  }
}

/** Script bytes with a lazily filled operation cache. */
module Scripts {
  import opened Words
  import opened Streams
  import opened Operations
  import opened PrefixedBytes
  import VariableInteger

  function Parse(bytes: seq<byte>): (r: seq<Operation>) {
    if bytes == [] then []
    else match ParseOne(bytes)
         case None => [INVALID]
         case Some((op, n)) => [op] + Parse(bytes[n..])
  }

  function SerializeAll(ops: seq<Operation>): (r: seq<byte>) {
    if ops == [] then [] else Serialize(ops[0]) + SerializeAll(ops[1..])
  }

  ghost predicate AllWellFormed(ops: seq<Operation>) {
    forall i :: 0 <= i < |ops| ==> WellFormed(ops[i])
  }

  /** Only the last parsed operation can be invalid, and then it is the one a failed read leaves. */
  lemma {:induction false} OnlyLastInvalid(bytes: seq<byte>)
    ensures var ops := Parse(bytes);
            && AllWellFormed(ops[..if |ops| == 0 then 0 else |ops| - 1])
            && (ops != [] ==> WellFormed(ops[|ops| - 1]) || ops[|ops| - 1] == INVALID)
  {
    hide WellFormed, Serialize, SerializedSize, ParseOne;
    if bytes != [] && ParseOne(bytes).Some? {
      var (op, n) := ParseOne(bytes).value;
      SerializeParsed(bytes);
      OnlyLastInvalid(bytes[n..]);
      var rest := Parse(bytes[n..]);
      assert Parse(bytes) == [op] + rest;
      if rest != [] {
        assert Parse(bytes)[..|rest|] == [op] + rest[..|rest| - 1];
      }
    }
  }

  lemma {:induction false} ParseWellFormed(ops: seq<Operation>)
    requires AllWellFormed(ops)
    ensures Parse(SerializeAll(ops)) == ops
  {
    hide WellFormed, ParseOne;
    if ops != [] {
      var rest := SerializeAll(ops[1..]);
      ParseSerialized(ops[0], rest);
      ParseWellFormed(ops[1..]);
      var bytes := Serialize(ops[0]) + rest;
      assert bytes[SerializedSize(ops[0])..] == rest;
      assert ops == [ops[0]] + ops[1..];
    }
  }

  lemma {:induction false} SerializeAppend(a: seq<Operation>, b: seq<Operation>)
    ensures SerializeAll(a + b) == SerializeAll(a) + SerializeAll(b)
  {
    hide Serialize;
    if a == [] {
      assert a + b == b;
    } else {
      SerializeAppend(a[1..], b);
      assert (a + b)[1..] == a[1..] + b && (a + b)[0] == a[0];
      assert SerializeAll(a + b) == Serialize(a[0]) + (SerializeAll(a[1..]) + SerializeAll(b));
    }
  }

  /** Printing and parsing: operations come back exactly when each is well formed. */
  lemma {:induction false} ParseSerializeAll(ops: seq<Operation>)
    ensures Parse(SerializeAll(ops)) == ops <==> AllWellFormed(ops)
  {
    hide WellFormed, ParseOne;
    if AllWellFormed(ops) {
      ParseWellFormed(ops);
    } else if Parse(SerializeAll(ops)) == ops {
      OnlyLastInvalid(SerializeAll(ops));
      var last := |ops| - 1;
      var good := ops[..last] + [Operation(INVALID_CODE, [], true)];
      assert ops == ops[..last] + [INVALID];
      SerializeAppend(ops[..last], [INVALID]);
      SerializeAppend(ops[..last], [Operation(INVALID_CODE, [], true)]);
      PlainOpcode();
      ParseWellFormed(good);
      assert false;
    }
  }

  lemma PlainOpcode()
    ensures WellFormed(Operation(INVALID_CODE, [], true))
    ensures SerializeAll([Operation(INVALID_CODE, [], true)]) == SerializeAll([INVALID]) == [INVALID_CODE]
    ensures !WellFormed(INVALID) && ParseOne([INVALID_CODE]).Some?
  {
    assert Serialize(INVALID) == Serialize(Operation(INVALID_CODE, [], true)) == [INVALID_CODE];
  }

  /** Parsing and printing: the bytes come back exactly when no operation failed. */
  lemma {:induction false} SerializeParse(bytes: seq<byte>)
    ensures var ops := Parse(bytes);
            SerializeAll(ops) == bytes <==> ops == [] || ops[|ops| - 1].valid
  {
    hide Serialize, ParseOne, SerializeAll, Parse;
    if bytes == [] {
      ParseNothing(bytes);
      assert SerializeAll([]) == [] by { SerializeCons([]); }
    } else {
      assert bytes[0..] == bytes;
      ParseStep(bytes, 0);
      match ParseOne(bytes)
      case None =>
        PlainOpcode();
      case Some((op, n)) =>
        SerializeParsed(bytes);
        SerializeParse(bytes[n..]);
        var rest := Parse(bytes[n..]);
        SerializeCons([op] + rest);
        assert ([op] + rest)[1..] == rest;
        SplitAgrees(bytes, n, SerializeAll(rest));
    }
  }

  lemma SerializeCons(ops: seq<Operation>)
    ensures SerializeAll(ops) == if ops == [] then [] else Serialize(ops[0]) + SerializeAll(ops[1..])
  {
  }

  lemma SplitAgrees(bytes: seq<byte>, n: nat, tail: seq<byte>)
    requires n <= |bytes|
    ensures bytes[..n] + tail == bytes <==> tail == bytes[n..]
  {
    assert bytes == bytes[..n] + bytes[n..];
    assert (bytes[..n] + tail)[n..] == tail;
  }

  /** A script in a stream: all that is left, or a size and that many bytes. */
  function ReadScript(bytes: seq<byte>, prefix: bool): (r: Option<(seq<byte>, seq<byte>)>) {
    if prefix then ReadPrefixed(MAX_BLOCK_SIZE, bytes) else Some((bytes, []))
  }

  /** Drops the value wherever an operation would start, copies one whole operation otherwise,
      and keeps everything from an operation that does not parse. */
  function DeleteValue(bytes: seq<byte>, value: seq<byte>): (r: seq<byte>)
    requires value != []
  {
    if bytes == [] then []
    else if value <= bytes then DeleteValue(bytes[|value|..], value)
    else match ParseOne(bytes)
         case None => bytes
         case Some((_, n)) => bytes[..n] + DeleteValue(bytes[n..], value)
  }

  function DeleteEndorsement(bytes: seq<byte>, endorsement: seq<byte>): (r: seq<byte>) {
    if endorsement == [] then bytes else DeleteValue(bytes, Serialize(Push(endorsement)))
  }

  function DeleteAll(bytes: seq<byte>, endorsements: seq<seq<byte>>): (r: seq<byte>) {
    if endorsements == [] then bytes
    else DeleteEndorsement(DeleteAll(bytes, endorsements[..|endorsements| - 1]), endorsements[|endorsements| - 1])
  }

  // What deletion means: it removes whole operations.

  /** The operations before the first that does not parse. */
  ghost function ValidOps(bytes: seq<byte>): (r: seq<Operation>) {
    if bytes == [] then []
    else match ParseOne(bytes)
         case None => []
         case Some((op, n)) => [op] + ValidOps(bytes[n..])
  }

  /** The bytes from that one on. */
  ghost function UnparsedTail(bytes: seq<byte>): (r: seq<byte>) {
    if bytes == [] then []
    else match ParseOne(bytes)
         case None => bytes
         case Some((_, n)) => UnparsedTail(bytes[n..])
  }

  ghost function Without(ops: seq<Operation>, removed: set<Operation>): (r: seq<Operation>) {
    if ops == [] then []
    else (if ops[0] in removed then [] else [ops[0]]) + Without(ops[1..], removed)
  }

  /** Where a well-formed operation's bytes start, that operation is what parses. */
  lemma PrefixParses(bytes: seq<byte>, op: Operation)
    requires WellFormed(op) && Serialize(op) <= bytes
    ensures ParseOne(bytes) == Some((op, |Serialize(op)|))
  {
    hide ParseOne, WellFormed, Serialize;
    ParseSerialized(op, bytes[|Serialize(op)|..]);
    assert Serialize(op) + bytes[|Serialize(op)|..] == bytes;
  }

  /** Deleting the bytes of a well-formed operation removes exactly the operations equal to it,
      and keeps every other operation and the tail that does not parse. */
  lemma {:induction false} DeleteIsFilter(bytes: seq<byte>, op: Operation)
    requires WellFormed(op)
    ensures DeleteValue(bytes, Serialize(op)) == SerializeAll(Without(ValidOps(bytes), {op})) + UnparsedTail(bytes)
    decreases |bytes|
  {
    hide ParseOne, WellFormed, Serialize;
    if bytes != [] {
      if Serialize(op) <= bytes { PrefixParses(bytes, op); }
      match ParseOne(bytes)
      case None =>
      case Some((first, n)) =>
        SerializeParsed(bytes);
        DeleteIsFilter(bytes[n..], op);
        var rest := Without(ValidOps(bytes[n..]), {op});
        assert ValidOps(bytes)[1..] == ValidOps(bytes[n..]);
        if first == op {
          assert bytes[..n] <= bytes;
          assert [] + rest == rest;
        } else {
          assert ([first] + rest)[1..] == rest;
          assert Serialize(first) + (SerializeAll(rest) + UnparsedTail(bytes))
              == Serialize(first) + SerializeAll(rest) + UnparsedTail(bytes);
        }
    }
  }

  /** The operation an endorsement stands for; one too large to push stands for the invalid code. */
  ghost function Deleted(endorsement: seq<byte>): (r: Operation) {
    var n := |endorsement|;
    if n > 520 then Operation(0x86, [], true)
    else Operation(if n <= 75 then n else if n <= 255 then 76 else 77, endorsement, true)
  }

  lemma DeletedIsPush(endorsement: seq<byte>)
    ensures WellFormed(Deleted(endorsement)) && Serialize(Deleted(endorsement)) == Serialize(Push(endorsement))
  {
    PushIsWellFormed(endorsement);
    PlainOpcode();
  }

  lemma EndorsementIsFilter(bytes: seq<byte>, endorsement: seq<byte>)
    requires endorsement != []
    ensures DeleteEndorsement(bytes, endorsement)
         == SerializeAll(Without(ValidOps(bytes), {Deleted(endorsement)})) + UnparsedTail(bytes)
  {
    hide WellFormed, DeleteValue, ValidOps, UnparsedTail, Without, SerializeAll, Deleted, Push;
    DeletedIsPush(endorsement);
    DeleteIsFilter(bytes, Deleted(endorsement));
  }

  lemma {:induction false} ParsesFirst(op: Operation, rest: seq<byte>)
    requires WellFormed(op)
    ensures ValidOps(Serialize(op) + rest) == [op] + ValidOps(rest)
    ensures UnparsedTail(Serialize(op) + rest) == UnparsedTail(rest)
  {
    hide ParseOne, WellFormed, Serialize;
    ParseSerialized(op, rest);
    assert (Serialize(op) + rest)[SerializedSize(op)..] == rest;
  }

  lemma {:induction false} Recompose(ops: seq<Operation>, tail: seq<byte>)
    requires AllWellFormed(ops) && (tail == [] || ParseOne(tail).None?)
    ensures ValidOps(SerializeAll(ops) + tail) == ops && UnparsedTail(SerializeAll(ops) + tail) == tail
  {
    hide ParseOne, WellFormed, Serialize;
    if ops == [] {
      assert SerializeAll(ops) + tail == tail;
    } else {
      hide ValidOps, UnparsedTail;
      ParsesFirst(ops[0], SerializeAll(ops[1..]) + tail);
      Recompose(ops[1..], tail);
      assert SerializeAll(ops) + tail == Serialize(ops[0]) + (SerializeAll(ops[1..]) + tail);
      assert ops == [ops[0]] + ops[1..];
    }
  }

  lemma {:induction false} ValidOpsWellFormed(bytes: seq<byte>)
    ensures AllWellFormed(ValidOps(bytes)) && (UnparsedTail(bytes) == [] || ParseOne(UnparsedTail(bytes)).None?)
    decreases |bytes|
  {
    hide ParseOne, WellFormed, Serialize;
    if bytes != [] && ParseOne(bytes).Some? {
      SerializeParsed(bytes);
      ValidOpsWellFormed(bytes[ParseOne(bytes).value.1..]);
    }
  }

  lemma {:induction false} WithoutKeeps(ops: seq<Operation>, removed: set<Operation>)
    requires AllWellFormed(ops)
    ensures AllWellFormed(Without(ops, removed))
  {
    hide WellFormed;
    if ops != [] { WithoutKeeps(ops[1..], removed); }
  }

  lemma {:induction false} WithoutTwice(ops: seq<Operation>, a: set<Operation>, b: set<Operation>)
    ensures Without(Without(ops, a), b) == Without(ops, a + b)
  {
    if ops != [] {
      WithoutTwice(ops[1..], a, b);
      var x := Without(ops[1..], a);
      assert ([ops[0]] + x)[1..] == x && [] + x == x;
    }
  }

  lemma {:induction false} WithoutNone(ops: seq<Operation>)
    ensures Without(ops, {}) == ops
  {
    if ops != [] {
      WithoutNone(ops[1..]);
      assert ops == [ops[0]] + ops[1..];
    }
  }

  /** The valid operations and the tail make up the bytes. */
  lemma {:induction false} Decompose(bytes: seq<byte>)
    ensures SerializeAll(ValidOps(bytes)) + UnparsedTail(bytes) == bytes
    decreases |bytes|
  {
    hide ParseOne, WellFormed, Serialize;
    if bytes != [] && ParseOne(bytes).Some? {
      var (op, n) := ParseOne(bytes).value;
      SerializeParsed(bytes);
      Decompose(bytes[n..]);
      assert ValidOps(bytes)[1..] == ValidOps(bytes[n..]);
      assert bytes == bytes[..n] + (SerializeAll(ValidOps(bytes[n..])) + UnparsedTail(bytes));
    }
  }

  ghost function DeletedSet(endorsements: seq<seq<byte>>): (r: set<Operation>) {
    set e | e in endorsements && e != [] :: Deleted(e)
  }

  /** A whole list of endorsements removes, in one filter, the operations any of them stands for. */
  lemma {:induction false} DeleteAllIsFilter(bytes: seq<byte>, endorsements: seq<seq<byte>>)
    ensures DeleteAll(bytes, endorsements)
         == SerializeAll(Without(ValidOps(bytes), DeletedSet(endorsements))) + UnparsedTail(bytes)
  {
    hide DeleteEndorsement, ValidOps, UnparsedTail, Without, SerializeAll, AllWellFormed, ParseOne, Deleted;
    var ops, tail := ValidOps(bytes), UnparsedTail(bytes);
    if endorsements == [] {
      WithoutNone(ops);
      Decompose(bytes);
      assert DeletedSet(endorsements) == {};
    } else {
      var before, last := endorsements[..|endorsements| - 1], endorsements[|endorsements| - 1];
      DeleteAllIsFilter(bytes, before);
      assert endorsements == before + [last];
      if last == [] {
        assert DeletedSet(endorsements) == DeletedSet(before);
        EmptyEndorsement(DeleteAll(bytes, before));
      } else {
        assert DeletedSet(endorsements) == DeletedSet(before) + {Deleted(last)};
        ValidOpsWellFormed(bytes);
        WithoutKeeps(ops, DeletedSet(before));
        Recompose(Without(ops, DeletedSet(before)), tail);
        EndorsementIsFilter(DeleteAll(bytes, before), last);
        WithoutTwice(ops, DeletedSet(before), {Deleted(last)});
      }
    }
  }

  lemma EmptyEndorsement(bytes: seq<byte>)
    ensures DeleteEndorsement(bytes, []) == bytes
  {
  }

  /** The order and the repetition of endorsements do not matter, nor do empty ones. */
  lemma DeletionOrder(bytes: seq<byte>, a: seq<seq<byte>>, b: seq<seq<byte>>)
    requires forall e :: e != [] ==> (e in a <==> e in b)
    ensures DeleteAll(bytes, a) == DeleteAll(bytes, b)
  {
    hide DeleteAll, Deleted;
    DeleteAllIsFilter(bytes, a);
    DeleteAllIsFilter(bytes, b);
    assert DeletedSet(a) == DeletedSet(b);
  }

  /** The value is a prefix of the bytes from a position on. */
  predicate MatchAt(bytes: seq<byte>, at: nat, value: seq<byte>) {
    at <= |bytes| && value <= bytes[at..]
  }

  /** Matches in order, none overlapping the next, all ending by `end`. */
  ghost predicate Separated(bytes: seq<byte>, found: seq<nat>, value: seq<byte>, end: nat) {
    && end <= |bytes|
    && (forall i :: 0 <= i < |found| ==> MatchAt(bytes, found[i], value) && found[i] + |value| <= end)
    && (forall i, j :: 0 <= i < j < |found| ==> found[i] + |value| <= found[j])
  }

  /** The bytes before `end` without the matches. */
  ghost function Kept(bytes: seq<byte>, found: seq<nat>, value: seq<byte>, end: nat): (r: seq<byte>)
    requires Separated(bytes, found, value, end)
  {
    if found == [] then bytes[..end] else
    var last := |found| - 1;
    Kept(bytes, found[..last], value, found[last]) + bytes[found[last] + |value|..end]
  }

  lemma KeptExtends(bytes: seq<byte>, found: seq<nat>, value: seq<byte>, end: nat, more: nat)
    requires Separated(bytes, found, value, end) && end <= more <= |bytes|
    ensures Separated(bytes, found, value, more)
    ensures Kept(bytes, found, value, more) == Kept(bytes, found, value, end) + bytes[end..more]
  {
    if found == [] {
      assert bytes[..more] == bytes[..end] + bytes[end..more];
    } else {
      var from := found[|found| - 1] + |value|;
      assert bytes[from..more] == bytes[from..end] + bytes[end..more];
    }
  }

  lemma KeptSkips(bytes: seq<byte>, found: seq<nat>, value: seq<byte>, end: nat)
    requires value != [] && Separated(bytes, found, value, end) && MatchAt(bytes, end, value)
    ensures Separated(bytes, found + [end], value, end + |value|)
    ensures Kept(bytes, found + [end], value, end + |value|) == Kept(bytes, found, value, end)
  {
    assert (found + [end])[..|found|] == found;
  }

  lemma KeptNothing(bytes: seq<byte>, value: seq<byte>)
    ensures Separated(bytes, [], value, 0) && Kept(bytes, [], value, 0) == []
  {
  }

  lemma DeleteSkips(bytes: seq<byte>, value: seq<byte>, at: nat)
    requires value != [] && MatchAt(bytes, at, value)
    ensures DeleteValue(bytes[at..], value) == DeleteValue(bytes[at + |value|..], value)
  {
    assert bytes[at..][|value|..] == bytes[at + |value|..];
  }

  lemma DeleteCopies(bytes: seq<byte>, value: seq<byte>, at: nat, next: nat)
    requires value != [] && at <= next <= |bytes| && !MatchAt(bytes, at, value)
    requires ParseOne(bytes[at..]).Some? && ParseOne(bytes[at..]).value.1 == next - at
    ensures DeleteValue(bytes[at..], value) == bytes[at..next] + DeleteValue(bytes[next..], value)
  {
    hide ParseOne;
    assert bytes[at..][next - at..] == bytes[next..] && bytes[at..][..next - at] == bytes[at..next];
  }

  lemma DeleteStops(bytes: seq<byte>, value: seq<byte>)
    requires value != [] && (bytes == [] || !(value <= bytes)) && ParseOne(bytes).None?
    ensures DeleteValue(bytes, value) == bytes
  {
  }

  /** The scan has dealt with the bytes before a position, or given up there. */
  ghost predicate Scanned(bytes: seq<byte>, found: seq<nat>, value: seq<byte>, at: nat, failed: bool)
    requires value != []
  {
    && Separated(bytes, found, value, at)
    && Kept(bytes, found, value, at) + DeleteValue(bytes[at..], value) == DeleteValue(bytes, value)
    && (failed ==> DeleteValue(bytes[at..], value) == bytes[at..])
  }

  lemma ScanStart(bytes: seq<byte>, value: seq<byte>)
    requires value != []
    ensures Scanned(bytes, [], value, 0, false)
  {
    hide DeleteValue;
    KeptNothing(bytes, value);
    assert bytes[0..] == bytes;
  }

  lemma ScanMatch(bytes: seq<byte>, found: seq<nat>, value: seq<byte>, at: nat)
    requires value != [] && Scanned(bytes, found, value, at, false) && MatchAt(bytes, at, value)
    ensures Scanned(bytes, found + [at], value, at + |value|, false)
  {
    hide DeleteValue, Kept, Separated;
    KeptSkips(bytes, found, value, at);
    DeleteSkips(bytes, value, at);
  }

  lemma ScanCopy(bytes: seq<byte>, found: seq<nat>, value: seq<byte>, at: nat, next: nat)
    requires value != [] && Scanned(bytes, found, value, at, false) && !MatchAt(bytes, at, value)
    requires at <= next <= |bytes| && ParseOne(bytes[at..]).Some? && ParseOne(bytes[at..]).value.1 == next - at
    ensures Scanned(bytes, found, value, next, false)
  {
    hide DeleteValue, Kept, Separated, ParseOne;
    KeptExtends(bytes, found, value, at, next);
    DeleteCopies(bytes, value, at, next);
  }

  lemma ScanStop(bytes: seq<byte>, found: seq<nat>, value: seq<byte>, at: nat)
    requires value != [] && Scanned(bytes, found, value, at, false) && !MatchAt(bytes, at, value)
    requires at <= |bytes| && ParseOne(bytes[at..]).None?
    ensures Scanned(bytes, found, value, at, true)
  {
    hide DeleteValue, Kept, Separated, ParseOne;
    DeleteStops(bytes[at..], value);
  }

  lemma ScanEnd(bytes: seq<byte>, found: seq<nat>, value: seq<byte>, at: nat, failed: bool)
    requires value != [] && Scanned(bytes, found, value, at, failed) && at <= |bytes| && (failed || at == |bytes|)
    ensures Separated(bytes, found, value, |bytes|)
    ensures Kept(bytes, found, value, |bytes|) == DeleteValue(bytes, value)
  {
    hide DeleteValue, Kept, Separated;
    KeptExtends(bytes, found, value, at, |bytes|);
    assert bytes[at..|bytes|] == bytes[at..];
    if !failed {
      assert bytes[at..] == [];
      DeleteNothing(value);
    }
  }

  /** The inner loop of the scan: records consecutive matches. */
  method SkipMatches(source: Reader, value: seq<byte>, before: seq<nat>, from: nat) returns (found: seq<nat>, it: nat)
    requires source.Valid() && !source.failed && source.position == from && value != []
    requires Scanned(source.data, before, value, from, false)
    modifies source
    ensures source.Valid() && !source.failed && from <= it == source.position
    ensures Scanned(source.data, found, value, it, false) && !MatchAt(source.data, it, value)
  {
    hide Scanned;
    found, it := before, from;
    while MatchAt(source.data, it, value)
      invariant source.Valid() && !source.failed && from <= it == source.position
      invariant Scanned(source.data, found, value, it, false)
      decreases |source.data| - it
    {
      ScanMatch(source.data, found, value, it);
      source.Skip(|value|);
      found := found + [it];
      it := it + |value|;
    }
  }

  /** The scan: matches are consumed as long as there are any, then one operation is read. The
      iterator moves by the operation's serialized size and the reader by what it reads. */
  method FindMatches(bytes: seq<byte>, value: seq<byte>) returns (found: seq<nat>)
    requires value != []
    ensures Separated(bytes, found, value, |bytes|)
    ensures Kept(bytes, found, value, |bytes|) == DeleteValue(bytes, value)
  {
    hide ParseOne, Kept, Separated, SerializedSize, DeleteValue, Serialize, WellFormed, Scanned, MatchAt;
    var source := new Reader(bytes);
    var it := 0;
    found := [];
    ScanStart(bytes, value);
    while !source.IsExhausted()
      invariant source.Valid() && source.data == bytes && fresh(source) && 0 <= it <= |bytes|
      invariant !source.failed ==> source.position == it
      invariant Scanned(bytes, found, value, it, source.failed)
      decreases !source.failed, |bytes| - source.position
    {
      found, it := SkipMatches(source, value, found, it);
      ghost var start := it;
      var op := Operations.FromData(source);
      if source.failed {
        ScanStop(bytes, found, value, start);
      } else {
        SerializeParsed(bytes[start..]);
        it := it + SerializedSize(op);
        ScanCopy(bytes, found, value, start, it);
      }
    }
    ScanEnd(bytes, found, value, it, source.failed);
  }

  lemma DeleteNothing(value: seq<byte>)
    requires value != []
    ensures DeleteValue([], value) == []
  {
  }

  lemma KeptDrops(bytes: seq<byte>, found: seq<nat>, value: seq<byte>, end: nat, i: nat)
    requires 0 < i <= |found| && Separated(bytes, found[..i], value, end)
    ensures Separated(bytes, found[..i - 1], value, found[i - 1]) && found[i - 1] + |value| <= end
    ensures Kept(bytes, found[..i], value, end)
         == Kept(bytes, found[..i - 1], value, found[i - 1]) + bytes[found[i - 1] + |value|..end]
  {
    assert found[..i][..i - 1] == found[..i - 1];
  }

  /** Erases the matches from the last to the first, so that earlier positions stay good. */
  method EraseMatches(bytes: seq<byte>, found: seq<nat>, value: seq<byte>) returns (r: seq<byte>)
    requires Separated(bytes, found, value, |bytes|)
    ensures r == Kept(bytes, found, value, |bytes|)
  {
    hide Separated;
    r := bytes;
    ghost var end, tail := |bytes|, [];
    var i := |found|;
    assert found[..i] == found;
    while i > 0
      invariant 0 <= i <= |found| && 0 <= end <= |bytes| && r == bytes[..end] + tail
      invariant Separated(bytes, found[..i], value, end)
      invariant Kept(bytes, found[..i], value, end) + tail == Kept(bytes, found, value, |bytes|)
    {
      KeptDrops(bytes, found, value, end, i);
      i := i - 1;
      tail := bytes[found[i] + |value|..end] + tail;
      r := r[..found[i]] + r[found[i] + |value|..];
      end := found[i];
    }
  }

  /** The object's fields as a value, and what each call makes of it. */
  datatype State = State(bytes: seq<byte>, operations: seq<Operation>, valid: bool, cached: bool)

  const EMPTY: State := State([], [], false, false)

  datatype Call =
    | Reset
    | Load(read: Option<seq<byte>>)
    | Store(ops: seq<Operation>)
    | List
    | Assign(bytes: seq<byte>, valid: bool)
    | Delete(endorsements: seq<seq<byte>>)

  ghost function Apply(s: State, call: Call): (r: State) {
    match call
    case Reset => EMPTY
    case Load(None) => EMPTY
    case Load(Some(bytes)) => State(bytes, [], true, false)
    case Store(ops) => State(SerializeAll(ops), ops, true, true)
    case List => if s.cached then s else s.(operations := s.operations + Parse(s.bytes), cached := true)
    case Assign(bytes, valid) => State(bytes, [], valid, false)
    case Delete(endorsements) => State(DeleteAll(s.bytes, endorsements), [], s.valid, false)
  }

  ghost function Run(calls: seq<Call>): (r: State) {
    if calls == [] then EMPTY else Apply(Run(calls[..|calls| - 1]), calls[|calls| - 1])
  }

  /** Cached operations are the parse of the bytes; an uncached script holds none. */
  ghost predicate Coherent(s: State) {
    s.operations == if s.cached then Parse(s.bytes) else []
  }

  /** The operations last stored, with only listing since, include one that is not well formed. */
  ghost predicate Tainted(calls: seq<Call>) {
    calls != [] &&
    var last := calls[|calls| - 1];
    if last.List? then Tainted(calls[..|calls| - 1]) else last.Store? && !AllWellFormed(last.ops)
  }

  /** Over every run the cache is coherent, except exactly while ill-formed operations are stored. */
  lemma {:induction false} RunIsCoherent(calls: seq<Call>)
    ensures Coherent(Run(calls)) <==> !Tainted(calls)
    ensures !Run(calls).cached ==> Run(calls).operations == []
  {
    hide AllWellFormed, SerializeAll, DeleteAll, Parse;
    if calls != [] {
      RunIsCoherent(calls[..|calls| - 1]);
      var last := calls[|calls| - 1];
      if last.Store? {
        ParseSerializeAll(last.ops);
      }
    }
  }

  /** A bare push opcode stored without its data is one such operation. */
  lemma BarePushIsNotCoherent()
    ensures !Coherent(Run([Store([Operation(5, [], true)])]))
  {
    var calls := [Store([Operation(5, [], true)])];
    assert Tainted(calls) by {
      assert !WellFormed(calls[0].ops[0]);
    }
    RunIsCoherent(calls);
  }

  class Script {
    var bytes: seq<byte>
    var operations: seq<Operation>
    var valid: bool
    var cached: bool

    ghost function View(): (r: State)
      reads this
    {
      State(bytes, operations, valid, cached)
    }

    constructor ()
      ensures View() == EMPTY
    {
      bytes, operations, valid, cached := [], [], false, false;
    }

    constructor Copy(other: Script)
      ensures View() == Apply(EMPTY, Assign(other.bytes, other.valid))
    {
      bytes, operations, valid, cached := other.bytes, [], other.valid, false;
    }

    constructor FromBytes(encoded: seq<byte>)
      ensures View() == Apply(EMPTY, Assign(encoded, true))
    {
      bytes, operations, valid, cached := encoded, [], true, false;
    }

    constructor FromOps(ops: seq<Operation>)
      ensures View() == Apply(EMPTY, Store(ops))
    {
      bytes, operations, valid, cached := [], [], false, false;
      new;
      FromOperations(ops);
    }

    method Clear()
      modifies this
      ensures View() == EMPTY
    {
      bytes := [];
      valid := false;
      cached := false;
      operations := [];
    }

    /** Assignment clears first, so that a script assigned to itself comes out empty. */
    method AssignFrom(other: Script)
      modifies this
      ensures other != this ==> View() == Apply(old(View()), Assign(old(other.bytes), old(other.valid)))
      ensures other == this ==> View() == EMPTY
    {
      Clear();
      bytes := other.bytes;
      valid := other.valid;
    }

    method FromData(source: Reader, prefix: bool) returns (ok: bool)
      requires source.Valid()
      modifies this, source
      ensures source.Valid() && ok == !source.failed
      ensures ok <==> !old(source.failed) && ReadScript(old(source.Rest()), prefix).Some?
      ensures ok ==> ReadScript(old(source.Rest()), prefix) == Some((bytes, source.Rest()))
      ensures View() == Apply(old(View()), Load(if ok then Some(bytes) else None))
    {
      hide VariableInteger.Read;
      Clear();
      valid := true;
      if prefix {
        var size := VariableInteger.ReadSize(source);
        if size > MAX_BLOCK_SIZE {
          source.Invalidate();
        } else {
          bytes := source.ReadBytes(size);
        }
      } else {
        bytes := source.ReadToEnd();
      }
      if source.failed {
        Clear();
      }
      ok := !source.failed;
    }

    method FromOperations(ops: seq<Operation>)
      modifies this
      ensures View() == Apply(old(View()), Store(ops))
    {
      bytes := OperationsToData(ops);
      operations := ops;
      cached := true;
      valid := true;
    }

    /** Parses on first use. */
    method ListOperations() returns (r: seq<Operation>)
      modifies this
      ensures View() == Apply(old(View()), List) && r == operations
    {
      if cached {
        return operations;
      }
      var parsed := ParseOperations(bytes);
      operations := operations + parsed;
      cached := true;
      return operations;
    }

    /** Deletes each endorsement in turn and drops the cache. */
    method FindAndDelete(endorsements: seq<seq<byte>>)
      modifies this
      ensures View() == Apply(old(View()), Delete(endorsements))
    {
      hide DeleteValue, Serialize, Push, Separated, Kept;
      var i := 0;
      while i < |endorsements|
        invariant 0 <= i <= |endorsements| && valid == old(valid)
        invariant bytes == DeleteAll(old(bytes), endorsements[..i])
      {
        assert endorsements[..i + 1][..i] == endorsements[..i];
        if endorsements[i] != [] {
          var value := Serialize(Push(endorsements[i]));
          var found := FindMatches(bytes, value);
          bytes := EraseMatches(bytes, found, value);
        }
        i := i + 1;
      }
      assert endorsements[..i] == endorsements;
      operations := [];
      cached := false;
    }
  }

  /** An operation that fails is kept and ends the list. */
  method ParseOperations(bytes: seq<byte>) returns (ops: seq<Operation>)
    ensures ops == Parse(bytes)
  {
    hide ParseOne, Parse;
    var source := new Reader(bytes);
    ops := [];
    assert bytes[0..] == bytes;
    while !source.IsExhausted()
      invariant source.Valid() && source.data == bytes && fresh(source)
      invariant source.failed ==> Parse(bytes) == ops
      invariant !source.failed ==> Parse(bytes) == ops + Parse(bytes[source.position..])
      decreases !source.failed, |bytes| - source.position
    {
      ghost var at := source.position;
      ParseStep(bytes, at);
      var op := Operations.FromData(source);
      ops := ops + [op];
    }
    if !source.failed {
      ParseNothing(bytes[source.position..]);
    }
  }

  lemma ParseNothing(bytes: seq<byte>)
    requires bytes == []
    ensures Parse(bytes) == []
  {
  }

  lemma ParseStep(bytes: seq<byte>, at: nat)
    requires at < |bytes|
    ensures match ParseOne(bytes[at..])
            case None => Parse(bytes[at..]) == [INVALID]
            case Some((op, n)) => Parse(bytes[at..]) == [op] + Parse(bytes[at + n..])
  {
    hide ParseOne;
    if ParseOne(bytes[at..]).Some? {
      var n := ParseOne(bytes[at..]).value.1;
      assert bytes[at..][n..] == bytes[at + n..];
    }
  }

  method OperationsToData(ops: seq<Operation>) returns (out: seq<byte>)
    ensures out == SerializeAll(ops)
  {
    hide Serialize;
    out := [];
    var i := 0;
    while i < |ops|
      invariant 0 <= i <= |ops| && out + SerializeAll(ops[i..]) == SerializeAll(ops)
    {
      out := out + Serialize(ops[i]);
      i := i + 1;
    }
  }
}
