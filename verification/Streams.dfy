/** Little-endian integers of a fixed number of bytes. */
module LittleEndian {
  import opened Words
  import opened Arithmetic

  /** The low `width` bytes of a value, least significant first. */
  function Encode(value: nat, width: nat): (r: seq<byte>)
    ensures |r| == width
  {
    if width == 0 then [] else [value % 256] + Encode(value / 256, width - 1)
  }

  function Decode(bytes: seq<byte>): (r: nat) {
    if bytes == [] then 0 else bytes[0] + 256 * Decode(bytes[1..])
  }

  /** Reading back what was written gives the value cut to the width. */
  lemma {:induction false} DecodeEncode(value: nat, width: nat)
    requires value < Pow(256, width)
    ensures Decode(Encode(value, width)) == value
  {
    if width > 0 {
      PowSucc(256, width - 1);
      DecodeEncode(value / 256, width - 1);
      assert Encode(value, width)[1..] == Encode(value / 256, width - 1);
    }
  }

  lemma {:induction false} DecodeBelow(bytes: seq<byte>)
    ensures Decode(bytes) < Pow(256, |bytes|)
  {
    if bytes != [] {
      PowSucc(256, |bytes| - 1);
      DecodeBelow(bytes[1..]);
    }
  }

  lemma {:induction false} EncodeDecode(bytes: seq<byte>)
    ensures Encode(Decode(bytes), |bytes|) == bytes
  {
    if bytes != [] {
      EncodeDecode(bytes[1..]);
      assert Decode(bytes) / 256 == Decode(bytes[1..]) && Decode(bytes) % 256 == bytes[0];
    }
  }

  /** Byte i stands for 256^i. */
  lemma {:induction false} EncodedByte(value: nat, width: nat, i: nat)
    requires i < width
    ensures Encode(value, width)[i] == value / Pow(256, i) % 256
  {
    if i > 0 {
      EncodedByte(value / 256, width - 1, i - 1);
      PowSucc(256, i - 1);
      DivDivBy256(value, Pow(256, i - 1));
    }
  }

  lemma DivDivBy256(x: nat, p: nat)
    requires p > 0
    ensures x / 256 / p == x / (256 * p)
  {
    var a, q := x / 256, x / 256 / p;
    WholePart(a, p);
    assert 256 * p * q <= x < 256 * p * q + 256 * p by {
      var pq := p * q;
      assert pq <= a < pq + p;
      assert 256 * p * q == 256 * pq;
    }
    DivUnique(x, 256 * p, q);
  }

  lemma Widths()
    ensures Pow(256, 1) == 0x100 && Pow(256, 2) == 0x1_0000
    ensures Pow(256, 4) == 0x1_0000_0000 && Pow(256, 8) == 0x1_0000_0000_0000_0000
  {
    PowSucc(256, 0);
    PowSucc(256, 1);
    PowSucc(256, 2);
    PowSucc(256, 3);
    PowSucc(256, 4);
    PowSucc(256, 5);
    PowSucc(256, 6);
    PowSucc(256, 7);
  }
}

/** The stream reader: a position in a byte string and a failure flag that never clears. */
module Streams {
  import opened Words
  import opened Arithmetic
  import LittleEndian

  class Reader {
    const data: seq<byte>
    var position: nat
    var failed: bool

    constructor (bytes: seq<byte>)
      ensures Valid() && !failed && position == 0 && data == bytes && Rest() == bytes
    {
      data, position, failed := bytes, 0, false;
    }

    predicate Valid()
      reads this
    {
      position <= |data|
    }

    ghost function Rest(): (r: seq<byte>)
      requires Valid()
      reads this
    {
      data[position..]
    }

    predicate IsExhausted()
      requires Valid()
      reads this
    {
      failed || position == |data|
    }

    method Invalidate()
      requires Valid()
      modifies this
      ensures Valid() && failed && position == old(position)
    {
      failed := true;
    }

    /** The next byte without moving; the end of the stream reads as 0xFF. */
    function PeekByte(): (r: byte)
      requires Valid()
      reads this
    {
      if IsExhausted() then 0xFF else data[position]
    }

    method ReadByte() returns (b: byte)
      requires Valid()
      modifies this
      ensures Valid() && (!failed <==> !old(failed) && 0 < |old(Rest())|)
      ensures !failed ==> b == old(Rest())[0] && position == old(position) + 1 && Rest() == old(Rest())[1..]
    {
      if failed || position == |data| {
        failed, b := true, 0xFF;
      } else {
        b := data[position];
        position := position + 1;
      }
    }

    /** Always returns the size asked for; a short read fails the stream. */
    method ReadBytes(size: nat) returns (out: seq<byte>)
      requires Valid()
      modifies this
      ensures Valid() && |out| == size && (!failed <==> !old(failed) && size <= |old(Rest())|)
      ensures !failed ==> out == old(Rest())[..size]
      ensures !failed ==> position == old(position) + size && Rest() == old(Rest())[size..]
    {
      if !failed && size <= |data| - position {
        out := data[position..position + size];
        position := position + size;
      } else {
        out := seq(size, _ => 0);
        failed := true;
      }
    }

    /** The bytes up to the end of the stream. */
    method ReadToEnd() returns (out: seq<byte>)
      requires Valid()
      modifies this
      ensures Valid() && failed == old(failed)
      ensures !failed ==> out == old(Rest()) && Rest() == []
    {
      out := [];
      while !IsExhausted()
        invariant Valid() && failed == old(failed)
        invariant old(position) <= position && (!failed ==> out == data[old(position)..position])
        decreases |data| - position
      {
        var b := ReadByte();
        out := out + [b];
      }
    }

    method Skip(size: nat)
      requires Valid()
      modifies this
      ensures Valid() && (!failed <==> !old(failed) && size <= |old(Rest())|)
      ensures !failed ==> position == old(position) + size && Rest() == old(Rest())[size..]
    {
      var _ := ReadBytes(size);
    }

    method ReadLittleEndian(width: nat) returns (value: nat)
      requires Valid()
      modifies this
      ensures value < Pow(256, width)
      ensures Valid() && (!failed <==> !old(failed) && width <= |old(Rest())|)
      ensures !failed ==> value == LittleEndian.Decode(old(Rest())[..width])
      ensures !failed ==> position == old(position) + width && Rest() == old(Rest())[width..]
    {
      var bytes := ReadBytes(width);
      LittleEndian.DecodeBelow(bytes);
      value := LittleEndian.Decode(bytes);
    }
  }
}

/** The stream writer. */
module Sinks {
  import opened Words

  class Writer {
    var data: seq<byte>

    constructor ()
      ensures data == []
    {
      data := [];
    }

    method WriteBytes(bytes: seq<byte>)
      modifies this
      ensures data == old(data) + bytes
    {
      data := data + bytes;
    }
  }
}

/** Sizes of one, three, five or nine bytes. */
module VariableInteger {
  import opened Words
  import opened Arithmetic
  import opened Streams
  import LittleEndian

  const TWO_BYTES: byte := 0xFD
  const FOUR_BYTES: byte := 0xFE
  const EIGHT_BYTES: byte := 0xFF

  function Write(value: uint64): (r: seq<byte>)
    ensures |r| == Size(value)
  {
    if value < TWO_BYTES then [value]
    else if value <= 0xFFFF then [TWO_BYTES] + LittleEndian.Encode(value, 2)
    else if value <= MAX_UINT32 then [FOUR_BYTES] + LittleEndian.Encode(value, 4)
    else [EIGHT_BYTES] + LittleEndian.Encode(value, 8)
  }

  function Size(value: uint64): (r: nat) {
    if value < 0xFD then 1
    else if value <= 0xFFFF then 3
    else if value <= 0xFFFF_FFFF then 5
    else 9
  }

  /** How many bytes follow the first one. */
  function Width(first: byte): (r: nat) {
    if first == EIGHT_BYTES then 8
    else if first == FOUR_BYTES then 4
    else if first == TWO_BYTES then 2
    else 0
  }

  /** The value and the bytes behind it. */
  function Read(bytes: seq<byte>): (r: Option<(uint64, seq<byte>)>)
    ensures r.Some? ==> |r.value.1| + Size(r.value.0) <= |bytes|
  {
    if bytes == [] then None else
    var w := Width(bytes[0]);
    if |bytes| < 1 + w then None
    else if w == 0 then Some((bytes[0], bytes[1..]))
    else
      LittleEndian.DecodeBelow(bytes[1..1 + w]);
      LittleEndian.Widths();
      Some((LittleEndian.Decode(bytes[1..1 + w]), bytes[1 + w..]))
  }

  lemma ReadWrite(value: uint64, rest: seq<byte>)
    ensures Read(Write(value) + rest) == Some((value, rest))
  {
    var bytes := Write(value) + rest;
    var w := Width(bytes[0]);
    assert bytes[1 + w..] == rest;
    if w > 0 {
      LittleEndian.Widths();
      LittleEndian.DecodeEncode(value, w);
      assert bytes[1..1 + w] == LittleEndian.Encode(value, w);
    }
  }

  /** One byte below 0xFD; else 0xFD, 0xFE or 0xFF and two, four or eight bytes, the low ones first. */
  lemma Layout(value: uint64, i: nat)
    requires i + 1 < |Write(value)|
    ensures Write(value)[0] == (if value <= 0xFFFF then 0xFD else if value <= 0xFFFF_FFFF then 0xFE else 0xFF)
    ensures Write(value)[i + 1] == value / Pow(256, i) % 256
    ensures |Write(value)| == if value <= 0xFFFF then 3 else if value <= 0xFFFF_FFFF then 5 else 9
  {
    hide LittleEndian.Encode;
    LittleEndian.EncodedByte(value, |Write(value)| - 1, i);
  }

  /** The first byte is the one the value calls for. */
  predicate Minimal(bytes: seq<byte>) {
    match Read(bytes)
    case None => false
    case Some((value, _)) =>
      match Width(bytes[0])
      case 0 => true
      case 2 => value >= 0xFD
      case 4 => value > 0xFFFF
      case _ => value > 0xFFFF_FFFF
  }

  /** Reading takes at least as many bytes as writing the value, and those bytes exactly when minimal. */
  lemma WriteRead(bytes: seq<byte>)
    requires Read(bytes).Some?
    ensures var (value, rest) := Read(bytes).value;
            && |bytes| >= Size(value) + |rest|
            && (Minimal(bytes) <==> |bytes| == Size(value) + |rest|)
            && (Minimal(bytes) ==> bytes == Write(value) + rest)
  {
    var (value, rest) := Read(bytes).value;
    var w := Width(bytes[0]);
    LittleEndian.Widths();
    LittleEndian.DecodeBelow(bytes[1..1 + w]);
    LittleEndian.EncodeDecode(bytes[1..1 + w]);
    assert bytes == [bytes[0]] + bytes[1..1 + w] + bytes[1 + w..];
  }

  method ReadSize(source: Reader) returns (value: uint64)
    requires source.Valid()
    modifies source
    ensures source.Valid() && (!source.failed <==> !old(source.failed) && Read(old(source.Rest())).Some?)
    ensures !source.failed ==> Read(old(source.Rest())) == Some((value, source.Rest()))
  {
    hide LittleEndian.Decode, Pow;
    LittleEndian.Widths();
    ghost var bytes := source.Rest();
    var first := source.ReadByte();
    if first == EIGHT_BYTES {
      value := source.ReadLittleEndian(8);
    } else if first == FOUR_BYTES {
      value := source.ReadLittleEndian(4);
    } else if first == TWO_BYTES {
      value := source.ReadLittleEndian(2);
    } else {
      value := first;
    }
    if bytes != [] && Width(bytes[0]) < |bytes| {
      ghost var w := Width(bytes[0]);
      assert bytes[1..][..w] == bytes[1..1 + w];
      assert bytes[1..][w..] == bytes[1 + w..];
    }
  }
}

/** Byte strings behind their size. */
module PrefixedBytes {
  import opened Words
  import opened Streams
  import VariableInteger

  type Bytes = b: seq<byte> | |b| <= MAX_UINT64

  function ReadBytes(size: nat, bytes: seq<byte>): (r: Option<(seq<byte>, seq<byte>)>) {
    if |bytes| < size then None else Some((bytes[..size], bytes[size..]))
  }

  /** A size within a limit, and that many bytes. */
  function ReadPrefixed(limit: uint64, bytes: seq<byte>): (r: Option<(Bytes, seq<byte>)>) {
    var (size, rest) :- VariableInteger.Read(bytes);
    if size > limit then None else ReadBytes(size, rest)
  }

  function WritePrefixed(data: Bytes): (r: seq<byte>) {
    VariableInteger.Write(|data|) + data
  }

  lemma PrefixedWritten(limit: uint64, data: Bytes, rest: seq<byte>)
    requires |data| <= limit
    ensures ReadPrefixed(limit, WritePrefixed(data) + rest) == Some((data, rest))
  {
    hide VariableInteger.Read, VariableInteger.Write;
    VariableInteger.ReadWrite(|data|, data + rest);
    assert WritePrefixed(data) + rest == VariableInteger.Write(|data|) + (data + rest);
  }

  method PrefixedFromData(source: Reader, limit: uint64) returns (data: Bytes)
    requires source.Valid()
    modifies source
    ensures source.Valid() && (!source.failed <==> !old(source.failed) && ReadPrefixed(limit, old(source.Rest())).Some?)
    ensures !source.failed ==> ReadPrefixed(limit, old(source.Rest())) == Some((data, source.Rest()))
  {
    hide VariableInteger.Read;
    var size := VariableInteger.ReadSize(source);
    if size > limit {
      source.Invalidate();
      return [];
    }
    data := source.ReadBytes(size);
  }
}
