/** SipHash-2-4 over bytes, as the reference definition and as the streaming and fast forms. */
module SipHash {
  type Byte = bv8
  type Word = bv64

  datatype V = V(v0: Word, v1: Word, v2: Word, v3: Word)

  function SipRound(v: V): (r: V) {
    var a0 := v.v0 + v.v1;
    var a1 := ((v.v1 << 13) | (v.v1 >> 51)) ^ a0;
    var b0 := (a0 << 32) | (a0 >> 32);
    var a2 := v.v2 + v.v3;
    var a3 := ((v.v3 << 16) | (v.v3 >> 48)) ^ a2;
    var c0 := b0 + a3;
    var c3 := ((a3 << 21) | (a3 >> 43)) ^ c0;
    var b2 := a2 + a1;
    var c1 := ((a1 << 17) | (a1 >> 47)) ^ b2;
    var c2 := (b2 << 32) | (b2 >> 32);
    V(c0, c1, c2, c3)
  }

  function Xor3(v: V, m: Word): (r: V) {
    v.(v3 := v.v3 ^ m)
  }

  function Xor0(v: V, m: Word): (r: V) {
    v.(v0 := v.v0 ^ m)
  }

  function XorFF(v: V): (r: V) {
    v.(v2 := v.v2 ^ 0xFF)
  }

  function Fold(v: V): (r: Word) {
    v.v0 ^ v.v1 ^ v.v2 ^ v.v3
  }

  function Or(a: Word, b: Word): (r: Word) {
    a | b
  }

  /** Two rounds around one message word. */
  function Compress(v: V, m: Word): (r: V) {
    Xor0(SipRound(SipRound(Xor3(v, m))), m)
  }

  function Initial(k0: Word, k1: Word): (r: V) {
    V(0x736f6d6570736575 ^ k0, 0x646f72616e646f6d ^ k1, 0x6c7967656e657261 ^ k0, 0x7465646279746573 ^ k1)
  }

  /** The last word, then four rounds. */
  function Finish(v: V, last: Word): (r: Word) {
    Fold(SipRound(SipRound(SipRound(SipRound(XorFF(Compress(v, last)))))))
  }

  /** A byte moved to a place in a little-endian word. */
  function Place(b: Byte, i: nat): (r: Word)
    requires i < 8
  {
    match i
    case 0 => b as Word
    case 1 => (b as Word) << 8
    case 2 => (b as Word) << 16
    case 3 => (b as Word) << 24
    case 4 => (b as Word) << 32
    case 5 => (b as Word) << 40
    case 6 => (b as Word) << 48
    case 7 => (b as Word) << 56
  }

  /** Up to eight bytes as a little-endian word. */
  function WordOf(bytes: seq<Byte>): (r: Word)
    requires |bytes| <= 8
  {
    if bytes == [] then 0 else Or(WordOf(bytes[..|bytes| - 1]), Place(bytes[|bytes| - 1], |bytes| - 1))
  }

  // The reference.

  /** All whole words of a message, compressed in order. */
  function Absorb(v: V, message: seq<Byte>): (r: V)
    decreases |message|
  {
    if |message| < 8 then v else Absorb(Compress(v, WordOf(message[..8])), message[8..])
  }

  /** The bytes behind the last whole word. */
  function Tail(message: seq<Byte>): (r: seq<Byte>)
    ensures |r| == |message| % 8
  {
    if |message| < 8 then message else Tail(message[8..])
  }

  function LengthByte(n: nat): (r: Word) {
    Place((n % 256) as Byte, 7)
  }

  function Digest(k0: Word, k1: Word, message: seq<Byte>): (r: Word) {
    Finish(Absorb(Initial(k0, k1), message), Or(WordOf(Tail(message)), LengthByte(|message|)))
  }

  // One more byte, or one more word.

  lemma {:induction false} OneMoreByte(v: V, message: seq<Byte>, b: Byte)
    ensures |message| % 8 != 7
      ==> Absorb(v, message + [b]) == Absorb(v, message) && Tail(message + [b]) == Tail(message) + [b]
    ensures |message| % 8 == 7
      ==> Absorb(v, message + [b]) == Compress(Absorb(v, message), WordOf(Tail(message) + [b]))
          && Tail(message + [b]) == []
    decreases |message|
  {
    hide Compress, WordOf;
    if |message| >= 8 {
      OneMoreByte(Compress(v, WordOf(message[..8])), message[8..], b);
      assert (message + [b])[..8] == message[..8] && (message + [b])[8..] == message[8..] + [b];
    } else if |message| == 7 {
      assert (message + [b])[..8] == message + [b] && (message + [b])[8..] == [];
    }
  }

  lemma {:induction false} OneMoreWord(v: V, message: seq<Byte>, word: seq<Byte>)
    requires |message| % 8 == 0 && |word| == 8
    ensures Absorb(v, message + word) == Compress(Absorb(v, message), WordOf(word)) && Tail(message + word) == []
    decreases |message|
  {
    hide Compress, WordOf;
    if |message| >= 8 {
      OneMoreWord(Compress(v, WordOf(message[..8])), message[8..], word);
      assert (message + word)[..8] == message[..8] && (message + word)[8..] == message[8..] + word;
    } else {
      assert message + word == word && word[..8] == word && word[8..] == [];
    }
  }

  // Words as bytes.

  function ByteOf(w: Word, i: nat): (r: Byte)
    requires i < 8
  {
    match i
    case 0 => (w & 0xFF) as Byte
    case 1 => ((w >> 8) & 0xFF) as Byte
    case 2 => ((w >> 16) & 0xFF) as Byte
    case 3 => ((w >> 24) & 0xFF) as Byte
    case 4 => ((w >> 32) & 0xFF) as Byte
    case 5 => ((w >> 40) & 0xFF) as Byte
    case 6 => ((w >> 48) & 0xFF) as Byte
    case 7 => ((w >> 56) & 0xFF) as Byte
  }

  function BytesOf(w: Word): (r: seq<Byte>)
    ensures |r| == 8
  {
    [ByteOf(w, 0), ByteOf(w, 1), ByteOf(w, 2), ByteOf(w, 3), ByteOf(w, 4), ByteOf(w, 5), ByteOf(w, 6), ByteOf(w, 7)]
  }

  lemma BytesJoin(w: Word)
    ensures Place(ByteOf(w, 0), 0) | Place(ByteOf(w, 1), 1) | Place(ByteOf(w, 2), 2) | Place(ByteOf(w, 3), 3)
          | Place(ByteOf(w, 4), 4) | Place(ByteOf(w, 5), 5) | Place(ByteOf(w, 6), 6) | Place(ByteOf(w, 7), 7) == w
  {
  }

  lemma WordOfBytes(w: Word)
    ensures WordOf(BytesOf(w)) == w
  {
    hide WordOf, Place, ByteOf;
    EightBytes(BytesOf(w));
    BytesJoin(w);
  }

  lemma {:induction false} EightBytes(b: seq<Byte>)
    requires |b| == 8
    ensures WordOf(b) == Place(b[0], 0) | Place(b[1], 1) | Place(b[2], 2) | Place(b[3], 3)
                       | Place(b[4], 4) | Place(b[5], 5) | Place(b[6], 6) | Place(b[7], 7)
  {
    hide Place, WordOf;
    FourBytes(b[..4]);
    LastByte(b, 5);
    LastByte(b, 6);
    LastByte(b, 7);
    LastByte(b, 8);
    assert b[..8] == b;
  }

  lemma LastByte(b: seq<Byte>, n: nat)
    requires 1 <= n <= |b| && n <= 8
    ensures WordOf(b[..n]) == Or(WordOf(b[..n - 1]), Place(b[n - 1], n - 1))
  {
    hide Place, Or;
    assert b[..n][..n - 1] == b[..n - 1];
  }

  lemma {:induction false} FourBytes(b: seq<Byte>)
    requires |b| == 4
    ensures WordOf(b) == Place(b[0], 0) | Place(b[1], 1) | Place(b[2], 2) | Place(b[3], 3)
  {
    hide Place, WordOf;
    NoBytes();
    LastByte(b, 1);
    LastByte(b, 2);
    LastByte(b, 3);
    LastByte(b, 4);
    assert b[..4] == b && b[..0] == [];
    OrZero(Place(b[0], 0));
  }

  lemma NoBytes()
    ensures WordOf([]) == 0
  {
  }

  lemma OrZero(w: Word)
    ensures 0 | w == w
  {
  }

  const MAX_COUNT: int := 0x7FFF_FFFF

  /** What a hasher has made of the bytes written so far. */
  ghost predicate Holds(k0: Word, k1: Word, v: V, tmp: Word, count: int, written: seq<Byte>) {
    && count == |written| <= MAX_COUNT
    && v == Absorb(Initial(k0, k1), written) && tmp == WordOf(Tail(written))
  }

  lemma ByteStep(k0: Word, k1: Word, v: V, tmp: Word, count: int, written: seq<Byte>, b: Byte)
    requires Holds(k0, k1, v, tmp, count, written) && count < MAX_COUNT
    ensures var t := Or(tmp, Place(b, count % 8));
            if (count + 1) % 8 == 0 then Holds(k0, k1, Compress(v, t), 0, count + 1, written + [b])
            else Holds(k0, k1, v, t, count + 1, written + [b])
  {
    hide Compress, WordOf, Absorb, Tail, Initial, Place, Or;
    OneMoreByte(Initial(k0, k1), written, b);
    OrByte(Tail(written), b);
    NoBytes();
  }

  /** The streaming hasher. The ghost field is everything written so far. */
  class SipHasher {
    const k0: Word
    const k1: Word
    var v: V
    var tmp: Word
    var count: int
    ghost var written: seq<Byte>

    ghost predicate Valid()
      reads this
    {
      Holds(k0, k1, v, tmp, count, written)
    }

    constructor (key0: Word, key1: Word)
      ensures Valid() && k0 == key0 && k1 == key1 && written == []
    {
      hide Initial;
      k0, k1 := key0, key1;
      v, tmp, count, written := Initial(key0, key1), 0, 0, [];
    }

    /** A whole word, when no bytes are pending. */
    method WriteWord(data: Word)
      requires Valid() && count % 8 == 0 && count + 8 <= MAX_COUNT
      modifies this
      ensures Valid() && written == old(written) + BytesOf(data)
    {
      hide Compress, WordOf, BytesOf, Absorb, Tail, Initial;
      OneMoreWord(Initial(k0, k1), written, BytesOf(data));
      WordOfBytes(data);
      NoBytes();
      NoTail(written);
      v := Compress(v, data);
      count := count + 8;
      written := written + BytesOf(data);
    }

    /** Byte by byte; a word is compressed as soon as it is full. */
    method Write(data: seq<Byte>)
      requires Valid() && count + |data| <= MAX_COUNT
      modifies this
      ensures Valid() && written == old(written) + data
    {
      hide Compress, Place, Or, Holds;
      CountRange(k0, k1, v, tmp, count, written);
      var u, t, c := v, tmp, count;
      var i := 0;
      assert written + data[..0] == written;
      while i < |data|
        invariant written == old(written) && count == old(count)
        invariant 0 <= i <= |data| && c == count + i && Holds(k0, k1, u, t, c, written + data[..i])
      {
        ByteStep(k0, k1, u, t, c, written + data[..i], data[i]);
        assert written + data[..i] + [data[i]] == written + data[..i + 1];
        t := Or(t, Place(data[i], c % 8));
        c := c + 1;
        if c % 8 == 0 {
          u := Compress(u, t);
          t := 0;
        }
        i := i + 1;
      }
      assert data[..i] == data;
      v, count, tmp := u, c, t;
      written := written + data;
    }

    /** The digest depends on the key and on the bytes written, however they were split. */
    method Finalize() returns (digest: Word)
      requires Valid()
      ensures digest == Digest(k0, k1, written)
    {
      hide Finish, WordOf, Absorb, Tail, Initial, LengthByte, Or;
      digest := Finish(v, Or(tmp, LengthByte(count)));
    }
  }

  lemma CountRange(k0: Word, k1: Word, v: V, tmp: Word, count: int, written: seq<Byte>)
    requires Holds(k0, k1, v, tmp, count, written)
    ensures 0 <= count <= MAX_COUNT
  {
  }

  lemma NoTail(message: seq<Byte>)
    requires |message| % 8 == 0
    ensures Tail(message) == []
  {
    hide Tail;
  }

  lemma OrByte(bytes: seq<Byte>, b: Byte)
    requires |bytes| < 8
    ensures WordOf(bytes + [b]) == Or(WordOf(bytes), Place(b, |bytes|))
  {
    hide Place, Or;
    assert (bytes + [b])[..|bytes|] == bytes;
  }

  // The fast forms.

  function GetUint64(value: seq<Byte>, i: nat): (r: Word)
    requires |value| == 32 && i < 4
  {
    Place(value[8 * i], 0) | Place(value[8 * i + 1], 1) | Place(value[8 * i + 2], 2) | Place(value[8 * i + 3], 3)
    | Place(value[8 * i + 4], 4) | Place(value[8 * i + 5], 5) | Place(value[8 * i + 6], 6) | Place(value[8 * i + 7], 7)
  }

  lemma GetUint64IsWord(value: seq<Byte>, i: nat)
    requires |value| == 32 && i < 4
    ensures GetUint64(value, i) == WordOf(value[8 * i..8 * i + 8])
  {
    hide Place, WordOf;
    EightBytes(value[8 * i..8 * i + 8]);
  }

  /** The first words of a 32-byte value, compressed in order. */
  function CompressWords(v: V, value: seq<Byte>, n: nat): (r: V)
    requires |value| == 32 && n <= 4
    decreases n
  {
    if n == 0 then v else Compress(CompressWords(v, value, n - 1), GetUint64(value, n - 1))
  }

  /** Four words, then the rest. */
  lemma {:induction false} AbsorbFour(v: V, value: seq<Byte>, rest: seq<Byte>)
    requires |value| == 32 && |rest| < 8
    ensures Absorb(v, value + rest) == CompressWords(v, value, 4)
    ensures Tail(value + rest) == rest
  {
    hide Compress, WordOf, GetUint64;
    var m := value + rest;
    AbsorbOne(CompressWords(v, value, 0), value, rest, 0);
    AbsorbOne(CompressWords(v, value, 1), value, rest, 1);
    AbsorbOne(CompressWords(v, value, 2), value, rest, 2);
    AbsorbOne(CompressWords(v, value, 3), value, rest, 3);
    assert m[0..] == m && m[32..] == rest;
  }

  lemma AbsorbOne(v: V, value: seq<Byte>, rest: seq<Byte>, i: nat)
    requires |value| == 32 && i < 4
    ensures var m := value + rest;
            && Absorb(v, m[8 * i..]) == Absorb(Compress(v, GetUint64(value, i)), m[8 * i + 8..])
            && Tail(m[8 * i..]) == Tail(m[8 * i + 8..])
  {
    hide Compress, WordOf, GetUint64;
    GetUint64IsWord(value, i);
    var m := value + rest;
    assert m[8 * i..][..8] == value[8 * i..8 * i + 8] && m[8 * i..][8..] == m[8 * i + 8..];
  }

  method SipHashUint256(k0: Word, k1: Word, value: seq<Byte>) returns (digest: Word)
    requires |value| == 32
    ensures digest == Digest(k0, k1, value)
  {
    hide SipRound, Xor0, Xor3, XorFF, Fold, Or, Initial, WordOf, Absorb, Tail, GetUint64, LengthByte;
    var d := GetUint64(value, 0);
    var v := Xor3(Initial(k0, k1), d);
    v := Xor0(SipRound(SipRound(v)), d);
    d := GetUint64(value, 1);
    v := Xor0(SipRound(SipRound(Xor3(v, d))), d);
    d := GetUint64(value, 2);
    v := Xor0(SipRound(SipRound(Xor3(v, d))), d);
    d := GetUint64(value, 3);
    v := Xor0(SipRound(SipRound(Xor3(v, d))), d);
    AbsorbFour(Initial(k0, k1), value, []);
    assert value + [] == value;
    LengthOf32();
    v := Xor0(SipRound(SipRound(Xor3(v, 4 << 59))), 4 << 59);
    v := SipRound(SipRound(SipRound(SipRound(XorFF(v)))));
    digest := Fold(v);
  }

  lemma LengthOf32()
    ensures Or(WordOf([]), LengthByte(32)) == 4 << 59
  {
  }

  /** A 32-bit number as four little-endian bytes. */
  function ExtraBytes(extra: bv32): (r: seq<Byte>) {
    BytesOf(extra as Word)[..4]
  }

  method SipHashUint256Extra(k0: Word, k1: Word, value: seq<Byte>, extra: bv32) returns (digest: Word)
    requires |value| == 32
    ensures digest == Digest(k0, k1, value + ExtraBytes(extra))
  {
    hide SipRound, Xor0, Xor3, XorFF, Fold, Or, Initial, WordOf, Absorb, Tail, GetUint64, LengthByte, ExtraBytes;
    var d := GetUint64(value, 0);
    var v := Xor3(Initial(k0, k1), d);
    v := Xor0(SipRound(SipRound(v)), d);
    d := GetUint64(value, 1);
    v := Xor0(SipRound(SipRound(Xor3(v, d))), d);
    d := GetUint64(value, 2);
    v := Xor0(SipRound(SipRound(Xor3(v, d))), d);
    d := GetUint64(value, 3);
    v := Xor0(SipRound(SipRound(Xor3(v, d))), d);
    ExtraWord(extra);
    AbsorbFour(Initial(k0, k1), value, ExtraBytes(extra));
    d := Or(36 << 56, extra as Word);
    v := Xor0(SipRound(SipRound(Xor3(v, d))), d);
    v := SipRound(SipRound(SipRound(SipRound(XorFF(v)))));
    digest := Fold(v);
  }

  lemma ExtraWord(extra: bv32)
    ensures |ExtraBytes(extra)| == 4
    ensures Or(WordOf(ExtraBytes(extra)), LengthByte(36)) == Or(36 << 56, extra as Word)
  {
    FourBytes(ExtraBytes(extra));
    hide WordOf;
    ExtraJoin(extra);
  }

  lemma ExtraJoin(extra: bv32)
    ensures var w := extra as Word;
            (Place(ByteOf(w, 0), 0) | Place(ByteOf(w, 1), 1) | Place(ByteOf(w, 2), 2) | Place(ByteOf(w, 3), 3))
            | LengthByte(36) == (36 << 56) | w
  {
  }

  // The published test vector of the SipHash paper, Appendix A.

  lemma VectorRounds()
    ensures Finish(Compress(Initial(0x0706050403020100, 0x0f0e0d0c0b0a0908), 0x0706050403020100), 0x0f0e0d0c0b0a0908)
         == 0xa129ca6149be45e5
  {
  }

  lemma VectorTail()
    ensures Or(WordOf([8, 9, 10, 11, 12, 13, 14]), LengthByte(15)) == 0x0f0e0d0c0b0a0908
  {
    hide WordOf, Or;
    var high: seq<Byte> := [8, 9, 10, 11, 12, 13, 14, 15];
    EightBytes(high);
    LastByte(high, 8);
    assert high[..7] == [8, 9, 10, 11, 12, 13, 14] && high[..8] == high;
  }

  /** The key bytes 00 to 0f and the message bytes 00 to 0e give a129ca6149be45e5. */
  lemma PublishedVector()
    ensures Digest(0x0706050403020100, 0x0f0e0d0c0b0a0908, [0, 1, 2, 3, 4, 5, 6, 7, 8, 9, 10, 11, 12, 13, 14])
         == 0xa129ca6149be45e5
  {
    var message: seq<Byte> := [0, 1, 2, 3, 4, 5, 6, 7, 8, 9, 10, 11, 12, 13, 14];
    EightBytes([0, 1, 2, 3, 4, 5, 6, 7]);
    VectorTail();
    VectorRounds();
    hide Finish, Compress, WordOf, Initial, LengthByte, Or;
    assert message[..8] == [0, 1, 2, 3, 4, 5, 6, 7] && message[8..] == [8, 9, 10, 11, 12, 13, 14];
    assert Tail(message) == message[8..];
  }
}
