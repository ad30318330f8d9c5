/** Base58: radix conversion between byte strings and text, in place in fixed-size buffers. */
module Base58 {
  import opened Words
  import opened Arithmetic
  import LittleEndian

  const DIGITS: string := "123456789"
  const UPPER: string := "ABCDEFGH" + "JKLMN" + "PQRSTUVWXYZ"
  const LOWER: string := "abcdefghijk" + "mnopqrstuvwxyz"
  const ALPHABET: string := DIGITS + UPPER + LOWER

  // ---- positional notation, most significant digit first

  ghost predicate Digital(base: nat, d: seq<byte>) {
    forall i :: 0 <= i < |d| ==> d[i] < base
  }

  function Value(base: nat, d: seq<byte>): (r: nat) {
    if d == [] then 0 else Value(base, d[..|d| - 1]) * base + d[|d| - 1]
  }

  /** The shortest digits of a number; none for zero. */
  function Digits(base: nat, n: nat): (d: seq<byte>)
    requires 2 <= base <= 256
    decreases n
  {
    if n == 0 then [] else Digits(base, n / base) + [n % base]
  }

  function LeadingZeros(d: seq<byte>): (z: nat)
    ensures z <= |d|
    ensures forall i :: 0 <= i < z ==> d[i] == 0
    ensures z < |d| ==> d[z] != 0
  {
    if d != [] && d[0] == 0 then 1 + LeadingZeros(d[1..]) else 0
  }

  function Zeros(n: nat): (r: seq<byte>)
    ensures |r| == n && forall i :: 0 <= i < n ==> r[i] == 0
  {
    seq(n, i => 0)
  }

  /** The value of the digits after the leading zeros, in another base, with as many zeros
      in front. */
  function Convert(source: nat, target: nat, d: seq<byte>): (r: seq<byte>)
    requires 2 <= target <= 256
  {
    var z := LeadingZeros(d);
    Zeros(z) + Digits(target, Value(source, d[z..]))
  }

  lemma {:induction false} ValueAppend(base: nat, d: seq<byte>, last: byte)
    ensures Value(base, d + [last]) == Value(base, d) * base + last
  {
    assert (d + [last])[..|d|] == d;
  }

  lemma {:induction false} DigitsValid(base: nat, n: nat)
    requires 2 <= base <= 256
    ensures Digital(base, Digits(base, n)) && Value(base, Digits(base, n)) == n
    ensures n > 0 ==> Digits(base, n) != [] && Digits(base, n)[0] != 0
    decreases n
  {
    if n > 0 {
      hide Value;
      DivModFacts(n, base);
      var q, r := n / base, n % base;
      DigitsValid(base, q);
      ValueAppend(base, Digits(base, q), r);
    }
  }

  lemma {:induction false} ValuePositive(base: nat, d: seq<byte>)
    requires base > 0 && d != [] && d[0] != 0
    ensures Value(base, d) > 0
  {
    if |d| > 1 {
      ValuePositive(base, d[..|d| - 1]);
      MulAtLeast(Value(base, d[..|d| - 1]), base);
    }
  }

  lemma {:induction false} DigitsOfValue(base: nat, d: seq<byte>)
    requires 2 <= base <= 256 && Digital(base, d) && (d != [] ==> d[0] != 0)
    ensures Digits(base, Value(base, d)) == d
  {
    if d != [] {
      var front, last := d[..|d| - 1], d[|d| - 1];
      DigitsOfValue(base, front);
      ValuePositive(base, d);
      DivModUnique(Value(base, d), base, Value(base, front), last);
      assert d == front + [last];
      hide Value;
    }
  }

  lemma {:induction false} LeadingZerosOf(z: nat, d: seq<byte>)
    requires d != [] ==> d[0] != 0
    ensures LeadingZeros(Zeros(z) + d) == z && (Zeros(z) + d)[z..] == d
  {
    var s := Zeros(z) + d;
    assert forall i :: 0 <= i < z ==> s[i] == 0;
    assert d != [] ==> s[z] == d[0];
    hide LeadingZeros;
  }

  /** Converting to another base and back is the identity, whatever the two bases. */
  lemma {:induction false} ConvertBack(source: nat, target: nat, d: seq<byte>)
    requires 2 <= source <= 256 && 2 <= target <= 256 && Digital(source, d)
    ensures Digital(target, Convert(source, target, d))
    ensures LeadingZeros(Convert(source, target, d)) == LeadingZeros(d)
    ensures Convert(target, source, Convert(source, target, d)) == d
  {
    hide Value, Digits, LeadingZeros;
    var z := LeadingZeros(d);
    var n := Value(source, d[z..]);
    DigitsValid(target, n);
    assert n == 0 ==> Digits(target, n) == [] by { DigitsOfZero(target); }
    LeadingZerosOf(z, Digits(target, n));
    DigitsOfValue(source, d[z..]);
    assert d == Zeros(z) + d[z..];
  }

  lemma DigitsOfZero(base: nat)
    requires 2 <= base <= 256
    ensures Digits(base, 0) == []
  {
  }

  // ---- characters

  /** The position of a character, found by a search from the left. */
  function IndexOf(alphabet: string, ch: char): (r: Option<nat>)
    ensures r.Some? ==> r.value < |alphabet| && alphabet[r.value] == ch
    ensures r.None? <==> ch !in alphabet
  {
    if alphabet == [] then None
    else if alphabet[0] == ch then Some(0)
    else match IndexOf(alphabet[1..], ch) case None => None case Some(i) => Some(i + 1)
  }

  ghost predicate Alphabet(a: string) {
    |a| == 58 && forall i, j :: 0 <= i < j < 58 ==> a[i] != a[j]
  }

  ghost predicate Written(a: string, text: string) {
    forall i :: 0 <= i < |text| ==> text[i] in a
  }

  function CharsOf(a: string, d: seq<byte>): (text: string)
    requires forall i :: 0 <= i < |d| ==> d[i] < |a|
    ensures |text| == |d| && forall i :: 0 <= i < |d| ==> text[i] == a[d[i]]
  {
    seq(|d|, i requires 0 <= i < |d| => a[d[i]])
  }

  function IndexesOf(a: string, text: string): (d: seq<byte>)
    requires |a| == 58 && Written(a, text)
    ensures |d| == |text| && forall i :: 0 <= i < |d| ==> d[i] < 58 && a[d[i]] == text[i]
  {
    seq(|text|, i requires 0 <= i < |text| => IndexOf(a, text[i]).value)
  }

  lemma IndexesOfChars(a: string, d: seq<byte>)
    requires Alphabet(a) && Digital(58, d)
    ensures Written(a, CharsOf(a, d)) && IndexesOf(a, CharsOf(a, d)) == d
  {
    var e := IndexesOf(a, CharsOf(a, d));
    forall i | 0 <= i < |d| ensures e[i] == d[i] {
      assert a[e[i]] == a[d[i]];
    }
  }

  /** The code of the character at a position of the alphabet. */
  function CodeAt(i: nat): (r: int) {
    if i < 9 then 49 + i else if i < 17 then 56 + i else if i < 22 then 57 + i
    else if i < 33 then 58 + i else if i < 44 then 64 + i else 65 + i
  }

  lemma AlphabetCodes()
    ensures |ALPHABET| == 58
    ensures forall i :: 0 <= i < 58 ==> ALPHABET[i] as int == CodeAt(i)
  {
    assert forall i :: 0 <= i < 9 ==> DIGITS[i] as int == 49 + i;
    var (h, n, z, k, last) := ("ABCDEFGH", "JKLMN", "PQRSTUVWXYZ", "abcdefghijk", "mnopqrstuvwxyz");
    assert forall i :: 0 <= i < 8 ==> h[i] as int == 65 + i;
    assert forall i :: 0 <= i < 5 ==> n[i] as int == 74 + i;
    assert forall i :: 0 <= i < 11 ==> z[i] as int == 80 + i;
    assert forall i :: 0 <= i < 11 ==> k[i] as int == 97 + i;
    assert forall i :: 0 <= i < 14 ==> last[i] as int == 109 + i;
  }

  lemma AlphabetValid()
    ensures Alphabet(ALPHABET) && ALPHABET[0] == '1'
  {
    AlphabetCodes();
    var a := ALPHABET;
    forall i, j | 0 <= i < j < 58 ensures a[i] != a[j] {
      assert a[i] as int == CodeAt(i) && a[j] as int == CodeAt(j);
    }
  }

  // ---- buffer sizes

  /** A bound on one power carries over to every length in proportion. */
  lemma {:induction false} RatioBound(a: nat, b: nat, q: nat, p: nat, n: nat, k: nat)
    requires b > 0 && q > 0 && Pow(a, q) <= Pow(b, p) && p * n <= q * k
    ensures Pow(a, n) <= Pow(b, k)
  {
    hide Pow;
    PowMul(a, n, q);
    PowMul(a, q, n);
    PowMul(b, p, n);
    PowMul(b, k, q);
    assert n * q == q * n && k * q == q * k;
    PowBaseMonotone(Pow(a, q), Pow(b, p), n);
    PowMonotone(b, p * n, k * q);
    if Pow(a, n) > Pow(b, k) {
      PowBaseStrict(Pow(b, k), Pow(a, n), q);
    }
  }

  lemma {:induction false} PowSteps(a: nat, b: nat, m: nat, l: nat, times: nat, m': nat, l': nat)
    requires Pow(a, m) <= Pow(b, l) && Pow(a, m') <= Pow(b, l')
    ensures Pow(a, m * times + m') <= Pow(b, l * times + l')
  {
    hide Pow;
    PowMul(a, m, times);
    PowMul(b, l, times);
    PowBaseMonotone(Pow(a, m), Pow(b, l), times);
    PowAdd(a, m * times, m');
    PowAdd(b, l * times, l');
    MulMono(Pow(a, m * times), Pow(b, l * times), Pow(a, m'), Pow(b, l'));
  }

  lemma Pow58_8()
    ensures Pow(58, 8) == 128063081718016
  {
    assert Pow(58, 4) == 11316496;
    PowAdd(58, 4, 4);
  }

  lemma BytesIn58()
    ensures Pow(256, 100) <= Pow(58, 138)
  {
    Pow58_8();
    LittleEndian.Widths();
    assert Pow(58, 3) == 195112;
    PowAdd(58, 8, 3);
    assert Pow(256, 4) == 0x1_0000_0000;
    assert Pow(58, 6) == 38068692544 by { PowAdd(58, 3, 3); }
    hide Pow;
    PowSteps(256, 58, 8, 11, 12, 4, 6);
  }

  lemma Pow58_71()
    ensures Pow(58, 71) <= Pow(256, 52)
  {
    Pow58_8();
    LittleEndian.Widths();
    Pow256_32();
    assert Pow(58, 7) == 2207984167552 by { assert Pow(58, 4) == 11316496 && Pow(58, 3) == 195112; PowAdd(58, 4, 3); }
    assert Pow(256, 4) == 0x1_0000_0000;
    hide Pow;
    PowAdd(58, 8, 8);
    PowAdd(58, 16, 16);
    PowAdd(58, 32, 32);
    PowAdd(58, 64, 7);
    PowAdd(256, 8, 8);
    PowAdd(256, 32, 16);
    PowAdd(256, 48, 4);
  }

  /** 58^1000 <= 256^733, from 58^71 <= 256^52 and 58^6 <= 256^5. */
  lemma CharsIn256()
    ensures Pow(58, 1000) <= Pow(256, 733)
  {
    Pow58_71();
    assert Pow(58, 6) <= Pow(256, 5) by {
      assert Pow(58, 3) == 195112 && Pow(256, 2) == 0x1_0000 && Pow(256, 3) == 0x100_0000;
      PowAdd(58, 3, 3);
      PowAdd(256, 2, 3);
    }
    hide Pow;
    PowSteps(58, 256, 71, 52, 14, 6, 5);
  }

  /** The buffer of n*138/100+1 base58 digits always holds n bytes. */
  lemma EncodeSize(n: nat)
    ensures Pow(256, n) <= Pow(58, n * 138 / 100 + 1)
  {
    hide Pow;
    BytesIn58();
    RatioBound(256, 58, 100, 138, n, n * 138 / 100 + 1);
  }

  /** The buffer of n*733/1000+1 bytes always holds n base58 digits. */
  lemma DecodeSize(n: nat)
    ensures Pow(58, n) <= Pow(256, n * 733 / 1000 + 1)
  {
    hide Pow;
    CharsIn256();
    RatioBound(58, 256, 1000, 733, n, n * 733 / 1000 + 1);
  }

  lemma {:induction false} ValueBound(base: nat, d: seq<byte>)
    requires base > 0 && Digital(base, d)
    ensures Value(base, d) < Pow(base, |d|)
  {
    if d != [] {
      var front := d[..|d| - 1];
      ValueBound(base, front);
      MulMono(Value(base, front) + 1, Pow(base, |d| - 1), base, base);
      assert (Value(base, front) + 1) * base == Value(base, front) * base + base;
    }
  }

  lemma {:induction false} ValuePrepend(base: nat, first: byte, d: seq<byte>)
    ensures Value(base, [first] + d) == first * Pow(base, |d|) + Value(base, d)
  {
    if d == [] {
      assert [first] + d == [first] && [first][..0] == [];
    } else {
      var front, last := d[..|d| - 1], d[|d| - 1];
      ValuePrepend(base, first, front);
      assert [first] + d == [first] + front + [last];
      ValueAppend(base, [first] + front, last);
      assert Pow(base, |d|) == Pow(base, |d| - 1) * base;
      MulAssoc(first, Pow(base, |d| - 1), base);
      Distribute(first * Pow(base, |d| - 1), Value(base, front), base);
      hide Value, Pow;
    }
  }

  lemma Distribute(a: int, b: int, c: int)
    ensures (a + b) * c == a * c + b * c
  {
  }

  // ---- the in-place loops

  /** A total as a carry and a digit of the base. */
  function Split(total: nat, base: nat): (r: (nat, byte))
    requires 2 <= base <= 256
    ensures r.0 * base + r.1 == total && r.1 < base
  {
    DivModFacts(total, base);
    (total / base, total % base)
  }

  /** The shared step of encoding and decoding: from the low end, digits := digits * factor +
      carry in the buffer's base; what does not fit is left in the final carry. */
  method MultiplyAdd(buffer: array<byte>, base: nat, factor: nat, carry: nat) returns (rest: nat)
    requires 2 <= base <= 256 && Digital(base, buffer[..])
    modifies buffer
    ensures Digital(base, buffer[..])
    ensures Value(base, buffer[..]) + rest * Pow(base, buffer.Length)
         == Value(base, old(buffer[..])) * factor + carry
  {
    hide Value, Pow, Split;
    ghost var start := buffer[..];
    var i := buffer.Length;
    rest := carry;
    EmptyValue(base);
    assert buffer[i..] == [] && start[i..] == [];
    while i > 0
      invariant 0 <= i <= buffer.Length
      invariant buffer[..i] == start[..i] && Digital(base, buffer[..])
      invariant Value(base, buffer[i..]) + rest * Pow(base, buffer.Length - i)
             == Value(base, start[i..]) * factor + carry
    {
      ghost var done, was := buffer[i..], start[i..];
      i := i - 1;
      var total := rest + factor * buffer[i];
      var (q, r) := Split(total, base);
      assert buffer[i] == start[i];
      CarryStep(base, factor, carry, rest, start[i], q, r, done, was);
      buffer[i] := r;
      rest := q;
      assert buffer[i..] == [r] + done;
      assert start[i..] == [start[i]] + was;
    }
    assert buffer[0..] == buffer[..] && start[0..] == start;
  }

  lemma EmptyValue(base: nat)
    ensures Value(base, []) == 0 && Pow(base, 0) == 1
  {
  }

  lemma CarryAlgebra(p: int, base: int, q: int, r: int, rest: int, factor: int, digit: int)
    requires q * base + r == rest + factor * digit
    ensures r * p + q * (base * p) == rest * p + digit * p * factor
  {
    assert q * (base * p) == q * base * p;
    Distribute(q * base, r, p);
    Distribute(rest, factor * digit, p);
    assert factor * digit * p == digit * p * factor;
  }

  lemma CarryValues(p: int, base: int, q: int, r: int, rest: int, factor: int, digit: int,
                    done: int, was: int, carry: int)
    requires q * base + r == rest + factor * digit && done + rest * p == was * factor + carry
    ensures r * p + done + q * (base * p) == (digit * p + was) * factor + carry
  {
    CarryAlgebra(p, base, q, r, rest, factor, digit);
    Distribute(digit * p, was, factor);
  }

  /** One digit of the loop: total = q * base + r leaves digit r and carries q. */
  lemma CarryStep(base: nat, factor: nat, carry: nat, rest: nat, digit: byte, q: nat, r: byte,
                  done: seq<byte>, was: seq<byte>)
    requires |done| == |was| && q * base + r == rest + factor * digit
    requires Value(base, done) + rest * Pow(base, |done|) == Value(base, was) * factor + carry
    ensures Value(base, [r] + done) + q * Pow(base, |done| + 1)
         == Value(base, [digit] + was) * factor + carry
  {
    hide Value, Pow;
    ValuePrepend(base, digit, was);
    ValuePrepend(base, r, done);
    PowSucc(base, |done|);
    CarryValues(Pow(base, |done|), base, q, r, rest, factor, digit, Value(base, done), Value(base, was), carry);
  }

  /** b58 = b58 * 256 + byte. */
  method PackValue(indexes: array<byte>, carry: byte)
    requires Digital(58, indexes[..])
    requires Value(58, indexes[..]) * 256 + carry < Pow(58, indexes.Length)
    modifies indexes
    ensures Digital(58, indexes[..])
    ensures Value(58, indexes[..]) == Value(58, old(indexes[..])) * 256 + carry
  {
    hide Value, Pow;
    var rest := MultiplyAdd(indexes, 58, 256, carry);
    if rest > 0 { MulAtLeast(Pow(58, indexes.Length), rest); }
  }

  /** b256 = b256 * 58 + index. */
  method UnpackChar(data: array<byte>, carry: byte)
    requires Value(256, data[..]) * 58 + carry < Pow(256, data.Length)
    modifies data
    ensures Value(256, data[..]) == Value(256, old(data[..])) * 58 + carry
  {
    hide Value, Pow;
    var rest := MultiplyAdd(data, 256, 58, carry);
    if rest > 0 { MulAtLeast(Pow(256, data.Length), rest); }
  }

  method SearchFirstNonzero(data: seq<byte>) returns (first: nat)
    ensures first == LeadingZeros(data)
  {
    first := 0;
    while first != |data| && data[first] == 0
      invariant first <= |data|
      invariant first + LeadingZeros(data[first..]) == LeadingZeros(data)
    {
      assert data[first..][1..] == data[first + 1..];
      first := first + 1;
    }
  }

  /** What is left of a zero-padded buffer without its padding. */
  lemma {:induction false} StrippedBuffer(base: nat, d: seq<byte>)
    requires 2 <= base <= 256 && Digital(base, d)
    ensures d[LeadingZeros(d)..] == Digits(base, Value(base, d))
  {
    var z := LeadingZeros(d);
    SkipZeros(base, d, z);
    DigitsOfValue(base, d[z..]);
  }

  lemma {:induction false} SkipZeros(base: nat, d: seq<byte>, z: nat)
    requires z <= |d| && forall i :: 0 <= i < z ==> d[i] == 0
    ensures Value(base, d[z..]) == Value(base, d)
  {
    if z == 0 {
      assert d[0..] == d;
    } else {
      SkipZeros(base, d, z - 1);
      assert d[z - 1..] == [0] + d[z..];
      ValuePrepend(base, 0, d[z..]);
    }
  }

  lemma {:induction false} ZerosValue(base: nat, d: seq<byte>)
    requires forall i :: 0 <= i < |d| ==> d[i] == 0
    ensures Value(base, d) == 0
  {
    SkipZeros(base, d, |d|);
  }

  /** A prefix of a number's digits fits any buffer the whole number fits. */
  lemma PrefixFits(base: nat, d: seq<byte>, k: nat, limit: nat)
    requires base > 0 && Digital(base, d) && k < |d| && Pow(base, |d|) <= limit
    ensures Value(base, d[..k]) * base + d[k] == Value(base, d[..k + 1]) < limit
  {
    assert d[..k + 1] == d[..k] + [d[k]];
    ValueAppend(base, d[..k], d[k]);
    ValueBound(base, d[..k + 1]);
    PowMonotone(base, k + 1, |d|);
  }

  // ---- encoding and decoding

  /** The text of a byte string. */
  function Encode(unencoded: seq<byte>): (text: string) {
    ConvertBack(256, 58, unencoded);
    AlphabetValid();
    CharsOf(ALPHABET, Convert(256, 58, unencoded))
  }

  /** The bytes of a text over the alphabet. */
  function Decode(text: string): (data: seq<byte>)
    requires Written(ALPHABET, text)
  {
    AlphabetValid();
    Convert(58, 256, IndexesOf(ALPHABET, text))
  }

  /** decode(encode(b)) = b for every byte string, and there are as many leading ones in the
      text as leading zeros in the bytes. */
  lemma DecodeEncode(b: seq<byte>)
    ensures Written(ALPHABET, Encode(b)) && Decode(Encode(b)) == b
    ensures forall i :: 0 <= i < LeadingZeros(b) ==> i < |Encode(b)| && Encode(b)[i] == '1'
    ensures |Encode(b)| > LeadingZeros(b) ==> Encode(b)[LeadingZeros(b)] != '1'
  {
    hide Convert, CharsOf, IndexesOf;
    ConvertBack(256, 58, b);
    AlphabetValid();
    LeadingOnes(ALPHABET, Convert(256, 58, b));
    IndexesOfChars(ALPHABET, Convert(256, 58, b));
  }

  lemma LeadingOnes(a: string, d: seq<byte>)
    requires Alphabet(a) && Digital(58, d)
    ensures var z := LeadingZeros(d);
            && (forall i :: 0 <= i < z ==> CharsOf(a, d)[i] == a[0])
            && (z < |d| ==> CharsOf(a, d)[z] != a[0])
  {
  }

  /** encode(decode(s)) = s for every text over the alphabet. */
  lemma EncodeDecode(text: string)
    requires Written(ALPHABET, text)
    ensures Encode(Decode(text)) == text
  {
    hide Convert, CharsOf, IndexesOf;
    AlphabetValid();
    var d := IndexesOf(ALPHABET, text);
    ConvertBack(58, 256, d);
    var again := Encode(Decode(text));
    assert again == CharsOf(ALPHABET, d);
  }

  /** Encoding as the source runs it. */
  method EncodeBase58(unencoded: seq<byte>) returns (encoded: string)
    ensures encoded == Encode(unencoded)
  {
    hide Value, Pow, Digits, IndexOf, LeadingZeros, Encode, ALPHABET;
    var leading := SearchFirstNonzero(unencoded);
    var rest := unencoded[leading..];
    var size := |rest| * 138 / 100 + 1;
    var indexes := new byte[size](_ => 0);
    ZerosValue(58, indexes[..]);
    EmptyValue(256);
    EncodeSize(|rest|);
    var it := 0;
    assert rest[..0] == [];
    while it != |rest|
      invariant 0 <= it <= |rest| && indexes.Length == size && Digital(58, indexes[..])
      invariant fresh(indexes)
      invariant Value(58, indexes[..]) == Value(256, rest[..it])
    {
      PrefixFits(256, rest, it, Pow(58, size));
      PackValue(indexes, rest[it]);
      it := it + 1;
    }
    assert rest[..|rest|] == rest;
    StrippedBuffer(58, indexes[..]);
    var first := SearchFirstNonzero(indexes[..]);
    var digits := indexes[first..];
    assert digits == indexes[..][first..];
    AlphabetValid();
    encoded := seq(leading, _ => '1');
    encoded := encoded + CharsOf(ALPHABET, digits);
    EncodeAssembled(unencoded, encoded, digits);
  }

  lemma EncodeAssembled(unencoded: seq<byte>, encoded: string, digits: seq<byte>)
    requires Alphabet(ALPHABET) && ALPHABET[0] == '1'
    requires digits == Digits(58, Value(256, unencoded[LeadingZeros(unencoded)..])) && Digital(58, digits)
    requires encoded == seq(LeadingZeros(unencoded), _ => '1') + CharsOf(ALPHABET, digits)
    ensures encoded == Encode(unencoded)
  {
    var z := LeadingZeros(unencoded);
    hide Value, Digits, LeadingZeros, ALPHABET;
    ConvertBack(256, 58, unencoded);
    CharsOfPadded(ALPHABET, z, digits);
  }

  lemma CharsOfPadded(a: string, z: nat, digits: seq<byte>)
    requires Alphabet(a) && a[0] == '1' && Digital(58, digits)
    ensures CharsOf(a, Zeros(z) + digits) == seq(z, _ => '1') + CharsOf(a, digits)
  {
  }

  method CountLeadingOnes(text: string) returns (count: nat)
    ensures count <= |text| && forall i :: 0 <= i < count ==> text[i] == '1'
    ensures count < |text| ==> text[count] != '1'
  {
    count := 0;
    while count != |text| && text[count] == '1'
      invariant count <= |text| && forall i :: 0 <= i < count ==> text[i] == '1'
    {
      count := count + 1;
    }
  }

  /** Decoding as the source runs it: it fails exactly on a character outside the alphabet. */
  method DecodeBase58(text: string) returns (r: Option<seq<byte>>)
    ensures r.Some? <==> Written(ALPHABET, text)
    ensures r.Some? ==> r.value == Decode(text)
  {
    hide Value, Pow, Digits, IndexOf, LeadingZeros;
    AlphabetValid();
    var alphabet := ALPHABET;
    hide ALPHABET;
    var leading := CountLeadingOnes(text);
    var size := |text| * 733 / 1000 + 1;
    var data := new byte[size](_ => 0);
    ZerosValue(256, data[..]);
    EmptyValue(58);
    var it := leading;
    ghost var digits: seq<byte> := [];
    while it != |text|
      invariant leading <= it <= |text| && data.Length == size && fresh(data)
      invariant |digits| == it - leading && Digital(58, digits)
      invariant forall i :: 0 <= i < |digits| ==> alphabet[digits[i]] == text[leading + i]
      invariant Value(256, data[..]) == Value(58, digits)
    {
      var index := IndexOf(alphabet, text[it]);
      if index.None? {
        return None;
      }
      DigitFits(digits, index.value, |text|);
      UnpackChar(data, index.value);
      digits := digits + [index.value];
      it := it + 1;
    }
    IndexesAre(alphabet, text, leading, digits);
    StrippedBuffer(256, data[..]);
    var first := SearchFirstNonzero(data[..]);
    assert data[first..] == data[..][first..];
    r := Some(Zeros(leading) + data[first..]);
  }

  lemma DigitFits(digits: seq<byte>, digit: byte, n: nat)
    requires Digital(58, digits) && digit < 58 && |digits| < n
    ensures Value(58, digits + [digit]) == Value(58, digits) * 58 + digit < Pow(256, n * 733 / 1000 + 1)
  {
    hide Value, Pow;
    ValueAppend(58, digits, digit);
    ValueBound(58, digits + [digit]);
    PowMonotone(58, |digits| + 1, n);
    DecodeSize(n);
  }

  lemma IndexesAre(a: string, text: string, leading: nat, digits: seq<byte>)
    requires Alphabet(a) && a[0] == '1' && leading + |digits| == |text|
    requires forall i :: 0 <= i < leading ==> text[i] == '1'
    requires digits != [] ==> text[leading] != '1'
    requires Digital(58, digits) && forall i :: 0 <= i < |digits| ==> a[digits[i]] == text[leading + i]
    ensures Written(a, text)
    ensures LeadingZeros(IndexesOf(a, text)) == leading && IndexesOf(a, text)[leading..] == digits
  {
    hide LeadingZeros;
    forall i | 0 <= i < |text| ensures text[i] in a {
      assert i < leading ==> text[i] == a[0];
      assert i >= leading ==> text[i] == a[digits[i - leading]];
    }
    var d := IndexesOf(a, text);
    assert d == Zeros(leading) + digits;
    LeadingZerosOf(leading, digits);
  }
}
