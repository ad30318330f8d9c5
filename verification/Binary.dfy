/** Bytes as eight bits, most significant first. */
module ByteBits {
  /** The bit of a byte selected by the mask 1 << (7 - k). */
  predicate Bit(b: bv8, k: nat)
    requires k < 8
  {
    b & Mask(k) != 0
  }

  function Mask(k: nat): (r: bv8)
    requires k < 8
  {
    match k
    case 0 => 0x80 case 1 => 0x40 case 2 => 0x20 case 3 => 0x10
    case 4 => 0x08 case 5 => 0x04 case 6 => 0x02 case 7 => 0x01
  }

  /** A left shift in a wider word, cut back to eight bits. */
  function ShiftUp(b: bv8, n: nat): (r: bv8)
    requires n <= 8
  {
    match n
    case 0 => b case 1 => b << 1 case 2 => b << 2 case 3 => b << 3
    case 4 => b << 4 case 5 => b << 5 case 6 => b << 6 case 7 => b << 7
    case 8 => 0
  }

  function ShiftDown(b: bv8, n: nat): (r: bv8)
    requires n <= 8
  {
    match n
    case 0 => b case 1 => b >> 1 case 2 => b >> 2 case 3 => b >> 3
    case 4 => b >> 4 case 5 => b >> 5 case 6 => b >> 6 case 7 => b >> 7
    case 8 => 0
  }

  lemma ShiftUpBit(b: bv8, n: nat, k: nat)
    requires n <= 8 && k < 8
    ensures Bit(ShiftUp(b, n), k) == (k + n < 8 && Bit(b, k + n))
  {
  }

  lemma ShiftDownBit(b: bv8, n: nat, k: nat)
    requires n <= 8 && k < 8
    ensures Bit(ShiftDown(b, n), k) == (n <= k && Bit(b, k - n))
  {
  }

  lemma OrBit(a: bv8, b: bv8, k: nat)
    requires k < 8
    ensures Bit(a | b, k) == (Bit(a, k) || Bit(b, k))
  {
  }

  /** Masking with 0xFF << excess clears the last `excess` bits. */
  lemma KeepBit(b: bv8, excess: nat, k: nat)
    requires excess <= 8 && k < 8
    ensures Bit(b & ShiftUp(0xFF, excess), k) == (k + excess < 8 && Bit(b, k))
  {
  }

  lemma MaskBit(j: nat, k: nat)
    requires j < 8 && k < 8
    ensures Bit(Mask(j), k) == (j == k)
  {
  }

  lemma ZeroBit(k: nat)
    requires k < 8
    ensures !Bit(0, k)
  {
  }
}

/** Packed bit strings: byte blocks with a partial last block, changed in place. */
module PackedBits {
  import opened ByteBits
  import opened Words

  const MAX_SIZE: int := MAX_UINT64

  function BlocksSize(bits: nat): (r: nat) {
    if bits == 0 then 0 else (bits - 1) / 8 + 1
  }

  /** The bit at a position, zero beyond the blocks. */
  predicate BitAt(blocks: seq<bv8>, j: nat) {
    j < 8 * |blocks| && Bit(blocks[j / 8], j % 8)
  }

  function BitsOf(blocks: seq<bv8>, size: nat): (r: seq<bool>)
    ensures |r| == size && forall j :: 0 <= j < size ==> r[j] == BitAt(blocks, j)
  {
    seq(size, j requires j >= 0 => BitAt(blocks, j))
  }

  function ZeroBits(n: nat): (r: seq<bool>)
    ensures |r| == n && forall j :: 0 <= j < n ==> !r[j]
  {
    seq(n, _ => false)
  }

  function ZeroBlocks(n: nat): (r: seq<bv8>)
    ensures |r| == n && forall i :: 0 <= i < n ==> r[i] == 0
  {
    seq(n, _ => 0)
  }

  /** The container's resize: cut, or filled with zero blocks. */
  function ResizeBlocks(blocks: seq<bv8>, n: nat): (r: seq<bv8>)
    ensures |r| == n
    ensures forall i :: 0 <= i < n ==> r[i] == if i < |blocks| then blocks[i] else 0
  {
    if n <= |blocks| then blocks[..n] else blocks + ZeroBlocks(n - |blocks|)
  }

  lemma BitAtBlock(blocks: seq<bv8>, i: nat, k: nat)
    requires i < |blocks| && k < 8
    ensures BitAt(blocks, 8 * i + k) == Bit(blocks[i], k)
  {
    assert (8 * i + k) / 8 == i && (8 * i + k) % 8 == k;
  }

  /** The block count is minimal and the unused trailing bits are zero. */
  ghost predicate Canonical(blocks: seq<bv8>, size: nat) {
    |blocks| == BlocksSize(size) && forall j :: size <= j < 8 * |blocks| ==> !BitAt(blocks, j)
  }

  /** One block of a left shift. */
  function ShiftedLeft(blocks: seq<bv8>, distance: nat, i: nat): (r: bv8) {
    var blockOffset, offset := distance / 8, distance % 8;
    var trailing := if offset != 0 && blockOffset + i + 1 < |blocks|
                    then ShiftDown(blocks[blockOffset + i + 1], 8 - offset) else 0;
    var leading := if blockOffset + i < |blocks| then ShiftUp(blocks[blockOffset + i], offset) else 0;
    leading | trailing
  }

  lemma ShiftedLeftBit(blocks: seq<bv8>, distance: nat, i: nat, k: nat)
    requires k < 8
    ensures Bit(ShiftedLeft(blocks, distance, i), k) == BitAt(blocks, 8 * i + k + distance)
  {
    hide Bit, ShiftUp, ShiftDown;
    var o, b := distance % 8, distance / 8 + i;
    var j := 8 * i + k + distance;
    var trailing := if o != 0 && b + 1 < |blocks| then ShiftDown(blocks[b + 1], 8 - o) else 0;
    var leading := if b < |blocks| then ShiftUp(blocks[b], o) else 0;
    ZeroBit(k);
    OrBit(leading, trailing, k);
    if b < |blocks| { ShiftUpBit(blocks[b], o, k); }
    if o != 0 && b + 1 < |blocks| { ShiftDownBit(blocks[b + 1], 8 - o, k); }
    if k + o < 8 {
      assert j / 8 == b && j % 8 == k + o;
    } else {
      assert j / 8 == b + 1 && j % 8 == k + o - 8;
    }
  }

  /** One block of a right shift by less than a block. */
  function ShiftedRight(blocks: seq<bv8>, offset: nat, i: nat): (r: bv8)
    requires offset < 8 && i < |blocks|
  {
    (if i == 0 then 0 else ShiftUp(blocks[i - 1], 8 - offset)) | ShiftDown(blocks[i], offset)
  }

  lemma ShiftedRightBit(blocks: seq<bv8>, offset: nat, i: nat, k: nat)
    requires offset < 8 && i < |blocks| && k < 8
    ensures Bit(ShiftedRight(blocks, offset, i), k)
         == (8 * i + k >= offset && BitAt(blocks, 8 * i + k - offset))
  {
    hide Bit, ShiftUp, ShiftDown;
    var leading := if i == 0 then 0 else ShiftUp(blocks[i - 1], 8 - offset);
    ZeroBit(k);
    OrBit(leading, ShiftDown(blocks[i], offset), k);
    ShiftDownBit(blocks[i], offset, k);
    if i > 0 { ShiftUpBit(blocks[i - 1], 8 - offset, k); }
    if k >= offset {
      BitAtBlock(blocks, i, k - offset);
    } else if i > 0 {
      BitAtBlock(blocks, i - 1, k + 8 - offset);
    }
  }

  class Binary {
    var blocks: seq<bv8>
    var excess: nat

    ghost predicate Valid()
      reads this
    {
      excess < 8 && (blocks == [] ==> excess == 0) && Canonical(blocks, Size())
    }

    function Size(): (r: nat)
      reads this
    {
      if 8 * |blocks| < excess then 0 else 8 * |blocks| - excess
    }

    ghost function Bits(): (r: seq<bool>)
      reads this
      ensures |r| == Size()
    {
      BitsOf(blocks, Size())
    }

    constructor ()
      ensures Valid() && Bits() == []
    {
      blocks, excess := [], 0;
    }

    /** Copies the blocks, padded with zeros; no blocks at all give an empty string whatever
        the size. */
    constructor FromBlocks(size: nat, data: seq<bv8>)
      ensures Valid()
      ensures Bits() == if data == [] then [] else BitsOf(data, size)
    {
      blocks, excess := data, 0;
      new;
      if data != [] {
        while |blocks| * 8 < size
          invariant |data| <= |blocks| && blocks[..|data|] == data
          invariant forall i :: |data| <= i < |blocks| ==> blocks[i] == 0
          decreases size - |blocks| * 8
        {
          blocks := blocks + [0];
        }
        PaddedBits(data, blocks, size);
        Resize(size);
      }
    }

    /** Whatever bits the blocks held, the string becomes their first `size` bits. */
    method Resize(size: nat)
      modifies this
      ensures Valid() && Size() == size && Bits() == BitsOf(old(blocks), size)
    {
      hide Bit, ShiftUp;
      excess := 0;
      blocks := ResizeBlocks(blocks, BlocksSize(size));
      var offset := size % 8;
      if offset > 0 {
        excess := 8 - offset;
        var last := |blocks| - 1;
        blocks := blocks[last := blocks[last] & ShiftUp(0xFF, excess)];
      }
      ResizedBits(old(blocks), blocks, size);
    }

    /** The bit at an index: divide for the block, mask for the bit. */
    method At(index: nat) returns (r: bool)
      requires Valid() && index < Size()
      ensures r == Bits()[index]
    {
      var blockIndex := index / 8;
      var offset := index - blockIndex * 8;
      r := blocks[blockIndex] & Mask(offset) != 0;
    }

    /** Drops the first `distance` bits. */
    method ShiftLeft(distance: nat)
      requires Valid()
      modifies this
      ensures Valid()
      ensures Bits() == if distance < old(Size()) then old(Bits())[distance..] else []
    {
      hide Bit, ShiftUp, ShiftDown;
      ghost var start := blocks;
      var initialSize := Size();
      var count := |blocks|;
      var destination := if distance < initialSize then initialSize - distance else 0;
      var blockOffset, offset := distance / 8, distance % 8;
      var i := 0;
      while i < count
        invariant 0 <= i <= count == |blocks| == |start| && excess == old(excess)
        invariant forall b :: 0 <= b < i ==> blocks[b] == ShiftedLeft(start, distance, b)
        invariant forall b :: i <= b < count ==> blocks[b] == start[b]
      {
        var leading, trailing: bv8 := 0, 0;
        if offset != 0 && blockOffset + i + 1 < count {
          trailing := ShiftDown(blocks[blockOffset + i + 1], 8 - offset);
        }
        if blockOffset + i < count {
          leading := ShiftUp(blocks[blockOffset + i], offset);
        }
        blocks := blocks[i := leading | trailing];
        i := i + 1;
      }
      ShiftLeftBits(start, blocks, distance, destination);
      Resize(destination);
    }

    /** Puts `distance` zero bits in front. */
    method ShiftRight(distance: nat)
      requires Valid()
      modifies this
      ensures Valid()
      ensures Bits() == ZeroBits(distance) + old(Bits())
    {
      hide Bit, ShiftUp, ShiftDown, ShiftedRight;
      ghost var start := blocks;
      var initialSize := Size();
      var count := |blocks|;
      var offset, offsetBlocks := distance % 8, distance / 8;
      var moved, previous := MoveRight(blocks, distance);
      blocks := moved;
      Resize(initialSize + distance);
      ghost var cut := blocks;
      if offsetBlocks + count < |blocks| {
        blocks := blocks[|blocks| - 1 := ShiftUp(previous, 8 - offset)];
      }
      ShiftRightBits(start, moved, cut, blocks, distance, initialSize);
    }

    /** Concatenation behind; the argument may be this string itself. */
    method Append(post: Binary)
      requires Valid() && post.Valid()
      modifies this
      ensures Valid() && Bits() == old(Bits()) + old(post.Bits())
    {
      hide Bit, BitAt, BitsOf, BlocksSize, ZeroBits, Canonical;
      var blockOffset, offset := Size() / 8, Size() % 8;
      ghost var before, after := blocks, post.blocks;
      ghost var n, m := Size(), post.Size();
      var shifted := ShiftedCopy(post.Size(), post.blocks, offset);
      Resize(Size() + post.Size());
      ghost var cut := blocks;
      AppendFits(n, m);
      CanonicalSize(cut, n + m);
      CanonicalSize(shifted, offset + m);
      blocks := OrInto(blocks, shifted, blockOffset);
      AppendBits(before, after, cut, shifted, blocks, n, m);
    }

    /** Concatenation in front. When the argument is this string itself, the shift has already
        changed it before it is read, and the result is the string behind zeros. */
    method Prepend(prior: Binary)
      requires Valid() && prior.Valid()
      modifies this
      ensures Valid()
      ensures prior != this ==> Bits() == old(prior.Bits()) + old(Bits())
      ensures prior == this ==> Bits() == ZeroBits(old(Size())) + old(Bits())
    {
      hide Bit;
      ghost var n := prior.Size();
      ShiftRight(prior.Size());
      ghost var shifted := blocks;
      var priorBlocks := prior.blocks;
      ghost var m := prior.Size();
      PrependFits(m, Size());
      blocks := OrInto(blocks, priorBlocks, 0);
      PrependBits(shifted, priorBlocks, blocks, m, Size());
    }

    /** The bits from `start`, at most `length` of them. The bound is compared after a sum of
        machine words: it is a slice exactly when that sum does not wrap or the length is the
        largest word, and otherwise the tail of the string filled with zeros. */
    method Substring(start: nat, length: nat) returns (result: Binary)
      requires Valid() && Size() <= MAX_SIZE && start <= MAX_SIZE && length <= MAX_SIZE
      ensures fresh(result) && result.Valid()
      ensures var s := Min(start, Size());
              var exact := length == MAX_SIZE || s + length <= MAX_SIZE;
              && (exact <==> result.Bits() == Bits()[s..Min(s + length, Size())])
              && (!exact ==> result.Bits() == Bits()[s..] + ZeroBits(s + length - Size()))
    {
      hide Bit, BitAt, BitsOf, BlocksSize, Canonical, ZeroBits;
      var currentSize := Size();
      var s := Min(start, currentSize);
      var taken := TakenLength(s, length, currentSize);
      result := new Binary.FromBlocks(currentSize, blocks);
      CanonicalSize(blocks, currentSize);
      result.ShiftLeft(s);
      ghost var tail := result.blocks;
      ghost var n := result.Size();
      assert result.Bits() == Bits()[s..];
      result.Resize(taken);
      CutBits(tail, n, taken);
    }

    /** Equal sizes and equal bits. */
    method Equals(other: Binary) returns (r: bool)
      requires Valid() && other.Valid()
      ensures r == (Bits() == other.Bits())
    {
      hide Bit, BitAt, BitsOf, BlocksSize, Canonical;
      if Size() != other.Size() {
        return false;
      }
      var i := 0;
      while i < Size()
        invariant 0 <= i <= Size() && forall j :: 0 <= j < i ==> Bits()[j] == other.Bits()[j]
      {
        var mine := At(i);
        var theirs := other.At(i);
        if mine != theirs {
          return false;
        }
        i := i + 1;
      }
      assert Bits() == other.Bits();
      return true;
    }

    /** A prefix test against the field's blocks, which agrees with the prefix test on its bits except
        of a string that is the bits of a shorter field padded with zeros. */
    method IsPrefixOf(field: seq<bv8>) returns (r: bool)
      requires Valid()
      ensures field == [] ==> r == (Size() == 0)
      ensures 0 < |field| && Size() <= 8 * |field| ==> r == (Bits() <= BitsOf(field, 8 * |field|))
      ensures 0 < |field| && 8 * |field| < Size()
           ==> r == (Bits() == BitsOf(field, 8 * |field|) + ZeroBits(Size() - 8 * |field|))
      ensures r == (Bits() <= BitsOf(field, 8 * |field|))
         <==> field == [] || Size() <= 8 * |field|
              || Bits() != BitsOf(field, 8 * |field|) + ZeroBits(Size() - 8 * |field|)
    {
      hide Bit, BlocksSize, Canonical;
      var truncated := new Binary.FromBlocks(Size(), field);
      r := Equals(truncated);
      if 8 * |field| < Size() {
        assert BitsOf(field, Size()) == BitsOf(field, 8 * |field|) + ZeroBits(Size() - 8 * |field|);
      } else {
        assert BitsOf(field, Size()) == BitsOf(field, 8 * |field|)[..Size()];
      }
    }

    /** The text form, one character a bit. */
    method Encoded() returns (text: string)
      requires Valid()
      ensures text == TextOf(Bits())
    {
      text := "";
      var i := 0;
      while i < Size()
        invariant 0 <= i <= Size() && text == TextOf(Bits()[..i])
      {
        var bit := At(i);
        assert Bits()[..i + 1] == Bits()[..i] + [bit];
        text := text + [if bit then '1' else '0'];
        i := i + 1;
      }
      assert Bits()[..i] == Bits();
    }

    /** Reads the text form from the first word of a text; any character in it but '0' and '1'
        leaves an empty string. */
    method Decode(text: string)
      modifies this
      ensures Valid() && Bits() == if IsBase2(Extract(text)) then BitsOfText(Extract(text)) else []
    {
      hide Extract;
      var word := Extract(text);
      hide Bit, Mask, BlocksSize;
      Resize(0);
      var block: bv8 := 0;
      var bitIterator := 8;
      ZeroByte();
      var i := 0;
      while i < |word|
        invariant 0 <= i <= |word| && IsBase2(word[..i]) && excess == 0
        invariant 1 <= bitIterator <= 8 && i == 8 * |blocks| + 8 - bitIterator
        invariant forall j :: 0 <= j < 8 * |blocks| ==> BitAt(blocks, j) == (word[j] == '1')
        invariant Partial(word, 8 * |blocks|, block, 8 - bitIterator)
      {
        if word[i] != '0' && word[i] != '1' {
          assert !IsBase2(word);
          blocks := [];
          return;
        }
        ghost var before := block;
        if word[i] == '1' {
          block := block | Mask(8 - bitIterator);
        }
        PartialStep(word, 8 * |blocks|, before, block, 8 - bitIterator);
        bitIterator := bitIterator - 1;
        if bitIterator == 0 {
          PushedBits(word, blocks, block, 8);
          blocks := blocks + [block];
          block := 0;
          bitIterator := 8;
          ZeroByte();
        }
        i := i + 1;
      }
      assert word[..i] == word;
      if bitIterator != 8 {
        PushedBits(word, blocks, block, 8 - bitIterator);
        blocks := blocks + [block];
      }
      Resize(|word|);
      assert Bits() == BitsOfText(word);
    }
  }

  /** Prepending a string to itself, zeros come out in front: that is concatenation exactly of zeros. */
  lemma SelfPrependAgrees(bits: seq<bool>)
    ensures ZeroBits(|bits|) + bits == bits + bits <==> bits == ZeroBits(|bits|)
  {
    assert bits == (bits + bits)[..|bits|] && ZeroBits(|bits|) == (ZeroBits(|bits|) + bits)[..|bits|];
  }

  function TakenLength(start: nat, length: nat, size: nat): (r: nat)
    requires start <= size <= MAX_SIZE && length <= MAX_SIZE
    ensures length == MAX_SIZE || start + length <= MAX_SIZE ==> start + r == Min(start + length, size)
    ensures length != MAX_SIZE && start + length > MAX_SIZE ==> r == length
  {
    if length == MAX_SIZE || (start + length) % (MAX_SIZE + 1) > size then size - start else length
  }

  predicate IsSpace(ch: char) {
    ch == ' ' || '\t' <= ch <= '\r'
  }

  /** The characters up to a space. */
  function TakeWord(text: string): (r: string) {
    if text == "" || IsSpace(text[0]) then "" else [text[0]] + TakeWord(text[1..])
  }

  /** The first word of a text, which is what a stream extraction delivers. */
  function Extract(text: string): (r: string) {
    if text != "" && IsSpace(text[0]) then Extract(text[1..]) else TakeWord(text)
  }

  lemma {:induction false} WordAlone(text: string)
    requires forall i :: 0 <= i < |text| ==> !IsSpace(text[i])
    ensures Extract(text) == TakeWord(text) == text
  {
    if text != "" {
      assert !IsSpace(text[0]);
      WordAlone(text[1..]);
      assert text == [text[0]] + text[1..];
    }
  }

  predicate IsBase2(text: string) {
    forall i :: 0 <= i < |text| ==> text[i] == '0' || text[i] == '1'
  }

  function TextOf(bits: seq<bool>): (r: string) {
    seq(|bits|, i requires 0 <= i < |bits| => if bits[i] then '1' else '0')
  }

  function BitsOfText(text: string): (r: seq<bool>) {
    seq(|text|, i requires 0 <= i < |text| => text[i] == '1')
  }

  /** The text form and the bits determine each other; other texts do not come back. */
  lemma TextRoundTrip(bits: seq<bool>, text: string)
    ensures IsBase2(TextOf(bits)) && BitsOfText(TextOf(bits)) == bits && Extract(TextOf(bits)) == TextOf(bits)
    ensures TextOf(BitsOfText(text)) == text <==> IsBase2(text)
  {
    WordAlone(TextOf(bits));
    if TextOf(BitsOfText(text)) == text {
      forall i | 0 <= i < |text| ensures text[i] == '0' || text[i] == '1' {
        assert TextOf(BitsOfText(text))[i] == text[i];
      }
    }
  }

  /** A block under construction: its first `count` bits are the characters from `from`. */
  ghost predicate Partial(word: string, from: nat, block: bv8, count: nat) {
    count <= 8 && from + count <= |word|
    && forall k :: 0 <= k < 8 ==> Bit(block, k) == (k < count && word[from + k] == '1')
  }

  lemma ZeroByte()
    ensures forall k :: 0 <= k < 8 ==> !Bit(0, k)
  {
    hide Bit;
    forall k | 0 <= k < 8 ensures !Bit(0, k) { ZeroBit(k); }
  }

  lemma PartialStep(word: string, from: nat, before: bv8, after: bv8, count: nat)
    requires count < 8 && Partial(word, from, before, count) && from + count < |word|
    requires after == if word[from + count] == '1' then before | Mask(count) else before
    ensures Partial(word, from, after, count + 1)
  {
    hide Bit, Mask;
    forall k | 0 <= k < 8 ensures Bit(after, k) == (k < count + 1 && word[from + k] == '1') {
      OrBit(before, Mask(count), k);
      MaskBit(count, k);
    }
  }

  lemma PushedBits(word: string, blocks: seq<bv8>, block: bv8, count: nat)
    requires Partial(word, 8 * |blocks|, block, count)
    requires forall j :: 0 <= j < 8 * |blocks| ==> BitAt(blocks, j) == (word[j] == '1')
    ensures forall j :: 0 <= j < 8 * |blocks| + count ==> BitAt(blocks + [block], j) == (word[j] == '1')
  {
    hide Bit;
    forall j | 0 <= j < 8 * |blocks| + count ensures BitAt(blocks + [block], j) == (word[j] == '1') {
      if j >= 8 * |blocks| {
        BitAtBlock(blocks + [block], |blocks|, j - 8 * |blocks|);
      } else {
        assert BitAt(blocks, j) == (word[j] == '1');
      }
    }
  }

  lemma CutBits(blocks: seq<bv8>, n: nat, size: nat)
    requires Canonical(blocks, n)
    ensures size <= n ==> BitsOf(blocks, size) == BitsOf(blocks, n)[..size]
    ensures n <= size ==> BitsOf(blocks, size) == BitsOf(blocks, n) + ZeroBits(size - n)
  {
  }

  /** A copy of a string behind zero bits. */
  method ShiftedCopy(size: nat, data: seq<bv8>, distance: nat) returns (shifted: seq<bv8>)
    requires Canonical(data, size)
    ensures Canonical(shifted, distance + size)
    ensures BitsOf(shifted, distance + size) == ZeroBits(distance) + BitsOf(data, size)
  {
    hide Bit, BitAt, BitsOf, BlocksSize, ZeroBits, Canonical;
    var duplicate := new Binary.FromBlocks(size, data);
    CanonicalSize(data, size);
    duplicate.ShiftRight(distance);
    shifted := duplicate.blocks;
  }

  method PadFront(start: seq<bv8>, count: nat) returns (blocks: seq<bv8>)
    ensures blocks == ZeroBlocks(count) + start
  {
    blocks := start;
    var n := 0;
    while n < count
      invariant 0 <= n <= count && blocks == ZeroBlocks(n) + start
    {
      blocks := [0] + blocks;
      n := n + 1;
    }
  }

  /** Zero blocks in front, then every block shifted with the bits of the one before it. */
  method MoveRight(start: seq<bv8>, distance: nat) returns (blocks: seq<bv8>, previous: bv8)
    ensures |blocks| == distance / 8 + |start|
    ensures forall b :: 0 <= b < distance / 8 ==> blocks[b] == 0
    ensures forall b ::
      distance / 8 <= b < |blocks| ==> blocks[b] == ShiftedRight(start, distance % 8, b - distance / 8)
    ensures previous == if start == [] then 0 else start[|start| - 1]
  {
    hide ShiftUp, ShiftDown, ShiftedRight;
    var offset, offsetBlocks := distance % 8, distance / 8;
    blocks := PadFront(start, offsetBlocks);
    previous := 0;
    ghost var done: seq<bv8> := [];
    var i := 0;
    while i < |start|
      invariant 0 <= i <= |start| && |done| == i
      invariant blocks == ZeroBlocks(offsetBlocks) + done + start[i..]
      invariant previous == if i == 0 then 0 else start[i - 1]
      invariant forall b :: 0 <= b < i ==> done[b] == ShiftedRight(start, offset, b)
    {
      var current := blocks[offsetBlocks + i];
      ShiftedRightIs(start, offset, i, previous);
      var shifted := ShiftUp(previous, 8 - offset) | ShiftDown(current, offset);
      blocks := blocks[offsetBlocks + i := shifted];
      done := done + [shifted];
      previous := current;
      i := i + 1;
      assert blocks == ZeroBlocks(offsetBlocks) + done + start[i..];
    }
  }

  lemma ShiftedRightIs(blocks: seq<bv8>, offset: nat, i: nat, previous: bv8)
    requires offset < 8 && i < |blocks| && previous == if i == 0 then 0 else blocks[i - 1]
    ensures ShiftedRight(blocks, offset, i) == ShiftUp(previous, 8 - offset) | ShiftDown(blocks[i], offset)
  {
    ShiftUpZero(8 - offset);
  }

  /** Merges blocks into others, from a given block on. */
  method OrInto(blocks: seq<bv8>, others: seq<bv8>, at: nat) returns (r: seq<bv8>)
    requires at + |others| <= |blocks|
    ensures |r| == |blocks|
    ensures forall b :: 0 <= b < |blocks| ==>
              r[b] == if at <= b < at + |others| then blocks[b] | others[b - at] else blocks[b]
  {
    r := blocks;
    var i := 0;
    while i < |others|
      invariant 0 <= i <= |others| && |r| == |blocks|
      invariant forall b :: 0 <= b < |blocks| ==>
                  r[b] == if at <= b < at + i then blocks[b] | others[b - at] else blocks[b]
    {
      r := r[at + i := r[at + i] | others[i]];
      i := i + 1;
    }
  }

  lemma PrependFits(n: nat, size: nat)
    requires n <= size
    ensures BlocksSize(n) <= BlocksSize(size)
  {
  }

  lemma PrependBits(shifted: seq<bv8>, prior: seq<bv8>, end: seq<bv8>, n: nat, size: nat)
    requires |prior| <= |shifted| == |end| && Canonical(shifted, size) && Canonical(prior, n)
    requires n <= size
    requires forall b :: 0 <= b < |shifted| ==> end[b] == if b < |prior| then shifted[b] | prior[b] else shifted[b]
    ensures Canonical(end, size)
    ensures forall j :: 0 <= j < size ==> BitsOf(end, size)[j] == (BitAt(shifted, j) || BitAt(prior, j))
  {
    hide Bit;
    forall j | 0 <= j < 8 * |end| ensures BitAt(end, j) == (BitAt(shifted, j) || BitAt(prior, j)) {
      if j / 8 < |prior| { OrBit(shifted[j / 8], prior[j / 8], j % 8); }
    }
  }

  lemma ShiftUpZero(n: nat)
    requires n <= 8
    ensures ShiftUp(0, n) == 0
  {
  }

  lemma ShiftLeftBits(start: seq<bv8>, moved: seq<bv8>, distance: nat, destination: nat)
    requires |moved| == |start|
    requires forall b :: 0 <= b < |moved| ==> moved[b] == ShiftedLeft(start, distance, b)
    requires destination > 0 ==> destination + distance <= 8 * |start|
    ensures forall j :: 0 <= j < destination ==> BitsOf(moved, destination)[j] == BitAt(start, j + distance)
  {
    hide Bit, ShiftedLeft;
    forall j | 0 <= j < destination ensures BitAt(moved, j) == BitAt(start, j + distance) {
      ShiftedLeftBit(start, distance, j / 8, j % 8);
      assert 8 * (j / 8) + j % 8 == j;
    }
  }

  /** All bits of a right shift: those of the start, moved up, and none besides. */
  lemma ShiftRightBits(start: seq<bv8>, moved: seq<bv8>, cut: seq<bv8>, end: seq<bv8>, distance: nat, size: nat)
    requires |moved| == distance / 8 + |start|
    requires Canonical(start, size) && Canonical(cut, size + distance)
    requires forall b :: 0 <= b < distance / 8 ==> moved[b] == 0
    requires forall b :: distance / 8 <= b < |moved| ==> moved[b] == ShiftedRight(start, distance % 8, b - distance / 8)
    requires BitsOf(cut, size + distance) == BitsOf(moved, size + distance)
    requires end == if |moved| < |cut|
                    then cut[|cut| - 1 := ShiftUp(if start == [] then 0 else start[|start| - 1], 8 - distance % 8)]
                    else cut
    ensures Canonical(end, size + distance)
    ensures BitsOf(end, size + distance) == ZeroBits(distance) + BitsOf(start, size)
  {
    hide Bit, ShiftUp, ShiftDown, ShiftedRight;
    forall j | 0 <= j < 8 * |end| ensures BitAt(end, j) == (j >= distance && BitAt(start, j - distance)) {
      if |moved| < |cut| && j / 8 == |cut| - 1 {
        TopBlockBit(start, distance, end, j);
      } else {
        MovedBit(start, moved, distance, j);
        if j < size + distance {
          assert BitAt(cut, j) == BitsOf(cut, size + distance)[j] == BitsOf(moved, size + distance)[j];
        }
      }
    }
  }

  lemma MovedBit(start: seq<bv8>, moved: seq<bv8>, distance: nat, j: nat)
    requires |moved| == distance / 8 + |start| && j < 8 * |moved|
    requires forall b :: 0 <= b < distance / 8 ==> moved[b] == 0
    requires forall b :: distance / 8 <= b < |moved| ==> moved[b] == ShiftedRight(start, distance % 8, b - distance / 8)
    ensures BitAt(moved, j) == (j >= distance && BitAt(start, j - distance))
  {
    hide Bit, ShiftUp, ShiftDown, ShiftedRight;
    var i, k, o := j / 8, j % 8, distance / 8;
    if i < o {
      ZeroBit(k);
    } else {
      ShiftedRightBit(start, distance % 8, i - o, k);
      assert 8 * (i - o) + k - distance % 8 == j - distance;
    }
  }

  lemma TopBlockBit(start: seq<bv8>, distance: nat, end: seq<bv8>, j: nat)
    requires |end| == distance / 8 + |start| + 1 && j / 8 == |end| - 1
    requires end[|end| - 1] == ShiftUp(if start == [] then 0 else start[|start| - 1], 8 - distance % 8)
    ensures BitAt(end, j) == (j >= distance && BitAt(start, j - distance))
  {
    hide Bit, ShiftUp;
    var k, o := j % 8, distance % 8;
    var top := if start == [] then 0 else start[|start| - 1];
    ShiftUpBit(top, 8 - o, k);
    if start == [] {
      ShiftUpZero(8 - o);
      ZeroBit(k);
    } else if k < o {
      BitAtBlock(start, |start| - 1, k + 8 - o);
    }
  }

  lemma AppendFits(n: nat, m: nat)
    ensures n / 8 + BlocksSize(n % 8 + m) == BlocksSize(n + m)
  {
  }

  lemma CanonicalSize(blocks: seq<bv8>, size: nat)
    requires Canonical(blocks, size)
    ensures |blocks| == BlocksSize(size)
    ensures blocks == [] ==> BitsOf(blocks, size) == []
  {
  }

  /** The parts of an append, at the level of blocks. */
  ghost predicate Appended(before: seq<bv8>, after: seq<bv8>, cut: seq<bv8>, shifted: seq<bv8>, end: seq<bv8>,
                           n: nat, m: nat) {
    && Canonical(before, n) && Canonical(cut, n + m) && Canonical(shifted, n % 8 + m)
    && |end| == |cut| == n / 8 + |shifted|
    && BitsOf(cut, n + m) == BitsOf(before, n + m)
    && BitsOf(shifted, n % 8 + m) == ZeroBits(n % 8) + BitsOf(after, m)
    && forall b :: 0 <= b < |cut| ==> end[b] == if n / 8 <= b then cut[b] | shifted[b - n / 8] else cut[b]
  }

  lemma AppendBit(before: seq<bv8>, after: seq<bv8>, cut: seq<bv8>, shifted: seq<bv8>, end: seq<bv8>,
                  n: nat, m: nat, j: nat)
    requires Appended(before, after, cut, shifted, end, n, m) && j < 8 * |end|
    ensures BitAt(end, j) == (if j < n then BitAt(before, j) else j < n + m && BitAt(after, j - n))
  {
    hide Bit;
    var i, k, s := j / 8, j % 8, j - 8 * (n / 8);
    assert BitAt(cut, j) == (j < n && BitAt(before, j)) by {
      if j < n + m { assert BitAt(cut, j) == BitsOf(cut, n + m)[j] == BitsOf(before, n + m)[j]; }
    }
    if n / 8 <= i {
      OrBit(cut[i], shifted[i - n / 8], k);
      assert s / 8 == i - n / 8 && s % 8 == k;
      assert BitAt(shifted, s) == (n <= j < n + m && BitAt(after, j - n)) by {
        if s < n % 8 + m { assert BitAt(shifted, s) == (ZeroBits(n % 8) + BitsOf(after, m))[s]; }
      }
    }
  }

  lemma AppendBits(before: seq<bv8>, after: seq<bv8>, cut: seq<bv8>, shifted: seq<bv8>, end: seq<bv8>, n: nat, m: nat)
    requires Appended(before, after, cut, shifted, end, n, m)
    ensures Canonical(end, n + m)
    ensures BitsOf(end, n + m) == BitsOf(before, n) + BitsOf(after, m)
  {
    CanonicalSize(cut, n + m);
    assert |end| == |cut|;
    hide Bit, BitAt, Appended, BlocksSize;
    forall j | 0 <= j < 8 * |end|
      ensures BitAt(end, j) == (if j < n then BitAt(before, j) else j < n + m && BitAt(after, j - n))
    {
      AppendBit(before, after, cut, shifted, end, n, m, j);
    }
    SizeFits(n + m);
  }

  lemma SizeFits(size: nat)
    ensures size <= 8 * BlocksSize(size) < size + 8
  {
  }

  lemma PaddedBits(data: seq<bv8>, padded: seq<bv8>, size: nat)
    requires |data| <= |padded| && padded[..|data|] == data
    requires forall i :: |data| <= i < |padded| ==> padded[i] == 0
    ensures BitsOf(padded, size) == BitsOf(data, size)
  {
    hide Bit;
    forall j | 0 <= j < size ensures BitAt(padded, j) == BitAt(data, j) {
      ZeroBit(j % 8);
      if j < 8 * |data| { assert padded[j / 8] == padded[..|data|][j / 8]; }
    }
  }

  lemma ResizedBits(before: seq<bv8>, after: seq<bv8>, size: nat)
    requires var cut := ResizeBlocks(before, BlocksSize(size));
             after == if size % 8 == 0 then cut
                      else cut[|cut| - 1 := cut[|cut| - 1] & ShiftUp(0xFF, 8 - size % 8)]
    ensures Canonical(after, size) && BitsOf(after, size) == BitsOf(before, size)
  {
    hide Bit, ShiftUp, ResizeBlocks;
    var cut := ResizeBlocks(before, BlocksSize(size));
    forall j | 0 <= j < 8 * |after| ensures BitAt(after, j) == (j < size && BitAt(before, j)) {
      ZeroBit(j % 8);
      if size % 8 != 0 && j / 8 == |cut| - 1 {
        KeepBit(cut[j / 8], 8 - size % 8, j % 8);
      }
    }
  }
}
