/** The fixed-width unsigned integers the library computes with, and the saturating
    and checked operations of its math utilities. */
module Words {
  const TWO_256: int := 0x1_0000000000000000_0000000000000000_0000000000000000_0000000000000000
  const MAX_UINT64: int := 0xFFFF_FFFF_FFFF_FFFF
  const MAX_UINT32: int := 0xFFFF_FFFF
  const MAX_BLOCK_SIZE: int := 1_000_000

  datatype Option<+T> = None | Some(value: T) {
    predicate IsFailure() {
      None?
    }

    function PropagateFailure<U>(): (r: Option<U>)
      requires None?
    {
      None
    }

    function Extract(): (r: T)
      requires Some?
    {
      value
    }
  }

  type byte = x: int | 0 <= x < 0x100
  type uint32 = x: int | 0 <= x <= MAX_UINT32
  type uint64 = x: int | 0 <= x <= MAX_UINT64
  type uint256 = x: int | 0 <= x < TWO_256

  function Min(a: int, b: int): (r: int) {
    if a < b then a else b
  }

  /** Unsigned addition that stops at the largest value. */
  function CeilingAdd(left: uint64, right: uint64): (r: uint64) {
    if left > MAX_UINT64 - right then MAX_UINT64 else left + right
  }

  /** Unsigned subtraction that stops at zero. */
  function FloorSubtract(left: uint64, right: uint64): (r: uint64) {
    if right >= left then 0 else left - right
  }
}

/** Powers, and the facts about products and quotients the solver needs spelled out. */
module Arithmetic {
  function Pow(b: nat, e: nat): (r: nat)
    ensures b > 0 ==> r > 0
  {
    if e == 0 then 1 else b * Pow(b, e - 1)
  }

  lemma {:induction false} PowAdd(b: nat, m: nat, n: nat)
    ensures Pow(b, m + n) == Pow(b, m) * Pow(b, n)
  {
    if m > 0 {
      PowAdd(b, m - 1, n);
      assert Pow(b, m + n) == b * (Pow(b, m - 1) * Pow(b, n));
    }
  }

  lemma PowSucc(b: nat, e: nat)
    ensures Pow(b, e + 1) == b * Pow(b, e)
  {
  }

  lemma {:induction false} PowMul(b: nat, m: nat, n: nat)
    ensures Pow(Pow(b, m), n) == Pow(b, m * n)
  {
    if n == 0 {
      assert m * n == 0;
    } else {
      PowMul(b, m, n - 1);
      assert m * n == m + m * (n - 1);
      PowAdd(b, m, m * (n - 1));
    }
  }

  lemma {:induction false} PowMonotone(b: nat, m: nat, n: nat)
    requires b > 0 && m <= n
    ensures Pow(b, m) <= Pow(b, n)
  {
    PowAdd(b, m, n - m);
    MulAtLeast(Pow(b, m), Pow(b, n - m));
  }

  lemma MulAtLeast(a: nat, k: nat)
    requires k >= 1
    ensures a <= a * k
  {
  }

  lemma MulMono(a: nat, b: nat, c: nat, d: nat)
    requires a <= b && c <= d
    ensures a * c <= b * d
  {
    assert a * c <= b * c;
    assert b * c <= b * d;
  }

  lemma MulStrict(a: nat, b: nat, c: nat)
    requires a < b && c > 0
    ensures a * c < b * c
  {
  }

  lemma DivAtMost(a: nat, d: nat)
    requires d > 0
    ensures 0 <= a / d <= a
  {
    assert a == d * (a / d) + a % d;
    if a / d > a { MulMono(1, d, a / d, a / d); }
  }

  lemma WholePart(m: nat, unit: nat)
    requires unit > 0
    ensures unit * (m / unit) <= m < unit * (m / unit) + unit && m / unit <= m
  {
    DivAtMost(m, unit);
  }

  lemma DivBounds(x: nat, p: nat, lo: nat, hi: nat)
    requires p > 0 && lo * p <= x < hi * p
    ensures lo <= x / p < hi
  {
    assert x == p * (x / p) + x % p;
    if x / p < lo { MulMono(x / p + 1, lo, p, p); }
    if x / p >= hi { MulMono(hi, x / p, p, p); }
  }

  lemma DivDiv(x: nat, p: nat)
    requires p > 0
    ensures x / p / 256 == x / (p * 256)
  {
    var a := x / p;
    var b := a / 256;
    assert x == p * a + x % p;
    assert a == 256 * b + a % 256;
    assert p * a == p * (256 * b) + p * (a % 256);
    assert p * (256 * b) == (p * 256) * b;
    MulMono(p, p, a % 256, 255);
    DivUnique(x, p * 256, b);
  }

  lemma DivUnique(x: nat, d: nat, q: nat)
    requires d > 0 && d * q <= x < d * q + d
    ensures x / d == q
  {
    assert x == d * (x / d) + x % d;
    if x / d > q { MulMono(d, d, q + 1, x / d); }
    if x / d < q { MulMono(d, d, x / d + 1, q); }
  }

  lemma DivModUnique(x: nat, d: nat, q: nat, r: nat)
    requires x == q * d + r && r < d
    ensures x / d == q && x % d == r
  {
    DivUnique(x, d, q);
    assert x == d * (x / d) + x % d;
  }

  lemma DivModFacts(n: nat, d: nat)
    requires d >= 2
    ensures n == n / d * d + n % d && 0 <= n % d < d
    ensures n > 0 ==> 0 <= n / d < n
  {
    DivAtMost(n, d);
    if n / d == n { MulMono(2, d, n, n); }
  }

  lemma DivMono(x: nat, y: nat, p: nat)
    requires x <= y && p > 0
    ensures x / p <= y / p
  {
    assert x == p * (x / p) + x % p;
    assert y == p * (y / p) + y % p;
    if x / p > y / p { MulMono(p, p, y / p + 1, x / p); }
  }

  lemma DivBelow(v: nat, p: nat, hi: nat)
    requires p > 0 && v / p < hi
    ensures v < hi * p
  {
    assert v == p * (v / p) + v % p;
    MulMono(v / p + 1, hi, p, p);
  }

  lemma MulAssoc(a: nat, b: nat, c: nat)
    ensures a * (b * c) == a * b * c
  {
  }

  lemma SmallMod(x: nat, m: nat)
    requires x < m
    ensures x % m == x
  {
  }

  lemma {:induction false} PowBaseMonotone(a: nat, b: nat, n: nat)
    requires a <= b
    ensures Pow(a, n) <= Pow(b, n)
  {
    if n > 0 {
      PowBaseMonotone(a, b, n - 1);
      MulMono(a, b, Pow(a, n - 1), Pow(b, n - 1));
    }
  }

  lemma {:induction false} PowBaseStrict(a: nat, b: nat, n: nat)
    requires a < b && n > 0
    ensures Pow(a, n) < Pow(b, n)
  {
    PowBaseMonotone(a, b, n - 1);
    MulMono(a, a, Pow(a, n - 1), Pow(b, n - 1));
    assert a * Pow(b, n - 1) < b * Pow(b, n - 1);
  }

  /** 256-bit words are 32 bytes. */
  lemma Pow256_32()
    ensures Pow(256, 32) == 0x1_0000000000000000_0000000000000000_0000000000000000_0000000000000000
  {
    assert Pow(256, 4) == 0x1_0000_0000;
    PowAdd(256, 4, 4);
    PowAdd(256, 8, 8);
    PowAdd(256, 16, 16);
  }
}
