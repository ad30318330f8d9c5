/** Block locator heights: ten steps of one, then steps that double. */
module Locator {
  import opened Words
  import opened Arithmetic

  /** How far below the top the entry at an index lies. */
  ghost function Depth(i: nat): (r: nat)
    ensures r >= i
  {
    if i <= 10 then i else
    PowAtLeast(i - 10);
    10 + 2 * (Pow(2, i - 10) - 1)
  }

  lemma {:induction false} PowAtLeast(n: nat)
    ensures Pow(2, n) > n
  {
    if n > 0 { PowAtLeast(n - 1); }
  }

  lemma DepthStep(i: nat)
    ensures Depth(i + 1) == Depth(i) + if i < 10 then 1 else 2 * Pow(2, i - 10)
  {
    if i >= 10 { PowSucc(2, i - 10); }
  }

  lemma {:induction false} DepthMonotone(i: nat, j: nat)
    requires i < j
    ensures Depth(i) < Depth(j)
  {
    hide Depth, Pow;
    DepthStep(j - 1);
    if i < j - 1 { DepthMonotone(i, j - 1); }
  }

  /** The loop, with the step as a machine word that doubles. */
  method LocatorHeights(top: uint64) returns (heights: seq<uint64>)
    ensures |heights| == EntryCount(top) + 1 && heights[0] == top
    ensures heights[|heights| - 1] == 0
    ensures forall i :: 0 <= i < |heights| - 1 ==> heights[i] == top - Depth(i) > 0
    ensures forall i, j :: 0 <= i < j < |heights| ==> heights[i] > heights[j]
    ensures |heights| <= LocatorSize(top)
  {
    hide Depth, Pow, EntryCount, LocatorSize;
    var step: uint64 := 1;
    heights := [];
    var height := top;
    DepthStart();
    while height > 0
      invariant height == if top < Depth(|heights|) then 0 else top - Depth(|heights|)
      invariant step == if |heights| <= 10 then 1 else Pow(2, |heights| - 10)
      invariant |heights| > 0 ==> Depth(|heights| - 1) < top
      invariant forall i :: 0 <= i < |heights| ==> heights[i] == top - Depth(i) > 0
      decreases height
    {
      DepthStep(|heights|);
      if |heights| >= 10 {
        Doubles(|heights|, top);
        step := (step * 2) % (MAX_UINT64 + 1);
      }
      heights := heights + [height];
      height := FloorSubtract(height, step);
    }
    CountIs(top, |heights|);
    CountWithinSize(top);
    forall i, j | 0 <= i < j < |heights| ensures heights[i] > (heights + [0])[j] {
      DepthMonotone(i, j);
    }
    heights := heights + [0];
  }

  lemma DepthStart()
    ensures Depth(0) == 0
  {
  }

  /** The doubled step still fits a word while there is height left. */
  lemma Doubles(i: nat, top: uint64)
    requires i >= 10 && Depth(i) < top
    ensures var step := if i <= 10 then 1 else Pow(2, i - 10);
            step == Pow(2, i - 10) && step * 2 <= MAX_UINT64 && step * 2 == Pow(2, i - 9)
  {
    PowSucc(2, i - 10);
  }

  function FloorLog2(x: nat): (r: nat)
    requires x >= 1
  {
    if x == 1 then 0 else 1 + FloorLog2(x / 2)
  }

  lemma {:induction false} FloorLog2Bounds(x: nat)
    requires x >= 1
    ensures Pow(2, FloorLog2(x)) <= x < 2 * Pow(2, FloorLog2(x))
  {
    if x > 1 {
      FloorLog2Bounds(x / 2);
      PowSucc(2, FloorLog2(x / 2));
    }
  }

  /** The smallest power of two at or above a number, as an exponent. */
  function CeilingLog2(x: nat): (r: nat)
    requires x >= 1
  {
    if x == 1 then 0 else 1 + FloorLog2(x - 1)
  }

  lemma CeilingLog2Bounds(x: nat)
    requires x >= 1
    ensures x <= Pow(2, CeilingLog2(x)) && (x > 1 ==> Pow(2, CeilingLog2(x)) < 2 * x)
  {
    if x > 1 {
      FloorLog2Bounds(x - 1);
      PowSucc(2, FloorLog2(x - 1));
    }
  }

  /** The entries above zero. */
  function EntryCount(top: nat): (r: nat) {
    Min(10, top) + FloorLog2(top - Min(10, top) + 1)
  }

  /** The reservation: ten or the top, a logarithm rounded up, and the last entry. */
  function LocatorSize(top: nat): (r: nat) {
    var firstTenOrTop := Min(10, top);
    var remaining := top - firstTenOrTop;
    firstTenOrTop + (if remaining == 0 then 0 else if remaining == 1 then 1 else CeilingLog2(remaining)) + 1
  }

  lemma CountIs(top: nat, n: nat)
    requires Depth(n) >= top && (n > 0 ==> Depth(n - 1) < top)
    ensures n == EntryCount(top)
  {
    hide Depth;
    var count := EntryCount(top);
    DepthAtCount(top);
    if n < count {
      if n < count - 1 { DepthMonotone(n, count - 1); }
    } else if n > count {
      if count < n - 1 { DepthMonotone(count, n - 1); }
    }
  }

  lemma DepthAtCount(top: nat)
    ensures var count := EntryCount(top);
            Depth(count) >= top && (count > 0 ==> Depth(count - 1) < top)
  {
    if top > 10 {
      var k := FloorLog2(top - 9);
      FloorLog2Bounds(top - 9);
      if k > 1 { PowSucc(2, k - 1); }
    }
  }

  lemma CountWithinSize(top: nat)
    ensures EntryCount(top) + 1 <= LocatorSize(top) <= EntryCount(top) + 2
  {
    hide Pow;
    var r := top - Min(10, top);
    if r >= 2 {
      FloorLog2Bounds(r + 1);
      CeilingLog2Bounds(r);
      var f, c := FloorLog2(r + 1), CeilingLog2(r);
      if f > c {
        PowMonotone(2, c + 1, f);
        PowSucc(2, c);
        assert false;
      }
      if c > f + 1 {
        PowMonotone(2, f + 2, c);
        PowSucc(2, f);
        PowSucc(2, f + 1);
        assert false;
      }
    }
  }
}
