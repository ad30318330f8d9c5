/** Median time past: the middle of a sorted copy of recent timestamps. */
module MedianTime {
  import opened Words
  import opened Sorting

  predicate Earlier(a: uint32, b: uint32) {
    a < b
  }

  /** Element n/2 of the sorted list, and zero for an empty list. */
  function Median(times: seq<uint32>): (r: uint32) {
    var sorted := Sort(Earlier, times);
    if sorted == [] then 0 else sorted[|sorted| / 2]
  }

  lemma {:induction false} HeadLeast(s: seq<uint32>, k: nat)
    requires Sorted(Earlier, s) && k < |s|
    ensures s[0] <= s[k]
  {
    if k > 0 { HeadLeast(s[1..], k - 1); }
  }

  // ---- the median by counting

  function CountBelow(s: seq<uint32>, v: int): (n: nat) {
    if s == [] then 0 else (if s[0] < v then 1 else 0) + CountBelow(s[1..], v)
  }

  lemma {:induction false} CountBelowInsert(x: uint32, s: seq<uint32>, v: int)
    ensures CountBelow(Insert(Earlier, x, s), v) == CountBelow(s, v) + if x < v then 1 else 0
  {
    if s == [] || x <= s[0] {
      assert ([x] + s)[1..] == s;
    } else {
      CountBelowInsert(x, s[1..], v);
      assert ([s[0]] + Insert(Earlier, x, s[1..]))[1..] == Insert(Earlier, x, s[1..]);
    }
  }

  lemma {:induction false} CountBelowSort(s: seq<uint32>, v: int)
    ensures CountBelow(Sort(Earlier, s), v) == CountBelow(s, v)
  {
    if s != [] {
      CountBelowSort(s[1..], v);
      CountBelowInsert(s[0], Sort(Earlier, s[1..]), v);
    }
  }

  lemma {:induction false} CountBelowHead(s: seq<uint32>, v: int)
    requires Sorted(Earlier, s) && s != [] && v <= s[0]
    ensures CountBelow(s, v) == 0
  {
    if |s| > 1 { CountBelowHead(s[1..], v); }
  }

  lemma {:induction false} CountBelowAt(s: seq<uint32>, k: nat, v: int)
    requires Sorted(Earlier, s) && k < |s|
    ensures v <= s[k] ==> CountBelow(s, v) <= k
    ensures v > s[k] ==> CountBelow(s, v) > k
  {
    HeadLeast(s, k);
    if k > 0 {
      CountBelowAt(s[1..], k - 1, v);
    } else if v <= s[0] {
      CountBelowHead(s, v);
    }
  }

  /** The median is one of the timestamps, at most half of them lie below it, and more than
      half lie at or below it; this determines it whatever order the sort saw. */
  lemma {:induction false} MedianRank(times: seq<uint32>)
    requires times != []
    ensures Median(times) in times
    ensures CountBelow(times, Median(times)) <= |times| / 2 < CountBelow(times, Median(times) + 1)
  {
    hide Sort, Sorted, CountBelow;
    SortSorts(Earlier, times);
    SortHolds(Earlier, times, Median(times));
    var sorted := Sort(Earlier, times);
    var m: int := Median(times);
    assert m == sorted[|times| / 2];
    CountBelowAt(sorted, |times| / 2, m);
    CountBelowAt(sorted, |times| / 2, m + 1);
    CountBelowSort(times, m);
    CountBelowSort(times, m + 1);
  }

  lemma {:induction false} CountBelowMonotone(s: seq<uint32>, v: int, w: int)
    requires v <= w
    ensures CountBelow(s, v) <= CountBelow(s, w)
  {
    if s != [] { CountBelowMonotone(s[1..], v, w); }
  }

  /** No other number has the median's rank. */
  lemma {:induction false} MedianUnique(times: seq<uint32>, m: uint32)
    requires times != []
    requires CountBelow(times, m) <= |times| / 2 < CountBelow(times, m + 1)
    ensures m == Median(times)
  {
    MedianRank(times);
    var n := Median(times);
    if m < n { CountBelowMonotone(times, m + 1, n); }
    if n < m { CountBelowMonotone(times, n + 1, m); }
  }
}
