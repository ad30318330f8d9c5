/** Sorting by insertion under any order. */
module Sorting {
  function Insert<T>(less: (T, T) -> bool, x: T, s: seq<T>): (r: seq<T>) {
    if s == [] || !less(s[0], x) then [x] + s else [s[0]] + Insert(less, x, s[1..])
  }

  function Sort<T>(less: (T, T) -> bool, s: seq<T>): (r: seq<T>) {
    if s == [] then [] else Insert(less, s[0], Sort(less, s[1..]))
  }

  ghost predicate Sorted<T>(less: (T, T) -> bool, s: seq<T>) {
    |s| <= 1 || (!less(s[1], s[0]) && Sorted(less, s[1..]))
  }

  ghost predicate Asymmetric<T(!new)>(less: (T, T) -> bool) {
    forall a, b :: less(a, b) ==> !less(b, a)
  }

  lemma {:induction false} InsertHolds<T>(less: (T, T) -> bool, x: T, s: seq<T>, y: T)
    ensures y in Insert(less, x, s) <==> y == x || y in s
  {
    if s != [] && less(s[0], x) {
      InsertHolds(less, x, s[1..], y);
      assert s == [s[0]] + s[1..];
    }
  }

  lemma {:induction false} InsertSorts<T(!new)>(less: (T, T) -> bool, x: T, s: seq<T>)
    requires Asymmetric(less) && Sorted(less, s)
    ensures Sorted(less, Insert(less, x, s)) && |Insert(less, x, s)| == |s| + 1
    ensures Insert(less, x, s)[0] == x || (s != [] && Insert(less, x, s)[0] == s[0])
  {
    if s == [] || !less(s[0], x) {
      assert ([x] + s)[1..] == s;
    } else {
      InsertSorts(less, x, s[1..]);
      assert ([s[0]] + Insert(less, x, s[1..]))[1..] == Insert(less, x, s[1..]);
    }
  }

  lemma {:induction false} SortHolds<T>(less: (T, T) -> bool, s: seq<T>, y: T)
    ensures y in Sort(less, s) <==> y in s
  {
    if s != [] {
      SortHolds(less, s[1..], y);
      InsertHolds(less, s[0], Sort(less, s[1..]), y);
      assert s == [s[0]] + s[1..];
    }
  }

  lemma {:induction false} SortSorts<T(!new)>(less: (T, T) -> bool, s: seq<T>)
    requires Asymmetric(less)
    ensures Sorted(less, Sort(less, s)) && |Sort(less, s)| == |s|
  {
    if s != [] {
      SortSorts(less, s[1..]);
      InsertSorts(less, s[0], Sort(less, s[1..]));
    }
  }
}
