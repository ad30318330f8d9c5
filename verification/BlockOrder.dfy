/** The order of transactions in a block, and outputs spent twice in it. */
module BlockOrder {
  import opened Words
  import opened Sorting

  datatype Point = Point(hash: seq<byte>, index: uint32)
  datatype Transaction = Transaction(hash: seq<byte>, prevouts: seq<Point>)

  // The order of points.

  /** Byte by byte, a shorter string first. */
  predicate BytesLess(a: seq<byte>, b: seq<byte>) {
    b != [] && (a == [] || a[0] < b[0] || (a[0] == b[0] && BytesLess(a[1..], b[1..])))
  }

  predicate Less(a: Point, b: Point) {
    if a.index == b.index then BytesLess(a.hash, b.hash) else a.index < b.index
  }

  lemma {:induction false} BytesOrder(a: seq<byte>, b: seq<byte>)
    ensures BytesLess(a, b) <==> a != b && !BytesLess(b, a)
  {
    if a != [] && b != [] && a[0] == b[0] {
      BytesOrder(a[1..], b[1..]);
      assert a == [a[0]] + a[1..] && b == [b[0]] + b[1..];
    }
  }

  lemma {:induction false} BytesTransitive(a: seq<byte>, b: seq<byte>, c: seq<byte>)
    requires BytesLess(a, b) && BytesLess(b, c)
    ensures BytesLess(a, c)
  {
    if a != [] && b != [] && c != [] && a[0] == b[0] == c[0] {
      BytesTransitive(a[1..], b[1..], c[1..]);
    }
  }

  /** The first bytes that differ decide. */
  lemma {:induction false} BytesDecide(a: seq<byte>, b: seq<byte>, k: nat)
    requires k < |a| && k < |b| && a[..k] == b[..k] && a[k] < b[k]
    ensures BytesLess(a, b)
  {
    if k > 0 {
      assert a[0] == a[..k][0] == b[..k][0] == b[0];
      assert a[1..][..k - 1] == a[..k][1..] && b[1..][..k - 1] == b[..k][1..];
      BytesDecide(a[1..], b[1..], k - 1);
    }
  }

  /** The index decides, and between equal indexes the first bytes of the hashes that differ. */
  lemma PointDecide(a: Point, b: Point, k: nat)
    ensures a.index < b.index ==> Less(a, b)
    ensures a.index == b.index && k < |a.hash| && k < |b.hash| && a.hash[..k] == b.hash[..k] && a.hash[k] < b.hash[k]
        ==> Less(a, b)
  {
    hide BytesLess;
    if k < |a.hash| && k < |b.hash| && a.hash[..k] == b.hash[..k] && a.hash[k] < b.hash[k] {
      BytesDecide(a.hash, b.hash, k);
    }
  }

  /** A strict total order: of two points, exactly one of less, equal and greater holds. */
  lemma PointOrder(a: Point, b: Point)
    ensures Less(a, b) <==> a != b && !Less(b, a)
  {
    hide BytesLess;
    BytesOrder(a.hash, b.hash);
  }

  lemma PointTransitive(a: Point, b: Point, c: Point)
    requires Less(a, b) && Less(b, c)
    ensures Less(a, c)
  {
    hide BytesLess;
    if a.index == b.index == c.index {
      BytesTransitive(a.hash, b.hash, c.hash);
    }
  }

  // Sorting and duplicates.

  ghost predicate Distinct(s: seq<Point>) {
    s == [] || (s[0] !in s[1..] && Distinct(s[1..]))
  }

  lemma {:induction false} DistinctIsPairwise(s: seq<Point>)
    ensures Distinct(s) <==> forall i, j :: 0 <= i < j < |s| ==> s[i] != s[j]
  {
    if s != [] {
      DistinctIsPairwise(s[1..]);
      if Distinct(s) {
        forall i, j | 0 <= i < j < |s| ensures s[i] != s[j] {
          if i == 0 {
            assert s[j] == s[1..][j - 1];
          } else {
            assert s[i] == s[1..][i - 1] && s[j] == s[1..][j - 1];
          }
        }
      } else if forall i, j :: 0 <= i < j < |s| ==> s[i] != s[j] {
        forall k | 0 <= k < |s[1..]| ensures s[1..][k] != s[0] {
          assert s[0] != s[k + 1];
        }
        forall i, j | 0 <= i < j < |s[1..]| ensures s[1..][i] != s[1..][j] {
          assert s[i + 1] != s[j + 1];
        }
        assert false;
      }
    }
  }

  lemma {:induction false} InsertDistinct(x: Point, s: seq<Point>)
    ensures Distinct(Insert(Less, x, s)) <==> x !in s && Distinct(s)
  {
    hide Less;
    if s == [] || !Less(s[0], x) {
      assert ([x] + s)[1..] == s;
    } else {
      InsertDistinct(x, s[1..]);
      InsertHolds(Less, x, s[1..], s[0]);
      assert ([s[0]] + Insert(Less, x, s[1..]))[1..] == Insert(Less, x, s[1..]);
      assert s == [s[0]] + s[1..];
    }
  }

  lemma PointsAsymmetric()
    ensures Asymmetric(Less)
  {
    hide Less;
    forall a, b | Less(a, b) ensures !Less(b, a) {
      PointOrder(a, b);
    }
  }

  lemma {:induction false} SortDistinct(s: seq<Point>)
    ensures Distinct(Sort(Less, s)) <==> Distinct(s)
  {
    hide Insert;
    if s != [] {
      SortDistinct(s[1..]);
      InsertDistinct(s[0], Sort(Less, s[1..]));
      SortHolds(Less, s[1..], s[0]);
    }
  }

  ghost predicate NoNeighboursEqual(s: seq<Point>) {
    forall i :: 1 <= i < |s| ==> s[i - 1] != s[i]
  }

  lemma {:induction false} SortedHeadLess(s: seq<Point>, k: nat)
    requires Sorted(Less, s) && NoNeighboursEqual(s) && 0 < k < |s|
    ensures Less(s[0], s[k])
  {
    hide Less;
    PointOrder(s[0], s[1]);
    if k > 1 {
      assert NoNeighboursEqual(s[1..]) by {
        forall i | 1 <= i < |s[1..]| ensures s[1..][i - 1] != s[1..][i] {
          assert s[i] != s[i + 1];
        }
      }
      SortedHeadLess(s[1..], k - 1);
      PointTransitive(s[0], s[1], s[k]);
    }
  }

  /** In a sorted list it is enough to look at neighbours. */
  lemma {:induction false} NeighboursDecide(s: seq<Point>)
    requires Sorted(Less, s)
    ensures NoNeighboursEqual(s) <==> Distinct(s)
  {
    hide Less;
    DistinctIsPairwise(s);
    if NoNeighboursEqual(s) && s != [] {
      assert NoNeighboursEqual(s[1..]) by {
        forall i | 1 <= i < |s[1..]| ensures s[1..][i - 1] != s[1..][i] {
          assert s[i] != s[i + 1];
        }
      }
      NeighboursDecide(s[1..]);
      forall k | 0 <= k < |s[1..]| ensures s[1..][k] != s[0] {
        SortedHeadLess(s, k + 1);
        PointOrder(s[0], s[k + 1]);
      }
    }
  }

  // The checks.

  /** The previous outputs of all transactions, in order. */
  function Merged(txs: seq<Transaction>): (r: seq<Point>) {
    if txs == [] then [] else Merged(txs[..|txs| - 1]) + txs[|txs| - 1].prevouts
  }

  /** Sorting and comparing neighbours finds an output spent twice by the transactions after the
      first, exactly when there is one. */
  method IsInternalDoubleSpend(txs: seq<Transaction>) returns (r: bool)
    ensures txs == [] ==> !r
    ensures txs != [] ==> (var points := Merged(txs[1..]);
                           r <==> exists i, j :: 0 <= i < j < |points| && points[i] == points[j])
  {
    if txs == [] {
      return false;
    }
    hide Less, Sort;
    var outs := [];
    var t := 1;
    while t < |txs|
      invariant 1 <= t <= |txs| && outs == Merged(txs[1..t])
    {
      assert txs[1..t + 1][..t - 1] == txs[1..t];
      outs := outs + txs[t].prevouts;
      t := t + 1;
    }
    assert txs[1..t] == txs[1..];
    var sorted := Sort(Less, outs);
    PointsAsymmetric();
    SortSorts(Less, outs);
    SortDistinct(outs);
    NeighboursDecide(sorted);
    DistinctIsPairwise(outs);
    var i := 1;
    while i < |sorted|
      invariant 1 <= i
      invariant forall k :: 1 <= k < i && k < |sorted| ==> sorted[k - 1] != sorted[k]
    {
      if sorted[i - 1] == sorted[i] {
        assert !NoNeighboursEqual(sorted);
        return true;
      }
      i := i + 1;
    }
    assert NoNeighboursEqual(sorted);
    return false;
  }

  /** Every input that names a transaction of the block names only strictly earlier ones. */
  ghost predicate BackwardOnly(txs: seq<Transaction>) {
    forall i, p, j :: 0 <= i < |txs| && p in txs[i].prevouts && 0 <= j < |txs| && txs[j].hash == p.hash ==> j < i
  }

  /** From the last transaction back, collecting hashes. */
  method IsForwardReference(txs: seq<Transaction>) returns (r: bool)
    ensures r <==> !BackwardOnly(txs)
  {
    var hashes: set<seq<byte>> := {};
    var i := |txs|;
    while i > 0
      invariant 0 <= i <= |txs|
      invariant forall h :: h in hashes <==> exists j :: i <= j < |txs| && txs[j].hash == h
      invariant forall k, p, j :: i <= k < |txs| && p in txs[k].prevouts && k <= j < |txs| ==> txs[j].hash != p.hash
    {
      i := i - 1;
      hashes := hashes + {txs[i].hash};
      var found := AnyIn(txs[i].prevouts, hashes);
      if found {
        return true;
      }
    }
    return false;
  }

  method AnyIn(points: seq<Point>, hashes: set<seq<byte>>) returns (r: bool)
    ensures r <==> exists p :: p in points && p.hash in hashes
  {
    var i := 0;
    while i < |points|
      invariant 0 <= i <= |points| && forall p :: p in points[..i] ==> p.hash !in hashes
    {
      if points[i].hash in hashes {
        return true;
      }
      i := i + 1;
    }
    assert points[..i] == points;
    return false;
  }
}
