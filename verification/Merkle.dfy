/** The Merkle root of a block, over any pair hash. */
module Merkle {
  import opened Arithmetic

  /** One level up: neighbours are paired, and a last one without a neighbour with itself. */
  function Next<T>(hash: (T, T) -> T, xs: seq<T>): (r: seq<T>)
    ensures |r| == (|xs| + 1) / 2
  {
    seq((|xs| + 1) / 2, p requires 0 <= p < (|xs| + 1) / 2 =>
      hash(xs[2 * p], if 2 * p + 1 < |xs| then xs[2 * p + 1] else xs[2 * p]))
  }

  function Root<T>(hash: (T, T) -> T, xs: seq<T>): (r: T)
    requires xs != []
    decreases |xs|
  {
    if |xs| == 1 then xs[0] else Root(hash, Next(hash, xs))
  }

  // The tree by height and position.

  /** ceil(n / 2^height) */
  function Width(n: nat, height: nat): (r: nat) {
    (n + Pow(2, height) - 1) / Pow(2, height)
  }

  lemma CeilingHalves(n: nat, p: nat, w: nat)
    requires p > 0 && p * w <= n + p - 1 < p * w + p
    ensures 2 * p * ((w + 1) / 2) <= n + 2 * p - 1 < 2 * p * ((w + 1) / 2) + 2 * p
  {
    var h := (w + 1) / 2;
    var q := p * h;
    assert 2 * p * h == 2 * q;
    if w % 2 == 0 {
      assert p * w == 2 * q by { assert w == 2 * h; }
    } else {
      assert p * w == 2 * q - p by { assert w == 2 * h - 1; }
    }
  }

  lemma WidthUp(n: nat, height: nat)
    ensures Width(n, height + 1) == (Width(n, height) + 1) / 2
  {
    hide Pow;
    var p := Pow(2, height);
    PowSucc(2, height);
    WidthUpBy(n, p);
  }

  lemma WidthUpBy(n: nat, p: nat)
    requires p > 0
    ensures (n + 2 * p - 1) / (2 * p) == ((n + p - 1) / p + 1) / 2
  {
    var w := (n + p - 1) / p;
    DivBelow(n + p - 1, p, w + 1);
    QuotientBelow(n + p - 1, p);
    CeilingHalves(n, p, w);
    DivUnique(n + 2 * p - 1, 2 * p, (w + 1) / 2);
  }

  lemma QuotientBelow(x: nat, p: nat)
    requires p > 0
    ensures p * (x / p) <= x
  {
  }

  function TreeHash<T>(hash: (T, T) -> T, leaves: seq<T>, height: nat, position: nat): (r: T)
    requires position < Width(|leaves|, height)
    decreases height
  {
    if height == 0 then leaves[position] else
    WidthUp(|leaves|, height - 1);
    var left := TreeHash(hash, leaves, height - 1, 2 * position);
    var right := if 2 * position + 1 < Width(|leaves|, height - 1)
                 then TreeHash(hash, leaves, height - 1, 2 * position + 1) else left;
    hash(left, right)
  }

  ghost predicate IsLevel<T>(hash: (T, T) -> T, leaves: seq<T>, height: nat, xs: seq<T>) {
    && |xs| == Width(|leaves|, height)
    && forall p :: 0 <= p < |xs| ==> xs[p] == TreeHash(hash, leaves, height, p)
  }

  lemma {:induction false} NextIsLevel<T>(hash: (T, T) -> T, leaves: seq<T>, height: nat, xs: seq<T>)
    requires IsLevel(hash, leaves, height, xs)
    ensures IsLevel(hash, leaves, height + 1, Next(hash, xs))
  {
    hide Width;
    WidthUp(|leaves|, height);
    forall p | 0 <= p < (|xs| + 1) / 2 ensures Next(hash, xs)[p] == TreeHash(hash, leaves, height + 1, p) {
      assert xs[2 * p] == TreeHash(hash, leaves, height, 2 * p);
      if 2 * p + 1 < |xs| {
        assert xs[2 * p + 1] == TreeHash(hash, leaves, height, 2 * p + 1);
      }
    }
  }

  /** The smallest height of width one. */
  function TreeHeight(n: nat): (r: nat)
    requires n >= 1
  {
    if n == 1 then 0 else 1 + TreeHeight((n + 1) / 2)
  }

  lemma {:induction false} LevelRoot<T>(hash: (T, T) -> T, leaves: seq<T>, height: nat, xs: seq<T>)
    requires IsLevel(hash, leaves, height, xs) && xs != []
    ensures var top := height + TreeHeight(|xs|);
            Width(|leaves|, top) == 1 && Root(hash, xs) == TreeHash(hash, leaves, top, 0)
    decreases |xs|
  {
    hide Width, TreeHash;
    if |xs| > 1 {
      NextIsLevel(hash, leaves, height, xs);
      LevelRoot(hash, leaves, height + 1, Next(hash, xs));
    }
  }

  /** The root is the hash at the top of the tree. */
  lemma {:induction false} RootIsTreeHash<T>(hash: (T, T) -> T, leaves: seq<T>)
    requires leaves != []
    ensures var top := TreeHeight(|leaves|);
            Width(|leaves|, top) == 1 && Root(hash, leaves) == TreeHash(hash, leaves, top, 0)
  {
    assert Width(|leaves|, 0) == |leaves|;
    LevelRoot(hash, leaves, 0, leaves);
  }

  // What a root commits to in general: the leaves of the full tree that is really hashed.

  /** The leaves below a node, the left half repeated where there is no right one. */
  ghost function Padded<T>(leaves: seq<T>, height: nat, position: nat): (r: seq<T>)
    requires position < Width(|leaves|, height)
    ensures |r| == Pow(2, height)
    decreases height
  {
    if height == 0 then [leaves[position]] else
    WidthUp(|leaves|, height - 1);
    var left := Padded(leaves, height - 1, 2 * position);
    left + if 2 * position + 1 < Width(|leaves|, height - 1)
           then Padded(leaves, height - 1, 2 * position + 1) else left
  }

  /** The right child of a node, or the left one where there is none. */
  function RightOf(n: nat, height: nat, p: nat): (r: nat) {
    if 2 * p + 1 < Width(n, height) then 2 * p + 1 else 2 * p
  }

  lemma LeafNode<T>(hash: (T, T) -> T, xs: seq<T>, p: nat)
    requires p < Width(|xs|, 0)
    ensures p < |xs| && TreeHash(hash, xs, 0, p) == xs[p] && Padded(xs, 0, p) == [xs[p]]
  {
  }

  lemma InnerNode<T>(hash: (T, T) -> T, xs: seq<T>, h: nat, p: nat)
    requires p < Width(|xs|, h + 1)
    ensures var right := RightOf(|xs|, h, p);
            && 2 * p < Width(|xs|, h) && right < Width(|xs|, h)
            && TreeHash(hash, xs, h + 1, p) == hash(TreeHash(hash, xs, h, 2 * p), TreeHash(hash, xs, h, right))
            && Padded(xs, h + 1, p) == Padded(xs, h, 2 * p) + Padded(xs, h, right)
  {
    hide Width;
    WidthUp(|xs|, h);
  }

  /** Inner nodes of one height, one of each tree, that hash alike from different children. */
  ghost predicate ClashAt<T>(hash: (T, T) -> T, xs: seq<T>, ys: seq<T>, h: nat, p: nat, q: nat) {
    && p < Width(|xs|, h + 1) && q < Width(|ys|, h + 1)
    && InChildren(|xs|, h, p) && InChildren(|ys|, h, q)
    && TreeHash(hash, xs, h + 1, p) == TreeHash(hash, ys, h + 1, q)
    && (|| TreeHash(hash, xs, h, 2 * p) != TreeHash(hash, ys, h, 2 * q)
        || TreeHash(hash, xs, h, RightOf(|xs|, h, p)) != TreeHash(hash, ys, h, RightOf(|ys|, h, q)))
  }

  predicate InChildren(n: nat, h: nat, p: nat) {
    2 * p < Width(n, h) && RightOf(n, h, p) < Width(n, h)
  }

  /** A collision of the pair hash among what the two trees hash up to a height. */
  ghost predicate Clash<T>(hash: (T, T) -> T, xs: seq<T>, ys: seq<T>, top: nat) {
    exists h, p, q :: 0 <= h < top && ClashAt(hash, xs, ys, h, p, q)
  }

  /** Two nodes of one height over the same full leaves hash alike, and two that hash alike cover the
      same full leaves unless the trees clash. */
  lemma {:induction false} NodesAgree<T>(hash: (T, T) -> T, xs: seq<T>, ys: seq<T>, height: nat, p: nat, q: nat)
    requires p < Width(|xs|, height) && q < Width(|ys|, height)
    ensures Padded(xs, height, p) == Padded(ys, height, q)
        ==> TreeHash(hash, xs, height, p) == TreeHash(hash, ys, height, q)
    ensures TreeHash(hash, xs, height, p) == TreeHash(hash, ys, height, q)
        ==> Padded(xs, height, p) == Padded(ys, height, q) || Clash(hash, xs, ys, height)
    decreases height
  {
    hide Width, Pow, Padded, TreeHash, RightOf;
    if height == 0 {
      LeafNode(hash, xs, p);
      LeafNode(hash, ys, q);
    } else {
      var h := height - 1;
      InnerNode(hash, xs, h, p);
      InnerNode(hash, ys, h, q);
      var p', q' := RightOf(|xs|, h, p), RightOf(|ys|, h, q);
      NodesAgree(hash, xs, ys, h, 2 * p, 2 * q);
      NodesAgree(hash, xs, ys, h, p', q');
      HalvesAgree(Padded(xs, h, 2 * p), Padded(xs, h, p'), Padded(ys, h, 2 * q), Padded(ys, h, q'));
      if !Clash(hash, xs, ys, height) {
        NoClashBelow(hash, xs, ys, height);
        assert !ClashAt(hash, xs, ys, h, p, q);
      }
    }
  }

  lemma NoClashBelow<T>(hash: (T, T) -> T, xs: seq<T>, ys: seq<T>, top: nat)
    requires top > 0 && !Clash(hash, xs, ys, top)
    ensures !Clash(hash, xs, ys, top - 1)
  {
    hide ClashAt;
  }

  lemma HalvesAgree<T>(a: seq<T>, b: seq<T>, c: seq<T>, d: seq<T>)
    requires |a| == |c|
    ensures a + b == c + d <==> a == c && b == d
  {
    if a + b == c + d {
      assert a == (a + b)[..|a|] && b == (a + b)[|a|..];
      assert c == (c + d)[..|c|] && d == (c + d)[|c|..];
    }
  }

  /** A level of the tree as a list. */
  function Up<T>(hash: (T, T) -> T, xs: seq<T>, levels: nat): (r: seq<T>)
    decreases levels
  {
    if levels == 0 then xs else Up(hash, Next(hash, xs), levels - 1)
  }

  lemma {:induction false} UpKeepsRoot<T>(hash: (T, T) -> T, xs: seq<T>, levels: nat)
    requires xs != [] && levels <= TreeHeight(|xs|)
    ensures Up(hash, xs, levels) != [] && Root(hash, Up(hash, xs, levels)) == Root(hash, xs)
    ensures TreeHeight(|Up(hash, xs, levels)|) == TreeHeight(|xs|) - levels
    decreases levels
  {
    hide Root, Next;
    if levels > 0 {
      RootStep(hash, xs);
      UpKeepsRoot(hash, Next(hash, xs), levels - 1);
    }
  }

  /** Any two lists have one root when the full leaves of the lower tree are the full leaves of the
      level of the higher tree at its height, and only then unless the two trees clash; for trees of
      one height that is when their full leaves are the same. */
  lemma {:induction false} RootsAgree<T>(hash: (T, T) -> T, xs: seq<T>, ys: seq<T>)
    requires xs != [] && ys != [] && TreeHeight(|xs|) <= TreeHeight(|ys|)
    ensures var top := TreeHeight(|xs|);
            var level := Up(hash, ys, TreeHeight(|ys|) - top);
            && Width(|xs|, top) == 1 && Width(|level|, top) == 1
            && (Padded(xs, top, 0) == Padded(level, top, 0) ==> Root(hash, xs) == Root(hash, ys))
            && (Root(hash, xs) == Root(hash, ys)
                ==> Padded(xs, top, 0) == Padded(level, top, 0) || Clash(hash, xs, level, top))
  {
    hide Width, Padded, TreeHash, Root, Up, Clash;
    var top := TreeHeight(|xs|);
    var level := Up(hash, ys, TreeHeight(|ys|) - top);
    UpKeepsRoot(hash, ys, TreeHeight(|ys|) - top);
    RootIsTreeHash(hash, xs);
    RootIsTreeHash(hash, level);
    NodesAgree(hash, xs, level, top, 0, 0);
  }

  /** Without a clash equal levels of trees of one width come from equal leaves. */
  lemma {:induction false} LevelCommits<T>(hash: (T, T) -> T, xs: seq<T>, ys: seq<T>, height: nat)
    requires |xs| == |ys| && !Clash(hash, xs, ys, height)
    requires forall p :: 0 <= p < Width(|xs|, height)
               ==> TreeHash(hash, xs, height, p) == TreeHash(hash, ys, height, p)
    ensures xs == ys
    decreases height
  {
    if height == 0 {
      assert Width(|xs|, 0) == |xs|;
      assert forall p :: 0 <= p < |xs| ==> TreeHash(hash, xs, 0, p) == xs[p];
    } else {
      hide Width, TreeHash, ClashAt;
      var h := height - 1;
      NoClashBelow(hash, xs, ys, height);
      forall r | 0 <= r < Width(|xs|, h) ensures TreeHash(hash, xs, h, r) == TreeHash(hash, ys, h, r) {
        ChildCommits(hash, xs, ys, height, r);
      }
      LevelCommits(hash, xs, ys, h);
    }
  }

  lemma ChildCommits<T>(hash: (T, T) -> T, xs: seq<T>, ys: seq<T>, height: nat, r: nat)
    requires height > 0 && |xs| == |ys| && !Clash(hash, xs, ys, height) && r < Width(|xs|, height - 1)
    requires forall p :: 0 <= p < Width(|xs|, height)
               ==> TreeHash(hash, xs, height, p) == TreeHash(hash, ys, height, p)
    ensures TreeHash(hash, xs, height - 1, r) == TreeHash(hash, ys, height - 1, r)
  {
    hide Width, TreeHash, Padded;
    var p, h := r / 2, height - 1;
    WidthUp(|xs|, h);
    InnerNode(hash, xs, h, p);
    InnerNode(hash, ys, h, p);
    assert !ClashAt(hash, xs, ys, h, p, p);
    assert r == 2 * p || r == RightOf(|xs|, h, p);
  }

  /** Lists of one length and one root are the same list, or the two trees clash. */
  lemma {:induction false} RootCommits<T>(hash: (T, T) -> T, xs: seq<T>, ys: seq<T>)
    requires |xs| == |ys| > 0 && Root(hash, xs) == Root(hash, ys)
    ensures xs == ys || Clash(hash, xs, ys, TreeHeight(|xs|))
  {
    hide Clash, Root, TreeHash, Width;
    RootIsTreeHash(hash, xs);
    RootIsTreeHash(hash, ys);
    if !Clash(hash, xs, ys, TreeHeight(|xs|)) {
      LevelCommits(hash, xs, ys, TreeHeight(|xs|));
    }
  }

  /** Lists of different heights can agree. */
  lemma PairSameRoot<T>(hash: (T, T) -> T, a: T, b: T)
    ensures Root(hash, [a, b]) == Root(hash, [hash(a, b)])
  {
    assert Next(hash, [a, b]) == [hash(a, b)];
  }

  /** A list of at least three times 2^k elements, in an odd number of runs of that length. */
  predicate OddRuns(n: nat, k: nat) {
    if k == 0 then n > 1 && n % 2 == 1 else n % 2 == 0 && OddRuns(n / 2, k - 1)
  }

  lemma {:induction false} RunsFit(n: nat, k: nat)
    requires OddRuns(n, k)
    ensures n > Pow(2, k)
  {
    if k > 0 { RunsFit(n / 2, k - 1); }
  }

  /** So can lists of one height: repeating the last run of such a list keeps its root. */
  lemma {:induction false} RepeatedRunSameRoot<T>(hash: (T, T) -> T, xs: seq<T>, k: nat)
    requires OddRuns(|xs|, k)
    ensures Pow(2, k) < |xs| && Root(hash, xs + xs[|xs| - Pow(2, k)..]) == Root(hash, xs)
    decreases k
  {
    hide Root, Next;
    RunsFit(|xs|, k);
    var run := xs[|xs| - Pow(2, k)..];
    RootStep(hash, xs);
    RootStep(hash, xs + run);
    if k == 0 {
      assert run == [xs[|xs| - 1]];
      NextRepeats(hash, xs);
    } else {
      PowSucc(2, k - 1);
      RepeatedRunSameRoot(hash, Next(hash, xs), k - 1);
      NextOfRun(hash, xs, Pow(2, k - 1));
    }
  }

  lemma {:induction false} NextOfRun<T>(hash: (T, T) -> T, xs: seq<T>, half: nat)
    requires |xs| % 2 == 0 && 2 * half <= |xs|
    ensures |Next(hash, xs)| == |xs| / 2
    ensures Next(hash, xs + xs[|xs| - 2 * half..]) == Next(hash, xs) + Next(hash, xs)[|xs| / 2 - half..]
  {
    var longer := xs + xs[|xs| - 2 * half..];
    forall p | 0 <= p < (|longer| + 1) / 2
      ensures Next(hash, longer)[p] == (Next(hash, xs) + Next(hash, xs)[|xs| / 2 - half..])[p]
    {
      if p >= |xs| / 2 {
        assert longer[2 * p] == xs[2 * (p - half)] && longer[2 * p + 1] == xs[2 * (p - half) + 1];
      }
    }
  }

  lemma {:induction false} NextRepeats<T>(hash: (T, T) -> T, xs: seq<T>)
    requires |xs| % 2 == 1
    ensures Next(hash, xs + [xs[|xs| - 1]]) == Next(hash, xs)
  {
  }

  lemma {:induction false} RootStep<T>(hash: (T, T) -> T, xs: seq<T>)
    requires |xs| > 1
    ensures Root(hash, xs) == Root(hash, Next(hash, xs))
  {
  }

  /** The loop: the list is made even, paired into a second list, and the two are swapped. */
  method GenerateMerkleRoot<T>(hash: (T, T) -> T, leaves: seq<T>, nullHash: T) returns (root: T)
    ensures leaves == [] ==> root == nullHash
    ensures leaves != [] ==> root == Root(hash, leaves)
  {
    if leaves == [] {
      return nullHash;
    }
    var merkle := leaves;
    while |merkle| > 1
      invariant merkle != [] && Root(hash, merkle) == Root(hash, leaves)
      decreases |merkle|
    {
      merkle := PairUp(hash, merkle);
    }
    root := merkle[0];
  }

  method PairUp<T>(hash: (T, T) -> T, level: seq<T>) returns (update: seq<T>)
    requires |level| > 1
    ensures update == Next(hash, level)
  {
    var merkle := level;
    if |merkle| % 2 != 0 {
      merkle := merkle + [merkle[|merkle| - 1]];
    }
    update := [];
    var it := 0;
    while it < |merkle|
      invariant 0 <= it <= |merkle| && it % 2 == 0 && |update| == it / 2
      invariant forall p :: 0 <= p < |update| ==> update[p] == Next(hash, level)[p]
    {
      update := update + [hash(merkle[it], merkle[it + 1])];
      it := it + 2;
    }
  }
}
