/**
 * Filtering, counting and grouping as the generator does them with arrays and
 * plain objects. A JavaScript object used as a dictionary (`categories[key]`)
 * keeps its string keys in insertion order, so a grouping is a sequence of
 * (key, items) pairs in the order the keys were first met.
 */
module Collections {
  import opened Types

  /** `xs.filter(p)`. Defined from the last element so that a loop over a prefix extends it one step at a time. */
  function Filter<T>(xs: seq<T>, p: T -> bool): (r: seq<T>)
    ensures |r| <= |xs|
    ensures forall i :: 0 <= i < |r| ==> p(r[i])
    ensures forall i :: 0 <= i < |xs| && p(xs[i]) ==> xs[i] in r
    ensures forall x :: x in r ==> x in xs
  {
    if xs == [] then []
    else Filter(xs[..|xs| - 1], p) + (if p(xs[|xs| - 1]) then [xs[|xs| - 1]] else [])
  }

  lemma {:induction false} FilterAppend<T>(xs: seq<T>, ys: seq<T>, p: T -> bool)
    ensures Filter(xs + ys, p) == Filter(xs, p) + Filter(ys, p)
    decreases |ys|
  {
    if ys == [] {
      assert xs + ys == xs;
    } else {
      assert (xs + ys)[..|xs + ys| - 1] == xs + ys[..|ys| - 1];
      FilterAppend(xs, ys[..|ys| - 1], p);
    }
  }

  /** A prefix one longer is the prefix and the next element. */
  lemma PrefixSnoc<T>(xs: seq<T>, i: nat)
    requires i < |xs|
    ensures xs[..i + 1] == xs[..i] + [xs[i]]
  {
  }

  /** A filtered prefix one longer gains the next element when it passes. */
  lemma FilterStep<T>(xs: seq<T>, i: nat, p: T -> bool)
    requires i < |xs|
    ensures Filter(xs[..i + 1], p) == Filter(xs[..i], p) + (if p(xs[i]) then [xs[i]] else [])
  {
    assert xs[..i + 1][..i] == xs[..i];
  }

  /** Filters that agree on every item keep the same items. */
  lemma {:induction false} FilterSame<T>(xs: seq<T>, p: T -> bool, q: T -> bool)
    requires forall x :: p(x) == q(x)
    ensures Filter(xs, p) == Filter(xs, q)
  {
    if xs != [] {
      FilterSame(xs[..|xs| - 1], p, q);
    }
  }

  /** Nothing passes, nothing is kept. */
  lemma {:induction false} FilterNone<T>(xs: seq<T>, p: T -> bool)
    requires forall i :: 0 <= i < |xs| ==> !p(xs[i])
    ensures Filter(xs, p) == []
  {
    if xs != [] {
      var init := xs[..|xs| - 1];
      assert forall i :: 0 <= i < |init| ==> init[i] == xs[i];
      FilterNone(init, p);
    }
  }

  /** `xs.map(f)`, defined from the last element like `Filter`. */
  function Map<A, B>(xs: seq<A>, f: A -> B): (r: seq<B>)
    ensures |r| == |xs|
    ensures forall i :: 0 <= i < |xs| ==> r[i] == f(xs[i])
  {
    if xs == [] then [] else Map(xs[..|xs| - 1], f) + [f(xs[|xs| - 1])]
  }

  /** A mapped prefix one longer gains the image of the next element. */
  lemma MapStep<A, B>(xs: seq<A>, f: A -> B, i: nat)
    requires i < |xs|
    ensures Map(xs[..i + 1], f) == Map(xs[..i], f) + [f(xs[i])]
  {
    assert xs[..i + 1][..i] == xs[..i];
  }

  /** Every item that passes the filter has its image in the mapped result. */
  lemma MapFilterCovers<A, B>(xs: seq<A>, p: A -> bool, f: A -> B, i: nat)
    requires i < |xs| && p(xs[i])
    ensures f(xs[i]) in Map(Filter(xs, p), f)
  {
    var ys := Filter(xs, p);
    var k :| 0 <= k < |ys| && ys[k] == xs[i];
    assert Map(ys, f)[k] == f(xs[i]);
  }

  /** Every result of the mapped filter is the image of an item that passes it. */
  lemma MapFilterFrom<A, B>(xs: seq<A>, p: A -> bool, f: A -> B, k: nat)
    requires k < |Map(Filter(xs, p), f)|
    ensures exists i :: 0 <= i < |xs| && p(xs[i]) && Map(Filter(xs, p), f)[k] == f(xs[i])
  {
    var ys := Filter(xs, p);
    assert ys[k] in xs;
    var i :| 0 <= i < |xs| && xs[i] == ys[k];
    assert p(xs[i]);
  }

  /** The items `f` gives for each element, concatenated in order: a loop that pushes zero or more items per element. */
  function Collect<A, B>(xs: seq<A>, f: A -> seq<B>): seq<B> {
    if xs == [] then [] else Collect(xs[..|xs| - 1], f) + f(xs[|xs| - 1])
  }

  lemma CollectStep<A, B>(xs: seq<A>, f: A -> seq<B>, i: nat)
    requires i < |xs|
    ensures Collect(xs[..i + 1], f) == Collect(xs[..i], f) + f(xs[i])
  {
    assert xs[..i + 1][..i] == xs[..i];
  }

  /** Each collected item comes from some element. */
  lemma {:induction false} CollectFrom<A, B>(xs: seq<A>, f: A -> seq<B>)
    ensures forall y :: y in Collect(xs, f) ==> exists i :: 0 <= i < |xs| && y in f(xs[i])
  {
    if xs != [] {
      var init := xs[..|xs| - 1];
      CollectFrom(init, f);
      forall y | y in Collect(xs, f)
        ensures exists i :: 0 <= i < |xs| && y in f(xs[i])
      {
        if y in Collect(init, f) {
          var i :| 0 <= i < |init| && y in f(init[i]);
          assert xs[i] == init[i];
        } else {
          assert y in f(xs[|xs| - 1]);
        }
      }
    }
  }

  /** Every item of every element is collected. */
  lemma {:induction false} CollectCovers<A, B>(xs: seq<A>, f: A -> seq<B>)
    ensures forall i, y :: 0 <= i < |xs| && y in f(xs[i]) ==> y in Collect(xs, f)
  {
    if xs != [] {
      var init := xs[..|xs| - 1];
      CollectCovers(init, f);
      forall i, y | 0 <= i < |xs| && y in f(xs[i])
        ensures y in Collect(xs, f)
      {
        if i < |init| {
          assert xs[i] == init[i];
        }
      }
    }
  }

  /** At most one item per element gives at most one item per element in total. */
  lemma {:induction false} CollectLength<A, B>(xs: seq<A>, f: A -> seq<B>)
    requires forall i :: 0 <= i < |xs| ==> |f(xs[i])| <= 1
    ensures |Collect(xs, f)| <= |xs|
  {
    if xs != [] {
      var init := xs[..|xs| - 1];
      assert forall i :: 0 <= i < |init| ==> init[i] == xs[i];
      CollectLength(init, f);
    }
  }

  /** The first position from `i` below `n` where `p` holds, or `n` when there is none. */
  function FirstFrom(p: nat -> bool, i: nat, n: nat): (j: nat)
    requires i <= n
    ensures i <= j <= n
    ensures j < n ==> p(j)
    ensures forall k :: i <= k < j ==> !p(k)
    decreases n - i
  {
    if i == n || p(i) then i else FirstFrom(p, i + 1, n)
  }

  /** The items whose key is `k`, in order. */
  function Bucket<T, K(==,!new)>(xs: seq<T>, key: T -> K, k: K): (r: seq<T>)
    ensures |r| <= |xs|
    ensures forall i :: 0 <= i < |r| ==> key(r[i]) == k
    ensures r == [] <==> forall i :: 0 <= i < |xs| ==> key(xs[i]) != k
  {
    if xs == [] then []
    else Bucket(xs[..|xs| - 1], key, k) + (if key(xs[|xs| - 1]) == k then [xs[|xs| - 1]] else [])
  }

  lemma {:induction false} BucketWithin<T, K(!new)>(xs: seq<T>, key: T -> K, k: K)
    ensures forall x :: x in Bucket(xs, key, k) ==> x in xs
  {
    if xs != [] {
      BucketWithin(xs[..|xs| - 1], key, k);
    }
  }

  /** `xs.filter(x => key(x) === k)` is the bucket of `k`. */
  lemma {:induction false} BucketIsFilter<T, K(!new)>(xs: seq<T>, key: T -> K, k: K, p: T -> bool)
    requires forall x :: p(x) == (key(x) == k)
    ensures Filter(xs, p) == Bucket(xs, key, k)
  {
    if xs != [] {
      BucketIsFilter(xs[..|xs| - 1], key, k, p);
    }
  }

  /** The position of key `k` in a grouping, or the grouping's length when `k` has no group yet. */
  function KeyIndex<K(==,!new), V>(groups: seq<(K, V)>, k: K): (r: nat)
    ensures r <= |groups|
    ensures r < |groups| ==> groups[r].0 == k
    ensures forall j :: 0 <= j < r ==> groups[j].0 != k
  {
    if groups == [] then 0
    else if groups[0].0 == k then 0
    else 1 + KeyIndex(groups[1..], k)
  }

  predicate DistinctKeys<K(==,!new), V>(groups: seq<(K, V)>) {
    forall i, j :: 0 <= i < j < |groups| ==> groups[i].0 != groups[j].0
  }

  /** `if (!g[k]) g[k] = []; g[k].push(x)` on an insertion-ordered dictionary. */
  function Upsert<T, K(==,!new)>(groups: seq<(K, seq<T>)>, k: K, x: T): seq<(K, seq<T>)> {
    var j := KeyIndex(groups, k);
    if j < |groups| then groups[j := (k, groups[j].1 + [x])] else groups + [(k, [x])]
  }

  lemma BucketSnoc<T, K(!new)>(xs: seq<T>, x: T, key: T -> K, k: K)
    ensures Bucket(xs + [x], key, k) == Bucket(xs, key, k) + (if key(x) == k then [x] else [])
  {
    assert (xs + [x])[..|xs + [x]| - 1] == xs;
  }

  lemma {:induction false} KeyIndexSameKeys<K(!new), V, W>(g: seq<(K, V)>, h: seq<(K, W)>, k: K)
    requires |g| == |h| && forall i :: 0 <= i < |g| ==> g[i].0 == h[i].0
    ensures KeyIndex(g, k) == KeyIndex(h, k)
  {
    if g != [] && g[0].0 != k {
      KeyIndexSameKeys(g[1..], h[1..], k);
    }
  }

  lemma {:induction false} KeyIndexAppend<K(!new), V>(g: seq<(K, V)>, e: (K, V), k: K)
    ensures KeyIndex(g + [e], k) == if KeyIndex(g, k) < |g| then KeyIndex(g, k) else if e.0 == k then |g| else |g| + 1
  {
    if g != [] && g[0].0 != k {
      assert (g + [e])[1..] == g[1..] + [e];
      KeyIndexAppend(g[1..], e, k);
    }
  }

  /** One step of the grouping when the item's key already has a group. */
  lemma UpsertExisting<T, K(!new)>(g: seq<(K, seq<T>)>, xs: seq<T>, x: T, key: T -> K)
    requires DistinctKeys(g)
    requires forall i :: 0 <= i < |g| ==> g[i].1 == Bucket(xs, key, g[i].0) && g[i].1 != []
    requires forall k :: KeyIndex(g, k) < |g| <==> Bucket(xs, key, k) != []
    requires KeyIndex(g, key(x)) < |g|
    ensures var r := Upsert(g, key(x), x);
      && DistinctKeys(r)
      && (forall i :: 0 <= i < |r| ==> r[i].1 == Bucket(xs + [x], key, r[i].0) && r[i].1 != [])
      && (forall k :: KeyIndex(r, k) < |r| <==> Bucket(xs + [x], key, k) != [])
  {
    var kx := key(x);
    var j := KeyIndex(g, kx);
    var r := g[j := (kx, g[j].1 + [x])];
    assert Upsert(g, kx, x) == r;
    forall i | 0 <= i < |r| ensures r[i].1 == Bucket(xs + [x], key, r[i].0) && r[i].1 != [] {
      BucketSnoc(xs, x, key, r[i].0);
    }
    forall k ensures KeyIndex(r, k) < |r| <==> Bucket(xs + [x], key, k) != [] {
      KeyIndexSameKeys(g, r, k);
      BucketSnoc(xs, x, key, k);
    }
  }

  /** One step of the grouping when the item's key is new: it opens a group at the end. */
  lemma UpsertNew<T, K(!new)>(g: seq<(K, seq<T>)>, xs: seq<T>, x: T, key: T -> K)
    requires DistinctKeys(g)
    requires forall i :: 0 <= i < |g| ==> g[i].1 == Bucket(xs, key, g[i].0) && g[i].1 != []
    requires forall k :: KeyIndex(g, k) < |g| <==> Bucket(xs, key, k) != []
    requires KeyIndex(g, key(x)) == |g|
    ensures var r := Upsert(g, key(x), x);
      && DistinctKeys(r)
      && (forall i :: 0 <= i < |r| ==> r[i].1 == Bucket(xs + [x], key, r[i].0) && r[i].1 != [])
      && (forall k :: KeyIndex(r, k) < |r| <==> Bucket(xs + [x], key, k) != [])
  {
    var kx := key(x);
    var r := g + [(kx, [x])];
    assert Upsert(g, kx, x) == r;
    forall i | 0 <= i < |r| ensures r[i].1 == Bucket(xs + [x], key, r[i].0) && r[i].1 != [] {
      BucketSnoc(xs, x, key, r[i].0);
    }
    forall k ensures KeyIndex(r, k) < |r| <==> Bucket(xs + [x], key, k) != [] {
      KeyIndexAppend(g, (kx, [x]), k);
      BucketSnoc(xs, x, key, k);
    }
  }

  /**
   * The grouping of `xs` by `key`, item by item: each item is appended to the
   * group of its key, and a key met for the first time opens a group at the end.
   */
  function GroupBy<T, K(==,!new)>(xs: seq<T>, key: T -> K): seq<(K, seq<T>)> {
    if xs == [] then []
    else Upsert(GroupBy(xs[..|xs| - 1], key), key(xs[|xs| - 1]), xs[|xs| - 1])
  }

  /**
   * `GroupBy` against its meaning: one group per key, keys distinct, and each
   * group holds exactly the items with that key, in their order in `xs`.
   */
  lemma {:induction false} GroupByIsGrouping<T, K(!new)>(xs: seq<T>, key: T -> K)
    ensures var r := GroupBy(xs, key);
      && DistinctKeys(r)
      && (forall i :: 0 <= i < |r| ==> r[i].1 == Bucket(xs, key, r[i].0) && r[i].1 != [])
      && (forall k :: KeyIndex(r, k) < |r| <==> Bucket(xs, key, k) != [])
  {
    if xs != [] {
      var init := xs[..|xs| - 1];
      var x := xs[|xs| - 1];
      assert xs == init + [x];
      GroupByIsGrouping(init, key);
      var g := GroupBy(init, key);
      if KeyIndex(g, key(x)) < |g| {
        UpsertExisting(g, init, x, key);
      } else {
        UpsertNew(g, init, x, key);
      }
    }
  }

  function SumSizes<K, T>(groups: seq<(K, seq<T>)>): nat {
    if groups == [] then 0 else |groups[0].1| + SumSizes(groups[1..])
  }

  /** One group of the grouping: the items with its key. */
  lemma GroupAt<T, K(!new)>(xs: seq<T>, key: T -> K, m: nat)
    requires m < |GroupBy(xs, key)|
    ensures GroupBy(xs, key)[m].1 == Bucket(xs, key, GroupBy(xs, key)[m].0)
  {
    GroupByIsGrouping(xs, key);
  }

  lemma {:induction false} SumSizesUpdate<K, T>(groups: seq<(K, seq<T>)>, j: nat, g: (K, seq<T>))
    requires j < |groups|
    ensures SumSizes(groups[j := g]) == SumSizes(groups) - |groups[j].1| + |g.1|
  {
    if j > 0 {
      assert groups[j := g][1..] == groups[1..][j - 1 := g];
      SumSizesUpdate(groups[1..], j - 1, g);
    }
  }

  lemma {:induction false} SumSizesAppend<K, T>(groups: seq<(K, seq<T>)>, g: (K, seq<T>))
    ensures SumSizes(groups + [g]) == SumSizes(groups) + |g.1|
  {
    if groups != [] {
      assert (groups + [g])[1..] == groups[1..] + [g];
      SumSizesAppend(groups[1..], g);
    }
  }

  /** Grouping loses and invents nothing: the groups together hold as many items as the input. */
  lemma {:induction false} GroupByPartitions<T, K(!new)>(xs: seq<T>, key: T -> K)
    ensures SumSizes(GroupBy(xs, key)) == |xs|
  {
    if xs != [] {
      var init := xs[..|xs| - 1];
      var x := xs[|xs| - 1];
      var g := GroupBy(init, key);
      assert GroupBy(xs, key) == Upsert(g, key(x), x);
      GroupByPartitions(init, key);
      var j := KeyIndex(g, key(x));
      if j < |g| {
        SumSizesUpdate(g, j, (key(x), g[j].1 + [x]));
      } else {
        SumSizesAppend(g, (key(x), [x]));
      }
    }
  }

  /** Every item lands in the group of its own key. */
  lemma GroupByCovers<T, K(!new)>(xs: seq<T>, key: T -> K, i: nat)
    requires i < |xs|
    ensures KeyIndex(GroupBy(xs, key), key(xs[i])) < |GroupBy(xs, key)|
  {
    GroupByIsGrouping(xs, key);
    assert xs[i] in Bucket(xs, key, key(xs[i])) by {
      BucketHas(xs, key, i);
    }
  }

  lemma {:induction false} BucketHas<T, K(!new)>(xs: seq<T>, key: T -> K, i: nat)
    requires i < |xs|
    ensures xs[i] in Bucket(xs, key, key(xs[i]))
  {
    if i < |xs| - 1 {
      assert xs[..|xs| - 1][i] == xs[i];
      BucketHas(xs[..|xs| - 1], key, i);
    }
  }

  /**
   * The grouping loop of `organizeByCategory`, `generateFeaturesByStatus` and
   * `groupModelsByDomain`: walk the items once, look the key up among the
   * groups made so far and append the item to its group, or open a new group.
   */
  method Group<T, K(==,!new)>(xs: seq<T>, key: T -> K) returns (groups: seq<(K, seq<T>)>)
    ensures groups == GroupBy(xs, key)
  {
    groups := [];
    var i := 0;
    while i < |xs|
      invariant 0 <= i <= |xs|
      invariant groups == GroupBy(xs[..i], key)
    {
      var k := key(xs[i]);
      var j := 0;
      while j < |groups| && groups[j].0 != k
        invariant 0 <= j <= |groups|
        invariant forall m :: 0 <= m < j ==> groups[m].0 != k
      {
        j := j + 1;
      }
      assert j == KeyIndex(groups, k);
      if j < |groups| {
        groups := groups[j := (k, groups[j].1 + [xs[i]])];
      } else {
        groups := groups + [(k, [xs[i]])];
      }
      assert xs[..i + 1][..i] == xs[..i];
      assert GroupBy(xs[..i + 1], key) == Upsert(GroupBy(xs[..i], key), k, xs[i]);
      i := i + 1;
    }
    assert xs[..i] == xs;
  }

  /** The (key, count) pairs of a grouping. */
  function Sizes<K, T>(groups: seq<(K, seq<T>)>): (r: seq<(K, nat)>)
    ensures |r| == |groups|
    ensures forall i :: 0 <= i < |r| ==> r[i] == (groups[i].0, |groups[i].1|)
  {
    if groups == [] then [] else [(groups[0].0, |groups[0].1|)] + Sizes(groups[1..])
  }

  /** `counts[k] = (counts[k] || 0) + 1` on an insertion-ordered dictionary. */
  function Bump<K(==,!new)>(counts: seq<(K, nat)>, k: K): seq<(K, nat)> {
    var j := KeyIndex(counts, k);
    if j < |counts| then counts[j := (k, counts[j].1 + 1)] else counts + [(k, 1)]
  }

  lemma SizesKeyIndex<K(!new), T>(groups: seq<(K, seq<T>)>, k: K)
    ensures KeyIndex(Sizes(groups), k) == KeyIndex(groups, k)
  {
    if groups != [] && groups[0].0 != k {
      SizesKeyIndex(groups[1..], k);
    }
  }

  lemma SizesUpsert<K(!new), T>(groups: seq<(K, seq<T>)>, k: K, x: T)
    ensures Sizes(Upsert(groups, k, x)) == Bump(Sizes(groups), k)
  {
    SizesKeyIndex(groups, k);
    var j := KeyIndex(groups, k);
    var sz := Sizes(groups);
    if j < |groups| {
      var u := groups[j := (k, groups[j].1 + [x])];
      var b := sz[j := (k, sz[j].1 + 1)];
      assert Sizes(u) == b by {
        forall i | 0 <= i < |b| ensures Sizes(u)[i] == b[i] {
        }
      }
    } else {
      var u := groups + [(k, [x])];
      var b := sz + [(k, 1)];
      assert Sizes(u) == b by {
        forall i | 0 <= i < |b| ensures Sizes(u)[i] == b[i] {
        }
      }
    }
  }

  /** Counts per key, in first-met order: the sizes of the grouping by that key. */
  function CountBy<T, K(==,!new)>(xs: seq<T>, key: T -> K): (r: seq<(K, nat)>)
    ensures forall i :: 0 <= i < |r| ==> r[i].1 == |Bucket(xs, key, r[i].0)| && r[i].1 > 0
    ensures forall k :: KeyIndex(r, k) < |r| <==> Bucket(xs, key, k) != []
  {
    var g := GroupBy(xs, key);
    GroupByIsGrouping(xs, key);
    forall k ensures KeyIndex(Sizes(g), k) == KeyIndex(g, k) {
      SizesKeyIndex(g, k);
    }
    Sizes(g)
  }

  function SumCounts<K>(counts: seq<(K, nat)>): nat {
    if counts == [] then 0 else counts[0].1 + SumCounts(counts[1..])
  }

  lemma {:induction false} SumCountsSizes<K, T>(groups: seq<(K, seq<T>)>)
    ensures SumCounts(Sizes(groups)) == SumSizes(groups)
  {
    if groups != [] {
      assert Sizes(groups)[1..] == Sizes(groups[1..]);
      SumCountsSizes(groups[1..]);
    }
  }

  /** The per-key counts add up to the number of items. */
  lemma CountByTotal<T, K(!new)>(xs: seq<T>, key: T -> K)
    ensures SumCounts(CountBy(xs, key)) == |xs|
  {
    SumCountsSizes(GroupBy(xs, key));
    GroupByPartitions(xs, key);
  }

  /** The counting loop of both orchestrators. */
  method Count<T, K(==,!new)>(xs: seq<T>, key: T -> K) returns (counts: seq<(K, nat)>)
    ensures counts == Bumps(xs, key)
  {
    counts := [];
    var i := 0;
    while i < |xs|
      invariant 0 <= i <= |xs|
      invariant counts == Bumps(xs[..i], key)
    {
      var k := key(xs[i]);
      var j := FindKey(counts, k);
      BumpsStep(xs, key, i);
      if j < |counts| {
        counts := counts[j := (k, counts[j].1 + 1)];
      } else {
        counts := counts + [(k, 1)];
      }
      i := i + 1;
    }
    assert xs[..i] == xs;
  }

  /** The dictionary after bumping the key of each item in turn. */
  function Bumps<T, K(==,!new)>(xs: seq<T>, key: T -> K): seq<(K, nat)> {
    if xs == [] then [] else Bump(Bumps(xs[..|xs| - 1], key), key(xs[|xs| - 1]))
  }

  /** The lookup of a key in an insertion-ordered dictionary: the first entry with that key, or the end. */
  method FindKey<K(==,!new), V>(entries: seq<(K, V)>, k: K) returns (j: nat)
    ensures j == KeyIndex(entries, k)
  {
    j := 0;
    while j < |entries| && entries[j].0 != k
      invariant 0 <= j <= |entries|
      invariant forall m :: 0 <= m < j ==> entries[m].0 != k
    {
      j := j + 1;
    }
  }

  lemma BumpsStep<T, K(!new)>(xs: seq<T>, key: T -> K, i: nat)
    requires i < |xs|
    ensures Bumps(xs[..i + 1], key) == Bump(Bumps(xs[..i], key), key(xs[i]))
  {
    assert xs[..i + 1][..i] == xs[..i];
  }

  lemma {:induction false} BumpsIsSizes<T, K(!new)>(xs: seq<T>, key: T -> K)
    ensures Bumps(xs, key) == Sizes(GroupBy(xs, key))
  {
    if xs != [] {
      var init := xs[..|xs| - 1];
      BumpsIsSizes(init, key);
      SizesUpsert(GroupBy(init, key), key(xs[|xs| - 1]), xs[|xs| - 1]);
    }
  }

  /** Bumping each item's key in turn gives the per-key counts. */
  lemma BumpsIsCountBy<T, K(!new)>(xs: seq<T>, key: T -> K)
    ensures Bumps(xs, key) == CountBy(xs, key)
  {
    BumpsIsSizes(xs, key);
  }
}
