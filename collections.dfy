/**
 * The three list operations of the Kotlin standard library that the
 * schedule's core relies on: `filter`, `find` and `groupBy`.
 * Each is a function on sequences, with lemmas that say what it computes.
 */
module Collections {

  datatype Option<+T> = None | Some(value: T)

  // ---------------------------------------------------------------------------
  // filter
  // ---------------------------------------------------------------------------

  /** `xs.filter(p)`: the elements of xs that satisfy p, in list order. */
  function Filter<T(==,!new)>(p: T -> bool, xs: seq<T>): (r: seq<T>)
    ensures |r| <= |xs|
    ensures forall x :: x in r <==> x in xs && p(x)
    ensures forall x :: multiset(r)[x] == if p(x) then multiset(xs)[x] else 0
  {
    if xs == [] then []
    else
      var rest := Filter(p, xs[1..]);
      assert xs == [xs[0]] + xs[1..];
      if p(xs[0]) then [xs[0]] + rest else rest
  }

  /**
   * a is a subsequence of b: a can be obtained from b by deleting elements,
   * so the elements of a appear in b in the same relative order.
   * (Matching each element of a with its earliest possible partner in b
   * decides this.)
   */
  predicate IsSubsequence<T(==,!new)>(a: seq<T>, b: seq<T>)
    decreases |b|
  {
    if a == [] then true
    else if b == [] then false
    else if a[0] == b[0] then IsSubsequence(a[1..], b[1..])
    else IsSubsequence(a, b[1..])
  }

  /** filter keeps the relative order of the elements it keeps. */
  lemma {:induction false} FilterIsSubsequence<T(!new)>(p: T -> bool, xs: seq<T>)
    ensures IsSubsequence(Filter(p, xs), xs)
  {
    if xs != [] {
      FilterIsSubsequence(p, xs[1..]);
      var rest := Filter(p, xs[1..]);
      if !p(xs[0]) && rest != [] {
        assert rest[0] in rest;
        assert rest[0] != xs[0];
      }
    }
  }

  /** filter distributes over concatenation. */
  lemma {:induction false} FilterAppend<T(!new)>(p: T -> bool, a: seq<T>, b: seq<T>)
    ensures Filter(p, a + b) == Filter(p, a) + Filter(p, b)
  {
    if a == [] {
      assert a + b == b;
    } else {
      assert (a + b)[1..] == a[1..] + b;
      FilterAppend(p, a[1..], b);
    }
  }

  /** A predicate that holds of every element removes nothing. */
  lemma {:induction false} FilterKeepsAll<T(!new)>(p: T -> bool, xs: seq<T>)
    requires forall x :: x in xs ==> p(x)
    ensures Filter(p, xs) == xs
  {
    if xs != [] {
      assert forall x :: x in xs[1..] ==> x in xs;
      FilterKeepsAll(p, xs[1..]);
    }
  }

  /** A predicate that holds of no element removes everything. */
  lemma FilterKeepsNone<T(!new)>(p: T -> bool, xs: seq<T>)
    requires forall x :: x in xs ==> !p(x)
    ensures Filter(p, xs) == []
  {
  }

  /** Two predicates that agree on every element filter the same way. */
  lemma {:induction false} FilterCongruent<T(!new)>(p: T -> bool, q: T -> bool, xs: seq<T>)
    requires forall x :: x in xs ==> p(x) == q(x)
    ensures Filter(p, xs) == Filter(q, xs)
  {
    if xs != [] {
      assert forall x :: x in xs[1..] ==> x in xs;
      FilterCongruent(p, q, xs[1..]);
    }
  }

  // ---------------------------------------------------------------------------
  // find
  // ---------------------------------------------------------------------------

  /** `xs.find(p)`: the first element of xs satisfying p, or None. */
  function Find<T>(p: T -> bool, xs: seq<T>): (r: Option<T>)
    ensures r.None? <==> forall i :: 0 <= i < |xs| ==> !p(xs[i])
    ensures r.Some? ==>
      exists i :: 0 <= i < |xs| && xs[i] == r.value && p(xs[i]) &&
        forall j :: 0 <= j < i ==> !p(xs[j])
  {
    if xs == [] then None
    else if p(xs[0]) then Some(xs[0])
    else
      var r := Find(p, xs[1..]);
      assert forall i :: 1 <= i < |xs| ==> xs[i] == xs[1..][i - 1];
      r
  }

  // ---------------------------------------------------------------------------
  // groupBy
  // ---------------------------------------------------------------------------

  /**
   * `xs.groupBy(key)` returns a LinkedHashMap, whose iteration order is the
   * order in which keys were first inserted. It is modelled as the sequence
   * of its entries: (key, elements with that key).
   */
  type Groups<K, T> = seq<(K, seq<T>)>

  /** One step of groupBy: `getOrPut(k) { ArrayList() }.add(x)`. */
  function AddToGroup<K(==), T>(groups: Groups<K, T>, k: K, x: T): (r: Groups<K, T>)
    ensures !HasKey(groups, k) ==> r == groups + [(k, [x])]
    ensures HasKey(groups, k) ==> |r| == |groups|
    ensures HasKey(groups, k) ==> forall j :: 0 <= j < |r| ==> r[j].0 == groups[j].0
    ensures TotalSize(r) == TotalSize(groups) + 1
  {
    if groups == [] then [(k, [x])]
    else if groups[0].0 == k then [(k, groups[0].1 + [x])] + groups[1..]
    else
      var rest := AddToGroup(groups[1..], k, x);
      assert forall j :: 1 <= j < |groups| ==> groups[j] == groups[1..][j - 1];
      assert HasKey(groups, k) ==> HasKey(groups[1..], k);
      assert ([groups[0]] + rest)[1..] == rest;
      assert groups == [groups[0]] + groups[1..];
      [groups[0]] + rest
  }

  /** `xs.groupBy(key)`, built by inserting the elements in list order. */
  function GroupBy<T, K(==)>(xs: seq<T>, key: T -> K): Groups<K, T>
  {
    if xs == [] then []
    else
      var last := xs[|xs| - 1];
      AddToGroup(GroupBy(xs[..|xs| - 1], key), key(last), last)
  }

  predicate HasKey<K(==), T>(groups: Groups<K, T>, k: K)
  {
    exists i :: 0 <= i < |groups| && groups[i].0 == k
  }

  predicate DistinctKeys<K(==), T>(groups: Groups<K, T>)
  {
    forall i, j :: 0 <= i < j < |groups| ==> groups[i].0 != groups[j].0
  }

  /** The number of elements over all groups. */
  function TotalSize<K, T>(groups: Groups<K, T>): nat
  {
    if groups == [] then 0 else |groups[0].1| + TotalSize(groups[1..])
  }

  /** The predicate "has key k", as a value that filter can take. */
  function KeyIs<T, K(==)>(key: T -> K, k: K): T -> bool
  {
    x => key(x) == k
  }

  /**
   * The position of the first element of xs whose key is k,
   * or |xs| when there is none.
   */
  function FirstIndex<T, K(==)>(key: T -> K, xs: seq<T>, k: K): (i: nat)
    ensures i <= |xs|
    ensures i < |xs| ==> key(xs[i]) == k
    ensures forall j :: 0 <= j < |xs| && key(xs[j]) == k ==> i <= j
  {
    if xs == [] then 0
    else if key(xs[0]) == k then 0
    else
      var i := FirstIndex(key, xs[1..], k);
      assert forall j :: 1 <= j < |xs| ==> xs[j] == xs[1..][j - 1];
      1 + i
  }

  /** Appending an element does not move the first occurrence of a key. */
  lemma FirstIndexAppend<T, K>(key: T -> K, xs: seq<T>, x: T, k: K)
    ensures FirstIndex(key, xs, k) < |xs| ==> FirstIndex(key, xs + [x], k) == FirstIndex(key, xs, k)
    ensures FirstIndex(key, xs, k) == |xs| && key(x) == k ==> FirstIndex(key, xs + [x], k) == |xs|
  {
    var ys := xs + [x];
    var i, i' := FirstIndex(key, xs, k), FirstIndex(key, ys, k);
    if i < |xs| {
      assert ys[i] == xs[i];
    } else if key(x) == k {
      assert ys[|xs|] == x;
    }
  }

  /**
   * In a grouping with distinct keys, adding x under key k appends x to the
   * group of k (or starts it) and leaves every other group as it was.
   */
  lemma {:induction false} AddToGroupContents<K, T>(groups: Groups<K, T>, k: K, x: T)
    requires DistinctKeys(groups)
    ensures forall j :: 0 <= j < |groups| ==>
      AddToGroup(groups, k, x)[j] == (if groups[j].0 == k then (k, groups[j].1 + [x]) else groups[j])
  {
    if groups != [] && groups[0].0 != k {
      AddToGroupContents(groups[1..], k, x);
      var r := AddToGroup(groups, k, x);
      assert r == [groups[0]] + AddToGroup(groups[1..], k, x);
      forall j | 1 <= j < |groups|
        ensures r[j] == (if groups[j].0 == k then (k, groups[j].1 + [x]) else groups[j])
      {
        assert groups[j] == groups[1..][j - 1];
      }
    }
  }


  /** Every element's key has a group. */
  ghost predicate CoversKeys<T(!new), K>(r: Groups<K, T>, xs: seq<T>, key: T -> K)
  {
    forall n :: 0 <= n < |xs| ==> HasKey(r, key(xs[n]))
  }

  /** Each group is non-empty and holds exactly the elements with its key, in list order. */
  ghost predicate GroupsAreFilters<T(!new), K>(r: Groups<K, T>, xs: seq<T>, key: T -> K)
  {
    forall i :: 0 <= i < |r| ==> r[i].1 != [] && r[i].1 == Filter(KeyIs(key, r[i].0), xs)
  }

  /** The keys come in the order of their first occurrences in xs. */
  ghost predicate InFirstOccurrenceOrder<T(!new), K>(r: Groups<K, T>, xs: seq<T>, key: T -> K)
  {
    forall i, j :: 0 <= i < j < |r| ==>
      FirstIndex(key, xs, r[i].0) < FirstIndex(key, xs, r[j].0) < |xs|
  }

  /**
   * r is the grouping of xs by key: one group per distinct key, in the order
   * of the keys' first occurrences in xs; each group holding exactly the
   * elements with its key, in list order; every element's key has a group;
   * and the groups together hold |xs| elements.
   */
  ghost predicate IsGroupingOf<T(!new), K>(r: Groups<K, T>, xs: seq<T>, key: T -> K)
  {
    && DistinctKeys(r)
    && CoversKeys(r, xs, key)
    && GroupsAreFilters(r, xs, key)
    && InFirstOccurrenceOrder(r, xs, key)
    && TotalSize(r) == |xs|
  }

  /** Appending x to the list adds x to the group of its key, if any. */
  lemma FilterByKeyAppend<T(!new), K>(key: T -> K, xs: seq<T>, x: T, c: K)
    ensures Filter(KeyIs(key, c), xs + [x]) == Filter(KeyIs(key, c), xs) + (if key(x) == c then [x] else [])
  {
    FilterAppend(KeyIs(key, c), xs, [x]);
  }

  /** Every key that has a group first occurs inside xs, and appending keeps it there. */
  lemma GroupFirstIndex<T(!new), K>(g: Groups<K, T>, xs: seq<T>, x: T, key: T -> K, i: nat)
    requires GroupsAreFilters(g, xs, key)
    requires i < |g|
    ensures FirstIndex(key, xs, g[i].0) < |xs|
    ensures FirstIndex(key, xs + [x], g[i].0) == FirstIndex(key, xs, g[i].0)
  {
    assert g[i].1[0] in Filter(KeyIs(key, g[i].0), xs);
    FirstIndexAppend(key, xs, x, g[i].0);
  }

  /** After adding x, every element of xs + [x] still has its key's group. */
  lemma AddToGroupCovers<T(!new), K>(g: Groups<K, T>, xs: seq<T>, x: T, key: T -> K)
    requires CoversKeys(g, xs, key)
    ensures CoversKeys(AddToGroup(g, key(x), x), xs + [x], key)
  {
    var r, ys := AddToGroup(g, key(x), x), xs + [x];
    forall n | 0 <= n < |ys| ensures HasKey(r, key(ys[n])) {
      if n < |xs| {
        assert ys[n] == xs[n];
        var i :| 0 <= i < |g| && g[i].0 == key(xs[n]);
        assert r[i].0 == key(ys[n]);
      } else if HasKey(g, key(x)) {
        var i :| 0 <= i < |g| && g[i].0 == key(x);
        assert r[i].0 == key(ys[n]);
      } else {
        assert r[|g|].0 == key(ys[n]);
      }
    }
  }

  /** Inductive step of GroupBySpec when x's key already has a group. */
  lemma GroupByStepExisting<T(!new), K>(g: Groups<K, T>, xs: seq<T>, x: T, key: T -> K)
    requires DistinctKeys(g) && GroupsAreFilters(g, xs, key) && InFirstOccurrenceOrder(g, xs, key)
    requires HasKey(g, key(x))
    ensures var r := AddToGroup(g, key(x), x);
      DistinctKeys(r) && GroupsAreFilters(r, xs + [x], key) && InFirstOccurrenceOrder(r, xs + [x], key)
  {
    var r, ys := AddToGroup(g, key(x), x), xs + [x];
    AddToGroupContents(g, key(x), x);
    forall i | 0 <= i < |r|
      ensures r[i].1 != [] && r[i].1 == Filter(KeyIs(key, r[i].0), ys)
      ensures FirstIndex(key, ys, r[i].0) == FirstIndex(key, xs, r[i].0) < |xs|
    {
      FilterByKeyAppend(key, xs, x, g[i].0);
      GroupFirstIndex(g, xs, x, key, i);
    }
  }

  /** Inductive step of GroupBySpec when x's key is new: the keys stay distinct. */
  lemma NewKeyDistinct<K, T>(g: Groups<K, T>, k: K, x: T)
    requires DistinctKeys(g)
    requires !HasKey(g, k)
    ensures DistinctKeys(AddToGroup(g, k, x))
  {
    var r := AddToGroup(g, k, x);
    assert r == g + [(k, [x])];
  }

  /** Inductive step of GroupBySpec when x's key is new: the groups. */
  lemma NewKeyFilters<T(!new), K>(g: Groups<K, T>, xs: seq<T>, x: T, key: T -> K)
    requires CoversKeys(g, xs, key) && GroupsAreFilters(g, xs, key)
    requires !HasKey(g, key(x))
    ensures GroupsAreFilters(AddToGroup(g, key(x), x), xs + [x], key)
  {
    var k, r, ys := key(x), AddToGroup(g, key(x), x), xs + [x];
    assert r == g + [(k, [x])];
    NewKeyGroup(g, xs, x, key);
    forall i | 0 <= i < |r| ensures r[i].1 != [] && r[i].1 == Filter(KeyIs(key, r[i].0), ys) {
      if i < |g| {
        assert r[i] == g[i];
        FilterByKeyAppend(key, xs, x, g[i].0);
      } else {
        assert r[i] == (k, [x]);
      }
    }
  }

  /** Appending x moves no first occurrence, and x's new key first occurs at |xs|. */
  lemma NewKeyFirstIndices<T(!new), K>(g: Groups<K, T>, xs: seq<T>, x: T, key: T -> K)
    requires CoversKeys(g, xs, key) && GroupsAreFilters(g, xs, key)
    requires !HasKey(g, key(x))
    ensures forall i :: 0 <= i < |g| ==> FirstIndex(key, xs + [x], g[i].0) == FirstIndex(key, xs, g[i].0)
    ensures FirstIndex(key, xs + [x], key(x)) == |xs|
  {
    forall i | 0 <= i < |g| ensures FirstIndex(key, xs + [x], g[i].0) == FirstIndex(key, xs, g[i].0) {
      GroupFirstIndex(g, xs, x, key, i);
    }
    NewKeyGroup(g, xs, x, key);
  }

  /** A new key goes last, after every key that already occurs in xs. */
  lemma NewKeyOrder<T(!new), K>(g: Groups<K, T>, xs: seq<T>, x: T, key: T -> K)
    requires InFirstOccurrenceOrder(g, xs, key)
    requires forall i :: 0 <= i < |g| ==> FirstIndex(key, xs + [x], g[i].0) == FirstIndex(key, xs, g[i].0)
    requires FirstIndex(key, xs + [x], key(x)) == |xs|
    requires !HasKey(g, key(x))
    ensures InFirstOccurrenceOrder(AddToGroup(g, key(x), x), xs + [x], key)
  {
    var k, r, ys := key(x), AddToGroup(g, key(x), x), xs + [x];
    assert r == g + [(k, [x])];
    forall i, j | 0 <= i < j < |r|
      ensures FirstIndex(key, ys, r[i].0) < FirstIndex(key, ys, r[j].0) < |ys|
    {
      assert r[i] == g[i];
      if j < |g| {
        assert r[j] == g[j];
      }
    }
  }

  /** A key with no group yet does not occur in xs, so its group is [x] and it comes last. */
  lemma NewKeyGroup<T(!new), K>(g: Groups<K, T>, xs: seq<T>, x: T, key: T -> K)
    requires CoversKeys(g, xs, key)
    requires !HasKey(g, key(x))
    ensures Filter(KeyIs(key, key(x)), xs + [x]) == [x]
    ensures FirstIndex(key, xs + [x], key(x)) == |xs|
  {
    var k := key(x);
    forall n | 0 <= n < |xs| ensures key(xs[n]) != k {
      assert HasKey(g, key(xs[n]));
    }
    forall y | y in xs ensures !KeyIs(key, k)(y) {
      var n :| 0 <= n < |xs| && xs[n] == y;
    }
    FilterKeepsNone(KeyIs(key, k), xs);
    FilterByKeyAppend(key, xs, x, k);
    FirstIndexAppend(key, xs, x, k);
  }

  /** What `groupBy` computes: see IsGroupingOf. */
  lemma {:induction false} GroupBySpec<T(!new), K>(xs: seq<T>, key: T -> K)
    ensures IsGroupingOf(GroupBy(xs, key), xs, key)
  {
    if xs != [] {
      var pre, x := xs[..|xs| - 1], xs[|xs| - 1];
      assert xs == pre + [x];
      GroupBySpec(pre, key);
      var g := GroupBy(pre, key);
      AddToGroupCovers(g, pre, x, key);
      if HasKey(g, key(x)) {
        GroupByStepExisting(g, pre, x, key);
      } else {
        NewKeyDistinct(g, key(x), x);
        NewKeyFilters(g, pre, x, key);
        NewKeyFirstIndices(g, pre, x, key);
        NewKeyOrder(g, pre, x, key);
      }
    }
  }
}
