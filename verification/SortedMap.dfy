/**
 The nonce-sorted transaction map of the pool (blockmgr/txpool/txlist.go): a map from nonce to
 transaction, a heap of its nonces, and a cached sorted list. The three are kept in agreement, and
 every operation is stated on the one sorted list that the map has.
 */
module SortedMap {
  import opened Basics
  import opened NonceHeap

  /** A transaction, as far as the queue looks at it. */
  datatype Tx = Tx(nonce: Nonce, gasPrice: nat, content: nat)

  type Items = map<Nonce, Tx>

  /** Every transaction is stored under its own nonce. */
  ghost predicate Keyed(m: Items) {
    forall n :: n in m ==> m[n].nonce == n
  }

  ghost predicate Ascending(s: seq<Tx>) {
    forall i, j :: 0 <= i < j < |s| ==> s[i].nonce < s[j].nonce
  }

  /** s lists exactly the transactions of m, by rising nonce. */
  ghost predicate Lists(s: seq<Tx>, m: Items) {
    && Ascending(s)
    && (forall i :: 0 <= i < |s| ==> s[i].nonce in m && m[s[i].nonce] == s[i])
    && (forall n :: n in m ==> m[n] in s)
  }

  ghost function Greatest(s: set<Nonce>): (g: Nonce)
    requires s != {}
    ensures g in s && forall x :: x in s ==> x <= g
  {
    var x :| x in s;
    if s == {x} then x
    else
      var g := Greatest(s - {x});
      assert forall y :: y in s ==> y == x || y in s - {x};
      if g > x then g else x
  }

  /** The transactions of m sorted from scratch. */
  ghost function Sorted(m: Items): (s: seq<Tx>)
    ensures |s| == |m|
    decreases |m|
  {
    if m == map[] then []
    else
      var n := Greatest(m.Keys);
      assert |m - {n}| == |m| - 1 by { Fewer(m, n); }
      Sorted(m - {n}) + [m[n]]
  }

  lemma Fewer(m: Items, n: Nonce)
    requires n in m
    ensures |m - {n}| == |m| - 1
  {
    assert (m - {n}).Keys == m.Keys - {n};
    assert |m.Keys - {n}| == |m.Keys| - 1;
    assert |m| == |m.Keys| && |m - {n}| == |(m - {n}).Keys|;
  }

  lemma ListsMore(s: seq<Tx>, m: Items, n: Nonce)
    requires n in m && Keyed(m) && Lists(s, m - {n})
    requires forall x :: x in m ==> x <= n
    ensures Lists(s + [m[n]], m)
  {
    var t := s + [m[n]];
    forall x | x in m
      ensures m[x] in t
    {
      if x == n {
        assert t[|s|] == m[n];
      } else {
        assert x in m - {n};
      }
    }
  }

  lemma {:induction false} SortedLists(m: Items)
    requires Keyed(m)
    ensures Lists(Sorted(m), m)
    decreases |m|
  {
    if m != map[] {
      var n := Greatest(m.Keys);
      Fewer(m, n);
      SortedLists(m - {n});
      ListsMore(Sorted(m - {n}), m, n);
    }
  }

  /** The last of a listing stands at the greatest nonce, and the others list the rest. */
  lemma ListsLess(s: seq<Tx>, m: Items)
    requires m != map[] && Lists(s, m) && Keyed(m)
    ensures s != [] && s[|s| - 1] == m[Greatest(m.Keys)]
    ensures Lists(s[..|s| - 1], m - {Greatest(m.Keys)})
  {
    var g := Greatest(m.Keys);
    hide Greatest;
    LastIs(s, m, g);
    LastOff(s, m, g);
  }

  lemma LastIs(s: seq<Tx>, m: Items, g: Nonce)
    requires Lists(s, m) && Keyed(m) && g in m && forall x :: x in m ==> x <= g
    ensures s != [] && s[|s| - 1] == m[g]
  {
    assert m[g] in s;
    var k :| 0 <= k < |s| && s[k] == m[g];
    assert s[|s| - 1].nonce <= g;
  }

  lemma LastOff(s: seq<Tx>, m: Items, g: Nonce)
    requires Lists(s, m) && Keyed(m) && g in m && s != [] && s[|s| - 1] == m[g]
    ensures Lists(s[..|s| - 1], m - {g})
  {
    var rest, m' := s[..|s| - 1], m - {g};
    forall i | 0 <= i < |rest|
      ensures rest[i].nonce in m' && m'[rest[i].nonce] == rest[i]
    {
      assert s[i].nonce < s[|s| - 1].nonce;
    }
    forall n | n in m'
      ensures m'[n] in rest
    {
      var k :| 0 <= k < |s| && s[k] == m[n];
      assert rest[k] == m'[n];
    }
  }

  lemma SomethingListed(s: seq<Tx>, m: Items)
    requires Lists(s, m) && s != []
    ensures m != map[]
  {
    assert s[0].nonce in m;
  }

  /** A map has one listing, the one sorted from scratch. */
  lemma {:induction false} ListingUnique(s: seq<Tx>, m: Items)
    requires Keyed(m) && Lists(s, m)
    ensures s == Sorted(m)
    decreases |m|
  {
    hide Lists, Greatest;
    if m == map[] {
      if s != [] {
        SomethingListed(s, m);
      }
    } else {
      ListsLess(s, m);
      var n := Greatest(m.Keys);
      Fewer(m, n);
      ListingUnique(s[..|s| - 1], m - {n});
      assert s == s[..|s| - 1] + [m[n]];
    }
  }

  lemma ListsAfter(s: seq<Tx>, m: Items, n: Nonce)
    requires n in m && Keyed(m) && Lists(s, m - {n})
    requires forall x :: x in m ==> n <= x
    ensures Lists([m[n]] + s, m)
  {
    var t := [m[n]] + s;
    forall i | 0 <= i < |t|
      ensures t[i].nonce in m && m[t[i].nonce] == t[i] && (i > 0 ==> n < t[i].nonce)
    {
      if i > 0 {
        assert t[i] == s[i - 1];
      }
    }
    forall i, j | 0 <= i < j < |t|
      ensures t[i].nonce < t[j].nonce
    {
      if i > 0 {
        assert s[i - 1].nonce < s[j - 1].nonce;
      }
    }
    forall x | x in m
      ensures m[x] in t
    {
      if x == n {
        assert t[0] == m[n];
      } else {
        assert (m - {n})[x] in s;
      }
    }
  }

  /** The transaction at the least nonce comes first. */
  lemma LeastFirst(m: Items, n: Nonce)
    requires Keyed(m) && n in m && forall x :: x in m ==> n <= x
    ensures Sorted(m) == [m[n]] + Sorted(m - {n})
  {
    hide Sorted, Lists;
    SortedLists(m - {n});
    ListsAfter(Sorted(m - {n}), m, n);
    ListingUnique([m[n]] + Sorted(m - {n}), m);
  }

  /** The transaction at the greatest nonce comes last. */
  lemma GreatestLast(m: Items, n: Nonce)
    requires Keyed(m) && n in m && forall x :: x in m ==> x <= n
    ensures Sorted(m) == Sorted(m - {n}) + [m[n]]
  {
    hide Sorted, Lists;
    SortedLists(m - {n});
    ListsMore(Sorted(m - {n}), m, n);
    ListingUnique(Sorted(m - {n}) + [m[n]], m);
  }

  /** What is listed is what is stored. */
  lemma SortedHas(m: Items, tx: Tx)
    requires Keyed(m)
    ensures tx in Sorted(m) <==> tx.nonce in m && m[tx.nonce] == tx
  {
    SortedLists(m);
  }

  lemma SortedAscends(m: Items)
    requires Keyed(m)
    ensures Ascending(Sorted(m))
  {
    SortedLists(m);
  }

  /** The heap holds every nonce of the map once. */
  ghost predicate Indexed(h: seq<Nonce>, m: Items) {
    Heap(h) && Distinct(h) && forall n :: n in h <==> n in m
  }

  lemma {:induction false} DistinctSize(h: seq<Nonce>, s: set<Nonce>)
    requires Distinct(h) && forall n :: n in h <==> n in s
    ensures |h| == |s|
  {
    if h == [] {
      assert s == {};
    } else {
      var last := h[|h| - 1];
      DistinctSize(h[..|h| - 1], s - {last});
    }
  }

  lemma IndexedSize(h: seq<Nonce>, m: Items)
    requires Distinct(h) && forall n :: n in h <==> n in m
    ensures |h| == |m|
  {
    DistinctSize(h, m.Keys);
  }

  /** After one more nonce has been pushed and its transaction stored. */
  lemma IndexedMore(h: seq<Nonce>, h': seq<Nonce>, m: Items, tx: Tx)
    requires Indexed(h, m) && tx.nonce !in m && Heap(h') && Rearranged(h + [tx.nonce], h')
    ensures Indexed(h', m[tx.nonce := tx])
  {
    hide Heap;
  }

  /** After a nonce has been taken from the heap and its transaction deleted. */
  lemma IndexedLess(h: seq<Nonce>, h': seq<Nonce>, m: Items, n: Nonce)
    requires Indexed(h, m) && n in m && Heap(h') && Rearranged(h, h' + [n])
    ensures Indexed(h', m - {n})
  {
    hide Heap;
    var t := h' + [n];
    assert Distinct(t);
    forall i, j | 0 <= i < j < |h'|
      ensures h'[i] != h'[j]
    {
      assert t[i] != t[j];
    }
    forall x
      ensures x in h' <==> x in m - {n}
    {
      if x in h' {
        var k :| 0 <= k < |h'| && h'[k] == x;
        assert t[k] != t[|h'|];
        assert x in t;
      }
      if x in m - {n} {
        assert x in t;
      }
    }
  }

  lemma RootIsLeast(h: seq<Nonce>, m: Items)
    requires Indexed(h, m) && h != []
    ensures h[0] in m && forall x :: x in m ==> h[0] <= x
  {
    forall x | x in m
      ensures h[0] <= x
    {
      var k :| 0 <= k < |h| && h[k] == x;
      RootLeast(h, k);
    }
  }

  /** How many transactions at the front of a listing have consecutive nonces. */
  function Consecutive(s: seq<Tx>, k: nat := 0): (r: nat)
    requires k <= |s| && forall i :: 0 <= i < k ==> s[i].nonce == s[0].nonce + i
    ensures k <= r <= |s| && (forall i :: 0 <= i < r ==> s[i].nonce == s[0].nonce + i)
    ensures r < |s| ==> s[r].nonce != s[0].nonce + r
    decreases |s| - k
  {
    if k < |s| && s[k].nonce == s[0].nonce + k then Consecutive(s, k + 1) else k
  }

  ghost predicate ByKey<T>(r: seq<T>, key: T -> Nonce) {
    forall i, j :: 0 <= i < j < |r| ==> key(r[i]) <= key(r[j])
  }

  /** The library sort, by its promise: the same transactions or nonces, by rising key. */
  method Sort<T(!new)>(s: seq<T>, key: T -> Nonce) returns (r: seq<T>)
    ensures Rearranged(s, r) && ByKey(r, key)
  {
    r := [];
    for i := 0 to |s|
      invariant Rearranged(s[..i], r) && ByKey(r, key)
    {
      hide Rearranged;
      var p: nat := |r|;
      while p > 0 && key(r[p - 1]) > key(s[i])
        invariant p <= |r| && forall j :: p <= j < |r| ==> key(r[j]) > key(s[i])
      {
        p := p - 1;
      }
      Inserted(s, r, i, p);
      InsertedByKey(r, key, s[i], p);
      r := r[..p] + [s[i]] + r[p..];
    }
    assert s[..|s|] == s;
  }

  lemma InsertedByKey<T(!new)>(r: seq<T>, key: T -> Nonce, x: T, p: nat)
    requires ByKey(r, key) && p <= |r| && (p > 0 ==> key(r[p - 1]) <= key(x))
    requires forall j :: p <= j < |r| ==> key(r[j]) > key(x)
    ensures ByKey(r[..p] + [x] + r[p..], key)
  {
  }

  lemma Inserted<T(!new)>(s: seq<T>, r: seq<T>, i: nat, p: nat)
    requires i < |s| && p <= |r| && Rearranged(s[..i], r)
    ensures Rearranged(s[..i + 1], r[..p] + [s[i]] + r[p..])
  {
    var a, b := s[..i + 1], r[..p] + [s[i]] + r[p..];
    assert a == s[..i] + [s[i]];
    forall x
      ensures x in a <==> x in b
    {
      assert x in r <==> x in r[..p] || x in r[p..] by { assert r == r[..p] + r[p..]; }
    }
    if Distinct(a) {
      assert s[i] !in s[..i] by { Apart(a, i); }
      assert Distinct(s[..i]) by { Apart(a, i); }
      assert forall k :: 0 <= k < |r| ==> r[k] != s[i];
    }
  }

  lemma Apart<T(!new)>(a: seq<T>, i: nat)
    requires i < |a| && Distinct(a)
    ensures a[i] !in a[..i] && Distinct(a[..i])
  {
  }

  lemma ConsecutiveIs(s: seq<Tx>, k: nat)
    requires k <= |s| && forall i :: 0 <= i < k ==> s[i].nonce == s[0].nonce + i
    requires k < |s| ==> s[k].nonce != s[0].nonce + k
    ensures Consecutive(s) == k
  {
  }

  /** Heap, map and cache agree. */
  ghost predicate Agree(h: seq<Nonce>, m: Items, cache: Option<seq<Tx>>) {
    Keyed(m) && Indexed(h, m) && (cache.Some? ==> cache.value == Sorted(m))
  }

  /** Taking the root of the heap takes the first of the sorted list. */
  lemma TakeFirst(h: seq<Nonce>, h': seq<Nonce>, m: Items)
    requires Keyed(m) && Indexed(h, m) && h != [] && Heap(h') && Rearranged(h, h' + [h[0]])
    ensures var n := h[0]; n in m && Keyed(m - {n}) && Indexed(h', m - {n}) && Sorted(m) == [m[n]] + Sorted(m - {n})
  {
    hide Sorted, Heap, Indexed, Rearranged;
    RootIsLeast(h, m);
    IndexedLess(h, h', m, h[0]);
    LeastFirst(m, h[0]);
  }

  /** The part of m that stands in a list. */
  ghost function Within(m: Items, s: seq<Tx>): (r: Items) {
    map n | n in m && m[n] in s :: m[n]
  }

  /** m' holds nothing that m does not hold. */
  ghost predicate Part(m: Items, m': Items) {
    forall n :: n in m' ==> n in m && m'[n] == m[n]
  }

  lemma PartSelf(m: Items)
    ensures Part(m, m)
  {
  }

  lemma PartLess(m: Items, m': Items, n: Nonce)
    requires Part(m, m')
    ensures Part(m, m' - {n})
  {
  }

  /** A part of m is told by its sorted list. */
  lemma PartOf(m: Items, m': Items)
    requires Keyed(m) && Keyed(m') && Part(m, m')
    ensures m' == Within(m, Sorted(m'))
  {
    hide Sorted;
    forall n | n in m
      ensures n in m' <==> m[n] in Sorted(m')
    {
      SortedHas(m', m[n]);
    }
  }

  class TxSortedMap {
    var items: Items
    const index: NonceHeap
    var cache: Option<seq<Tx>>

    ghost predicate Valid()
      reads this, index
    {
      Agree(index.nonces, items, cache)
    }

    constructor ()
      ensures Valid() && items == map[] && fresh(index)
    {
      items := map[];
      index := new NonceHeap();
      cache := None;
    }

    method Get(nonce: Nonce) returns (tx: Option<Tx>)
      requires Valid()
      ensures tx == if nonce in items then Some(items[nonce]) else None
      ensures tx.Some? ==> tx.value.nonce == nonce && tx.value in Sorted(items)
    {
      tx := if nonce in items then Some(items[nonce]) else None;
      SortedHas(items, if nonce in items then items[nonce] else Tx(0, 0, 0));
    }

    method Put(tx: Tx)
      requires Valid()
      modifies this, index
      ensures Valid() && items == old(items)[tx.nonce := tx]
    {
      hide Sorted;
      if tx.nonce !in items {
        label before:
        index.Push(tx.nonce);
        IndexedMore(old@before(index.nonces), index.nonces, items, tx);
      }
      items, cache := items[tx.nonce := tx], None;
    }

    method Forward(threshold: Nonce) returns (removed: seq<Tx>)
      requires Valid()
      modifies this, index
      ensures Valid() && Sorted(old(items)) == removed + Sorted(items)
      ensures items == map n | n in old(items) && n >= threshold :: old(items)[n]
    {
      hide Sorted, Heap, Distinct, Rearranged;
      removed := [];
      while |index.nonces| > 0 && index.nonces[0] < threshold
        invariant Keyed(items) && Indexed(index.nonces, items)
        invariant Sorted(old(items)) == removed + Sorted(items) && cache == old(cache)
        invariant forall n :: n in items ==> n in old(items) && items[n] == old(items)[n]
        invariant forall n :: n in old(items) && n >= threshold ==> n in items
        decreases |index.nonces|
      {
        ghost var h := index.nonces;
        var nonce := index.Pop();
        TakeFirst(h, index.nonces, items);
        removed := removed + [items[nonce]];
        items := items - {nonce};
      }
      if index.nonces != [] {
        RootIsLeast(index.nonces, items);
      }
      if cache.Some? {
        cache := Some(cache.value[|removed|..]);
      }
    }

    /** Deletes what the filter rejects, in whatever order the map is walked. */
    method DeleteMatching(filter: Tx -> bool) returns (removed: seq<Tx>)
      requires Keyed(items)
      modifies this`items
      ensures items == Kept(old(items), filter) && Keyed(items)
      ensures Picked(old(items), filter, {}, removed)
    {
      removed := [];
      var rest := items.Keys;
      while rest != {}
        invariant rest <= items.Keys && Keyed(items)
        invariant forall n :: n in items <==> n in old(items) && (n in rest || !filter(old(items)[n]))
        invariant forall n :: n in items ==> items[n] == old(items)[n]
        invariant Picked(old(items), filter, rest, removed)
        decreases |rest|
      {
        hide Picked;
        var nonce :| nonce in rest;
        rest := rest - {nonce};
        var tx := items[nonce];
        PickedMore(old(items), filter, rest, removed, nonce);
        if filter(tx) {
          removed := removed + [tx];
          items := items - {nonce};
        }
      }
    }

    /** Builds the heap again from the map, walked in whatever order. */
    method Rebuild()
      modifies index
      ensures Indexed(index.nonces, items)
    {
      index.nonces := [];
      var rest := items.Keys;
      while rest != {}
        invariant rest <= items.Keys
        invariant forall n :: n in index.nonces <==> n in items && n !in rest
        invariant Distinct(index.nonces)
        decreases |rest|
      {
        var nonce :| nonce in rest;
        rest := rest - {nonce};
        index.nonces := index.nonces + [nonce];
      }
      index.Init();
    }

    method Filter(filter: Tx -> bool) returns (removed: seq<Tx>)
      requires Valid()
      modifies this, index
      ensures Valid() && items == Kept(old(items), filter)
      ensures Picked(old(items), filter, {}, removed)
      ensures removed == [] ==> items == old(items) && cache == old(cache)
    {
      hide Sorted, Indexed;
      removed := DeleteMatching(filter);
      if |removed| > 0 {
        Rebuild();
        cache := None;
      } else {
        assert items == old(items);
      }
    }

    method Remove(nonce: Nonce) returns (found: bool)
      requires Valid()
      modifies this, index
      ensures Valid() && found == (nonce in old(items)) && items == old(items) - {nonce}
    {
      hide Sorted, Heap, Rearranged, Distinct;
      if nonce !in items {
        assert items - {nonce} == items;
        return false;
      }
      var i := 0;
      while i < |index.nonces|
        invariant i <= |index.nonces| && nonce !in index.nonces[..i] && index.nonces == old(index.nonces)
      {
        if index.nonces[i] == nonce {
          index.Remove(i);
          IndexedLess(old(index.nonces), index.nonces, items, nonce);
          break;
        }
        i := i + 1;
      }
      items := items - {nonce};
      cache := None;
      return true;
    }

    /** Drops the transactions whose nonces come last in the sorted index, until threshold are left. */
    method DropLast(threshold: nat) returns (drops: seq<Tx>)
      requires Keyed(items) && threshold <= |items| == |index.nonces|
      requires Upward(index.nonces) && Below(index.nonces, |items|, items)
      modifies this`items
      ensures Keyed(items) && Sorted(old(items)) == Sorted(items) + Reversed(drops)
      ensures Below(index.nonces, threshold, items) && Part(old(items), items)
    {
      hide *;
      drops := [];
      PartSelf(items);
      NoneReversed(Sorted(items));
      var size: nat := |items|;
      while size > threshold
        invariant threshold <= size <= |index.nonces| && Upward(index.nonces) && Below(index.nonces, size, items)
        invariant Keyed(items) && Sorted(old(items)) == Sorted(items) + Reversed(drops) && Part(old(items), items)
      {
        var n := index.nonces[size - 1];
        CapStep(index.nonces, size, items);
        ReversedMore(drops, items[n], Sorted(items - {n}));
        PartLess(old(items), items, n);
        drops := drops + [items[n]];
        items := items - {n};
        size := size - 1;
      }
    }

    method Cap(threshold: nat) returns (drops: seq<Tx>)
      requires Valid()
      modifies this, index
      ensures Valid() && Sorted(old(items)) == Sorted(items) + Reversed(drops)
      ensures |items| == (if |old(items)| <= threshold then |old(items)| else threshold)
      ensures items == Within(old(items), Sorted(items))
    {
      hide Keyed, Indexed, Sorted, Heap, Distinct, Rearranged, Upward, Below, Part, Within, Reversed, ByKey;
      PartSelf(items);
      PartOf(items, items);
      NoneReversed(Sorted(items));
      if |items| <= threshold {
        return [];
      }
      index.nonces := Sort(index.nonces, (n: Nonce) => n);
      CapStart(old(index.nonces), index.nonces, items);
      drops := DropLast(threshold);
      CapDone(index.nonces, threshold, items);
      index.nonces := index.nonces[..threshold];
      ghost var h := index.nonces;
      index.Init();
      CapIndexed(h, index.nonces, items);
      PartOf(old(items), items);
      if cache.Some? {
        cache := Some(cache.value[..|cache.value| - |drops|]);
        Trimmed(old(cache).value, Sorted(items), Reversed(drops));
      }
    }

    /** Takes transactions from the front as long as the least nonce is the next one. */
    method TakeRun() returns (ready: seq<Tx>)
      requires Keyed(items) && Indexed(index.nonces, items) && index.nonces != []
      modifies this`items, index
      ensures Keyed(items) && Indexed(index.nonces, items) && Part(old(items), items)
      ensures Sorted(old(items)) == ready + Sorted(items) && |ready| == Consecutive(Sorted(old(items)))
    {
      hide *;
      ghost var s := Sorted(items);
      SortedAscends(items);
      PartSelf(items);
      ReadyStart(index.nonces, items);
      RunningNone(s);
      ready := [];
      var next: nat := index.nonces[0];
      while |index.nonces| > 0 && index.nonces[0] == next
        invariant Keyed(items) && Indexed(index.nonces, items) && s == ready + Sorted(items) && s != []
        invariant Part(old(items), items) && Running(s, |ready|)
        invariant next == Wrap(s[0].nonce + |ready|)
        decreases |index.nonces|
      {
        ghost var h, before := index.nonces, items;
        ReadyStep(s, ready, h, items);
        PartLess(old(items), items, next);
        HeapOf(h, items);
        ready := ready + [items[next]];
        items := items - {next};
        var _ := index.Pop();
        TakeFirst(h, index.nonces, before);
        next := Wrap(next + 1);
      }
      ReadyDone(s, ready, index.nonces, items);
    }

    /** The front run of consecutive nonces, when it begins no later than start. */
    method Ready(start: Nonce) returns (ready: seq<Tx>)
      requires Valid()
      modifies this, index
      ensures Valid() && Sorted(old(items)) == ready + Sorted(items)
      ensures |ready| == Due(Sorted(old(items)), start)
      ensures items == Within(old(items), Sorted(items))
    {
      hide Sorted, Indexed, Within, Part, Keyed;
      PartSelf(items);
      PartOf(items, items);
      ReadyStart(index.nonces, items);
      if |index.nonces| == 0 || index.nonces[0] > start {
        return [];
      }
      ready := TakeRun();
      PartOf(old(items), items);
      cache := None;
    }

    method Len() returns (n: nat)
      requires Valid()
      ensures n == |Sorted(items)| == |index.nonces|
    {
      IndexedSize(index.nonces, items);
      n := |items|;
    }

    /**
     The transactions by rising nonce, from the cache when there is one. A transaction stored under a
     nonce that is not its own would be an error; there is none.
     */
    method Flatten() returns (txs: seq<Tx>)
      requires Valid()
      modifies this`cache
      ensures Valid() && txs == Sorted(items) && cache == Some(txs)
    {
      hide Sorted, Heap, Indexed, Rearranged;
      if cache == None {
        var found: seq<Tx> := [];
        var rest := items.Keys;
        while rest != {}
          invariant rest <= items.Keys && Picked(items, (tx: Tx) => true, rest, found)
          decreases |rest|
        {
          hide Picked;
          var nonce :| nonce in rest;
          rest := rest - {nonce};
          var tx := items[nonce];
          if nonce != tx.nonce {
            assert false;
          }
          PickedMore(items, (tx: Tx) => true, rest, found, nonce);
          found := found + [tx];
        }
        var sorted := Sort(found, (tx: Tx) => tx.nonce);
        FlattenDone(items, found, sorted);
        cache := Some(sorted);
      }
      txs := cache.value;
    }
  }

  /** What the filter leaves. */
  ghost function Kept(m: Items, filter: Tx -> bool): (r: Items) {
    map n | n in m && !filter(m[n]) :: m[n]
  }

  /** s holds, once each, the transactions outside rest that the filter picks. */
  ghost predicate Picked(m: Items, filter: Tx -> bool, rest: set<Nonce>, s: seq<Tx>) {
    && Distinct(s)
    && forall tx :: tx in s <==> tx.nonce in m && tx.nonce !in rest && m[tx.nonce] == tx && filter(tx)
  }

  lemma PickedMore(m: Items, filter: Tx -> bool, rest: set<Nonce>, s: seq<Tx>, n: Nonce)
    requires Keyed(m) && n in m && n !in rest && Picked(m, filter, rest + {n}, s)
    ensures Picked(m, filter, rest, if filter(m[n]) then s + [m[n]] else s)
  {
    var t := if filter(m[n]) then s + [m[n]] else s;
    assert m[n] !in s;
    forall tx
      ensures tx in t <==> tx.nonce in m && tx.nonce !in rest && m[tx.nonce] == tx && filter(tx)
    {
      assert tx in t <==> tx in s || (filter(m[n]) && tx == m[n]);
    }
  }

  ghost function Reversed(s: seq<Tx>): (r: seq<Tx>)
    ensures |r| == |s| && forall i :: 0 <= i < |s| ==> r[i] == s[|s| - 1 - i]
  {
    seq(|s|, i requires 0 <= i < |s| => s[|s| - 1 - i])
  }

  lemma ReversedMore(drops: seq<Tx>, tx: Tx, rest: seq<Tx>)
    ensures rest + [tx] + Reversed(drops) == rest + Reversed(drops + [tx])
  {
    assert [tx] + Reversed(drops) == Reversed(drops + [tx]);
  }

  ghost predicate Upward(h: seq<Nonce>) {
    forall i, j :: 0 <= i < j < |h| ==> h[i] < h[j]
  }

  /** The first size entries are the nonces of m. */
  ghost predicate Below(h: seq<Nonce>, size: nat, m: Items)
    requires size <= |h|
  {
    forall n :: n in h[..size] <==> n in m
  }

  lemma CapStart(h: seq<Nonce>, h': seq<Nonce>, m: Items)
    requires Indexed(h, m) && Rearranged(h, h') && ByKey(h', (n: Nonce) => n)
    ensures |h'| == |m| && Upward(h') && Below(h', |m|, m)
  {
    IndexedSize(h, m);
    assert h'[..|m|] == h';
    forall i, j | 0 <= i < j < |h'|
      ensures h'[i] < h'[j]
    {
      var key := (n: Nonce) => n;
      assert key(h'[i]) <= key(h'[j]);
    }
  }

  lemma CapStep(h: seq<Nonce>, size: nat, m: Items)
    requires 0 < size <= |h| && Upward(h) && Below(h, size, m) && Keyed(m)
    ensures var n := h[size - 1]; n in m && Keyed(m - {n}) && Below(h, size - 1, m - {n})
    ensures Sorted(m) == Sorted(m - {h[size - 1]}) + [m[h[size - 1]]]
  {
    hide Sorted;
    var n := h[size - 1];
    assert h[..size] == h[..size - 1] + [n];
    assert n !in h[..size - 1];
    assert forall x :: x in m ==> x <= n;
    GreatestLast(m, n);
  }

  lemma CapDone(h: seq<Nonce>, size: nat, m: Items)
    requires size <= |h| && Upward(h) && Below(h, size, m)
    ensures Distinct(h[..size]) && |m| == size && forall n :: n in h[..size] <==> n in m
  {
    IndexedSize(h[..size], m);
  }

  lemma NoneReversed(s: seq<Tx>)
    ensures s + Reversed([]) == s
  {
  }

  lemma RunningNone(s: seq<Tx>)
    requires s != []
    ensures Running(s, 0) && Wrap(s[0].nonce) == s[0].nonce
  {
  }

  lemma HeapOf(h: seq<Nonce>, m: Items)
    requires Indexed(h, m)
    ensures Heap(h) && (h != [] ==> h[0] in m)
  {
  }

  lemma Trimmed(s: seq<Tx>, a: seq<Tx>, b: seq<Tx>)
    requires s == a + b
    ensures s[..|s| - |b|] == a
  {
  }

  lemma CapIndexed(h: seq<Nonce>, h': seq<Nonce>, m: Items)
    requires Distinct(h) && (forall n :: n in h <==> n in m) && Rearranged(h, h') && Heap(h')
    ensures Indexed(h', m)
  {
    hide Heap;
  }

  /** How many transactions are ready at a starting nonce. */
  ghost function Due(s: seq<Tx>, start: Nonce): (k: nat)
    ensures k <= |s|
  {
    if s == [] || s[0].nonce > start then 0 else Consecutive(s)
  }

  /** 64-bit addition drops the carry. */
  function Wrap(n: nat): (r: Nonce)
    ensures n < 0x1_0000_0000_0000_0000 ==> r == n
  {
    n % 0x1_0000_0000_0000_0000
  }

  /** The first k nonces are consecutive. */
  ghost predicate Running(s: seq<Tx>, k: nat) {
    s != [] && k <= |s| && forall i :: 0 <= i < k ==> s[i].nonce == s[0].nonce + i
  }

  lemma ReadyStart(h: seq<Nonce>, m: Items)
    requires Keyed(m) && Indexed(h, m)
    ensures if h == [] then Sorted(m) == [] else Sorted(m) != [] && Sorted(m)[0].nonce == h[0]
  {
    IndexedSize(h, m);
    if h != [] {
      RootIsLeast(h, m);
      LeastFirst(m, h[0]);
    }
  }

  lemma ReadyStep(s: seq<Tx>, ready: seq<Tx>, h: seq<Nonce>, m: Items)
    requires Keyed(m) && Indexed(h, m) && h != [] && s == ready + Sorted(m) && Ascending(s) && Running(s, |ready|)
    requires h[0] == Wrap(s[0].nonce + |ready|)
    ensures Running(s, |ready| + 1) && Wrap(h[0] as int + 1) == Wrap(s[0].nonce + |ready| + 1)
  {
    ReadyStart(h, m);
    hide *;
    assert s[|ready|] == Sorted(m)[0];
    NoWrap(s, |ready|);
  }

  /** The run goes on where the wrapped counter meets the next nonce, so the counter has not wrapped. */
  lemma NoWrap(s: seq<Tx>, k: nat)
    requires Ascending(s) && Running(s, k) && k < |s| && s[k].nonce == Wrap(s[0].nonce + k)
    ensures Running(s, k + 1) && Wrap(s[k].nonce as int + 1) == Wrap(s[0].nonce + k + 1)
  {
    if k > 0 {
      assert s[k - 1].nonce == s[0].nonce + k - 1;
      assert s[k - 1].nonce < s[k].nonce;
    }
  }

  lemma ReadyDone(s: seq<Tx>, ready: seq<Tx>, h: seq<Nonce>, m: Items)
    requires Keyed(m) && Indexed(h, m) && s == ready + Sorted(m) && Running(s, |ready|)
    requires h == [] || h[0] != Wrap(s[0].nonce + |ready|)
    ensures |ready| == Consecutive(s)
  {
    ReadyStart(h, m);
    hide Sorted, Indexed;
    if |ready| < |s| {
      assert s[|ready|] == Sorted(m)[0];
    }
    ConsecutiveIs(s, |ready|);
  }

  lemma FlattenDone(m: Items, found: seq<Tx>, sorted: seq<Tx>)
    requires Keyed(m) && Picked(m, (tx: Tx) => true, {}, found)
    requires Rearranged(found, sorted) && ByKey(sorted, (tx: Tx) => tx.nonce)
    ensures sorted == Sorted(m)
  {
    hide Sorted;
    forall i, j | 0 <= i < j < |sorted|
      ensures sorted[i].nonce < sorted[j].nonce
    {
      var key := (tx: Tx) => tx.nonce;
      assert key(sorted[i]) <= key(sorted[j]);
      assert sorted[i] in found && sorted[j] in found;
    }
    ListingUnique(sorted, m);
  }
}
