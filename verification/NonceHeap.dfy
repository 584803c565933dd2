/** The binary heap of nonces behind the sorted transaction map, with the sifting that keeps it a heap. */
module NonceHeap {
  /** A nonce is a 64-bit unsigned integer. */
  type Nonce = n: int | 0 <= n < 0x1_0000_0000_0000_0000

  function Parent(k: nat): (p: nat)
    ensures p <= k && (k > 0 ==> p < k)
  {
    if k == 0 then 0 else (k - 1) / 2
  }

  lemma ParentIs(k: nat, i: nat)
    ensures k > 0 && Parent(k) == i <==> k == 2 * i + 1 || k == 2 * i + 2
  {
  }

  /** Entry k, below n, is not smaller than its parent. */
  ghost predicate Ordered(h: seq<Nonce>, k: nat)
    requires k < |h|
  {
    h[Parent(k)] <= h[k]
  }

  ghost predicate Heap(h: seq<Nonce>) {
    forall k :: 0 <= k < |h| ==> Ordered(h, k)
  }

  ghost predicate Distinct<T>(h: seq<T>) {
    forall i, j :: 0 <= i < j < |h| ==> h[i] != h[j]
  }

  /** The same entries, and still free of duplicates when the first was. */
  ghost predicate Rearranged<T(!new)>(a: seq<T>, b: seq<T>) {
    |a| == |b| && (forall x :: x in a <==> x in b) && (Distinct(a) ==> Distinct(b))
  }

  /** The root of a heap is its least entry. */
  lemma {:induction false} RootLeast(h: seq<Nonce>, k: nat)
    requires Heap(h) && k < |h|
    ensures h[0] <= h[k]
  {
    if k > 0 {
      RootLeast(h, Parent(k));
      assert Ordered(h, k);
    }
  }

  function Swapped(h: seq<Nonce>, i: nat, j: nat): (r: seq<Nonce>)
    requires i < |h| && j < |h|
    ensures |r| == |h| && r[i] == h[j] && r[j] == h[i]
    ensures forall k :: 0 <= k < |h| && k != i && k != j ==> r[k] == h[k]
  {
    h[i := h[j]][j := h[i]]
  }

  lemma SwapRearranges(h: seq<Nonce>, i: nat, j: nat)
    requires i < |h| && j < |h|
    ensures Rearranged(h, Swapped(h, i, j))
  {
    var r := Swapped(h, i, j);
    hide Swapped;
    forall x | x in h
      ensures x in r
    {
      var k :| 0 <= k < |h| && h[k] == x;
      assert r[if k == i then j else if k == j then i else k] == x;
    }
    forall x | x in r
      ensures x in h
    {
      var k :| 0 <= k < |r| && r[k] == x;
      assert h[if k == i then j else if k == j then i else k] == x;
    }
  }

  lemma RearrangedOn(a: seq<Nonce>, b: seq<Nonce>, c: seq<Nonce>)
    requires Rearranged(a, b) && Rearranged(b, c)
    ensures Rearranged(a, c)
  {
  }

  /** The entries outside [from, to) are the same. */
  ghost predicate Outside(a: seq<Nonce>, b: seq<Nonce>, from: nat, to: nat) {
    |a| == |b| && forall k :: 0 <= k < |a| && (k < from || to <= k) ==> a[k] == b[k]
  }

  lemma OutsideOn(a: seq<Nonce>, b: seq<Nonce>, from: nat, to: nat, i: nat, j: nat)
    requires Outside(a, b, from, to) && from <= i < to <= |a| && from <= j < to
    ensures Outside(a, Swapped(b, i, j), from, to)
  {
  }

  /** In the first n entries only entry j may be too small, and then its children still suit its parent. */
  ghost predicate Rising(h: seq<Nonce>, n: nat, j: nat)
    requires n <= |h|
  {
    && (forall k :: 0 <= k < n && k != j ==> Ordered(h, k))
    && (forall k :: 0 < k < n && Parent(k) == j ==> h[Parent(j)] <= h[k])
  }

  lemma RisingDone(h: seq<Nonce>, n: nat, j: nat)
    requires j < n <= |h| && Rising(h, n, j) && h[Parent(j)] <= h[j]
    ensures forall k :: 0 <= k < n ==> Ordered(h, k)
  {
  }

  lemma RisingStep(h: seq<Nonce>, n: nat, j: nat)
    requires 0 < j < n <= |h| && Rising(h, n, j) && h[j] < h[Parent(j)]
    ensures Rising(Swapped(h, Parent(j), j), n, Parent(j))
  {
    var p := Parent(j);
    var r := Swapped(h, p, j);
    hide Swapped, Parent;
    assert p == 0 || Ordered(h, p);
    forall k | 0 <= k < n && k != p
      ensures Ordered(r, k)
    {
      if k != j {
        assert Ordered(h, k);
      }
    }
    forall k | 0 < k < n && Parent(k) == p
      ensures r[Parent(p)] <= r[k]
    {
      if k != j {
        assert Ordered(h, k);
      }
    }
  }

  /**
   * Among the first n entries, those whose parent is at least lo are in order, except for the children of i
   * and for i0; a child of i suits the parent of i once i has left i0.
   */
  ghost predicate Sinking(h: seq<Nonce>, n: nat, lo: nat, i0: nat, i: nat)
    requires n <= |h| && i < n
  {
    && (forall k :: 0 < k < n && k != i0 && lo <= Parent(k) != i ==> Ordered(h, k))
    && (i != i0 ==> forall k :: 0 < k < n && Parent(k) == i ==> h[Parent(i)] <= h[k])
  }

  /** Those entries are in order without exception other than i0. */
  ghost predicate Sunk(h: seq<Nonce>, n: nat, lo: nat, i0: nat)
    requires n <= |h|
  {
    forall k :: 0 < k < n && k != i0 && lo <= Parent(k) ==> Ordered(h, k)
  }

  /** j is the smaller child of i among the first n entries. */
  ghost predicate SmallerChild(h: seq<Nonce>, n: nat, i: nat, j: nat)
    requires n <= |h|
  {
    0 < j < n && Parent(j) == i && forall k :: 0 < k < n && Parent(k) == i ==> h[j] <= h[k]
  }

  lemma SinkingStep(h: seq<Nonce>, n: nat, lo: nat, i0: nat, i: nat, j: nat)
    requires n <= |h| && lo <= i0 <= i < n && SmallerChild(h, n, i, j)
    requires Sinking(h, n, lo, i0, i) && h[j] < h[i]
    ensures Sinking(Swapped(h, i, j), n, lo, i0, j)
  {
    var r := Swapped(h, i, j);
    hide Swapped, Parent;
    forall k | 0 < k < n && k != i0 && lo <= Parent(k) != j
      ensures Ordered(r, k)
    {
      if Parent(k) != i {
        assert Ordered(h, k);
      }
    }
    forall k | 0 < k < n && Parent(k) == j
      ensures r[Parent(j)] <= r[k]
    {
      assert Ordered(h, k);
    }
  }

  lemma SinkingDone(h: seq<Nonce>, n: nat, lo: nat, i0: nat, i: nat, j: nat)
    requires n <= |h| && i < n && Sinking(h, n, lo, i0, i)
    requires 2 * i + 1 >= n || (SmallerChild(h, n, i, j) && h[i] <= h[j])
    ensures Sunk(h, n, lo, i0)
  {
    forall k | 0 < k < n && Parent(k) == i
      ensures h[i] <= h[k]
    {
      ParentIs(k, i);
    }
  }

  lemma Chosen(h: seq<Nonce>, n: nat, i: nat, j: nat)
    requires j < n <= |h|
    requires (j == 2 * i + 1 && (j + 1 < n ==> h[j] <= h[j + 1])) || (j == 2 * i + 2 && h[j] < h[j - 1])
    ensures SmallerChild(h, n, i, j) && i < j
  {
    forall k | 0 < k < n && Parent(k) == i
      ensures h[j] <= h[k]
    {
      ParentIs(k, i);
    }
  }

  /** The nonces of a queue, kept as a heap by sifting. */
  class NonceHeap {
    var nonces: seq<Nonce>

    constructor ()
      ensures nonces == []
    {
      nonces := [];
    }

    /** Raises entry j until its parent is no larger. */
    method Up(j0: nat, ghost n: nat)
      requires j0 < n <= |nonces| && Rising(nonces, n, j0)
      modifies this
      ensures Rearranged(old(nonces), nonces) && Outside(old(nonces), nonces, 0, n)
      ensures forall k :: 0 <= k < n ==> Ordered(nonces, k)
    {
      var j: nat := j0;
      while true
        invariant j < n <= |nonces| && Rising(nonces, n, j)
        invariant Rearranged(old(nonces), nonces) && Outside(old(nonces), nonces, 0, n)
        decreases j
      {
        hide Swapped, Rising, Rearranged, Outside;
        var i := Parent(j);
        if i == j || !(nonces[j] < nonces[i]) {
          RisingDone(nonces, n, j);
          break;
        }
        RisingStep(nonces, n, j);
        SwapRearranges(nonces, i, j);
        RearrangedOn(old(nonces), nonces, Swapped(nonces, i, j));
        OutsideOn(old(nonces), nonces, 0, n, i, j);
        nonces := Swapped(nonces, i, j);
        j := i;
      }
    }

    /** Lowers entry i0 among the first n entries until no child is smaller. */
    method Down(i0: nat, n: nat, ghost lo: nat) returns (moved: bool)
      requires lo <= i0 < n <= |nonces| && Sinking(nonces, n, lo, i0, i0)
      modifies this
      ensures Rearranged(old(nonces), nonces) && Outside(old(nonces), nonces, i0, n)
      ensures Sunk(nonces, n, lo, i0)
      ensures !moved ==> nonces == old(nonces)
      ensures moved ==> exists c :: 0 < c < n && Parent(c) == i0 && nonces[i0] == old(nonces)[c]
    {
      var i: nat := i0;
      ghost var c := 0;
      while true
        invariant i0 <= i < n <= |nonces| && Sinking(nonces, n, lo, i0, i)
        invariant Rearranged(old(nonces), nonces) && Outside(old(nonces), nonces, i0, n)
        invariant i == i0 ==> nonces == old(nonces)
        invariant i > i0 ==> 0 < c < n && Parent(c) == i0 && nonces[i0] == old(nonces)[c]
        decreases n - i
      {
        hide Swapped, Parent, Sinking, Sunk, Rearranged, SmallerChild, Outside;
        var left := 2 * i + 1;
        if left >= n {
          SinkingDone(nonces, n, lo, i0, i, left);
          break;
        }
        var j := left;
        if left + 1 < n && nonces[left + 1] < nonces[left] {
          j := left + 1;
        }
        Chosen(nonces, n, i, j);
        if !(nonces[j] < nonces[i]) {
          SinkingDone(nonces, n, lo, i0, i, j);
          break;
        }
        SinkingStep(nonces, n, lo, i0, i, j);
        SwapRearranges(nonces, i, j);
        RearrangedOn(old(nonces), nonces, Swapped(nonces, i, j));
        OutsideOn(old(nonces), nonces, i0, n, i, j);
        if i == i0 {
          c := j;
        }
        nonces := Swapped(nonces, i, j);
        i := j;
      }
      moved := i > i0;
    }

    /** Adds a nonce. */
    method Push(x: Nonce)
      requires Heap(nonces)
      modifies this
      ensures Heap(nonces) && Rearranged(old(nonces) + [x], nonces)
    {
      Grown(nonces, x);
      nonces := nonces + [x];
      Up(|nonces| - 1, |nonces|);
    }

    /** Takes the least nonce away. */
    method Pop() returns (x: Nonce)
      requires Heap(nonces) && nonces != []
      modifies this
      ensures Heap(nonces) && x == old(nonces)[0] && Rearranged(old(nonces), nonces + [x])
    {
      var n := |nonces| - 1;
      SwapRearranges(nonces, 0, n);
      PopSinks(nonces, n);
      nonces := Swapped(nonces, 0, n);
      if n > 0 {
        var _ := Down(0, n, 0);
      }
      x := nonces[n];
      Cut(nonces, n);
      nonces := nonces[..n];
    }

    /** Takes the nonce at place i away. */
    method Remove(i: nat)
      requires Heap(nonces) && i < |nonces|
      modifies this
      ensures Heap(nonces) && Rearranged(old(nonces), nonces + [old(nonces)[i]])
    {
      var n := |nonces| - 1;
      if n != i {
        SwapRearranges(nonces, i, n);
        RemoveSinks(nonces, i, n);
        nonces := Swapped(nonces, i, n);
        label swapped:
        var moved := Down(i, n, 0);
        if !moved {
          Up(i, n);
        } else {
          RemoveSunk(old@swapped(nonces), nonces, i, n);
        }
      }
      Cut(nonces, n);
      nonces := nonces[..n];
    }

    /** Makes a heap of whatever order the nonces are in. */
    method Init()
      modifies this
      ensures Heap(nonces) && Rearranged(old(nonces), nonces)
    {
      var n := |nonces|;
      var i: nat := n / 2;
      while i > 0
        invariant i <= n / 2 && n == |nonces|
        invariant Sunk(nonces, n, i, n)
        invariant Rearranged(old(nonces), nonces)
      {
        i := i - 1;
        var _ := Down(i, n, i);
      }
    }
  }

  lemma Grown(h: seq<Nonce>, x: Nonce)
    requires Heap(h)
    ensures Rising(h + [x], |h| + 1, |h|)
  {
    forall k | 0 <= k < |h|
      ensures Ordered(h + [x], k)
    {
      assert Ordered(h, k);
    }
  }

  /** With its least entry swapped to the end, the rest of a heap is in order but for the children of the root. */
  lemma PopSinks(h: seq<Nonce>, n: nat)
    requires Heap(h) && n == |h| - 1
    ensures n > 0 ==> Sinking(Swapped(h, 0, n), n, 0, 0, 0)
  {
    var r := Swapped(h, 0, n);
    hide Swapped, Parent;
    forall k | 0 < k < n && Parent(k) != 0
      ensures Ordered(r, k)
    {
      assert Ordered(h, k);
    }
  }

  /** With an entry swapped to the end, the children of its place suit the parent of its place. */
  lemma RemoveSinks(h: seq<Nonce>, i: nat, n: nat)
    requires Heap(h) && i < n == |h| - 1
    ensures Sinking(Swapped(h, i, n), n, 0, i, i)
    ensures forall k :: 0 < k < n && Parent(k) == i && i > 0 ==> Swapped(h, i, n)[Parent(i)] <= Swapped(h, i, n)[k]
  {
    var r := Swapped(h, i, n);
    hide Swapped, Parent;
    assert Ordered(h, i);
    forall k | 0 < k < n
      ensures Ordered(h, k) && (k != i && Parent(k) != i ==> Ordered(r, k))
    {
      assert Ordered(h, k);
    }
  }

  /** A child that has risen to the place suits the parent of the place. */
  lemma RemoveSunk(h: seq<Nonce>, r: seq<Nonce>, i: nat, n: nat)
    requires i < n <= |h| == |r| && Sunk(r, n, 0, i) && Outside(h, r, i, n)
    requires forall k :: 0 < k < n && Parent(k) == i && i > 0 ==> h[Parent(i)] <= h[k]
    requires exists c :: 0 < c < n && Parent(c) == i && r[i] == h[c]
    ensures forall k :: 0 <= k < n ==> Ordered(r, k)
  {
    var c :| 0 < c < n && Parent(c) == i && r[i] == h[c];
  }

  /** A sequence ordered as a heap below n is a heap once cut there. */
  lemma Cut(h: seq<Nonce>, n: nat)
    requires n == |h| - 1 && forall k :: 0 <= k < n ==> Ordered(h, k)
    ensures Heap(h[..n]) && h == h[..n] + [h[n]]
  {
    forall k | 0 <= k < n
      ensures Ordered(h[..n], k)
    {
      assert Ordered(h, k);
    }
  }
}
