/**
 Nodes of the Merkle Patricia trie and the canonical shape the trie keeps
 (common/trie/node.go, common/trie/trie.go).
 Keys are sequences of nibbles 0..15 closed by the terminator 16.
 */
module TrieNode {
  import opened Basics

  type Key = seq<nat>
  type Val = seq<nat>
  type Digest = seq<nat>

  datatype Node =
    | Nil
    | Value(v: Val)
    | Short(key: Key, val: Node)
    | Full(ch: seq<Node>)
    | Hash(h: Digest)

  const TERM: nat := 16

  predicate Nibbles(k: Key) {
    forall i :: 0 <= i < |k| ==> k[i] < TERM
  }

  /** A key, or what is left of one: nibbles and then the terminator. */
  predicate IsKey(k: Key) {
    |k| > 0 && k[|k| - 1] == TERM && forall i :: 0 <= i < |k| - 1 ==> k[i] < TERM
  }

  /** What a short node's key may be above the given child. */
  predicate ShortFits(k: Key, v: Node) {
    if v.Value? then IsKey(k) && v.v != [] else k != [] && Nibbles(k) && v.Full?
  }

  ghost predicate TwoChildren(ch: seq<Node>) {
    exists i, j :: 0 <= i < j < |ch| && !ch[i].Nil? && !ch[j].Nil?
  }

  /**
   The canonical shape of a fully loaded subtrie: short keys are not empty, a short node leads to
   a value or a full node, a full node has at least two children, stored values are not empty.
   */
  ghost predicate Canon(t: Node) {
    match t
    case Nil => true
    case Value(_) => false
    case Hash(_) => false
    case Short(k, v) => ShortFits(k, v) && (v.Full? ==> Canon(v))
    case Full(ch) =>
      && |ch| == 17
      && (ch[16].Nil? || (ch[16].Value? && ch[16].v != []))
      && (forall i :: 0 <= i < 16 ==> Canon(ch[i]))
      && TwoChildren(ch)
  }

  /** The value a fully loaded subtrie holds under a key. */
  ghost function Lookup(t: Node, key: Key): Option<Val> {
    match t
    case Nil => None
    case Value(v) => if key == [] then Some(v) else None
    case Short(k, v) => if k <= key then Lookup(v, key[|k|..]) else None
    case Full(ch) => if key != [] && key[0] < |ch| then Lookup(ch[key[0]], key[1..]) else None
    case Hash(_) => None
  }

  // ---- digests ----

  /** Encoding and hashing of a node whose children are hashed. */
  type Hasher = Node -> Digest

  /** The digest of a node: children that are nodes themselves count by their digests. */
  function DigestOf(f: Hasher, n: Node): Digest
    requires n.Short? || n.Full? || n.Hash?
    decreases n, 0
  {
    match n
    case Hash(h) => h
    case Short(k, v) => f(Short(k, Mark(f, v)))
    case Full(ch) => f(Full(seq(|ch|, i requires 0 <= i < |ch| => Mark(f, ch[i]))))
  }

  /** A node as its parent sees it. */
  function Mark(f: Hasher, n: Node): Node
    decreases n, 1
  {
    if n.Nil? || n.Value? then n else Hash(DigestOf(f, n))
  }

  // ---- keys ----

  lemma KeyTail(k: Key, i: nat)
    requires IsKey(k) && i < |k|
    ensures IsKey(k[i..])
  {
    assert forall j :: 0 <= j < |k| - i - 1 ==> k[i..][j] == k[i + j];
  }

  lemma KeyJoin(a: Key, b: Key)
    requires Nibbles(a) && IsKey(b)
    ensures IsKey(a + b)
  {
  }

  /** No key is a proper prefix of another, nor a prefix of a run of nibbles. */
  lemma KeyPrefixFree(a: Key, b: Key)
    requires IsKey(a) && (IsKey(b) || Nibbles(b))
    ensures a <= b ==> a == b
  {
    assert a <= b ==> b[|a| - 1] == TERM;
  }

  // ---- uniqueness of the canonical trie ----

  /** A canonical subtrie that is not empty holds a value under some key. */
  lemma {:induction false} SomeKey(t: Node) returns (k: Key)
    requires Canon(t) && !t.Nil?
    ensures IsKey(k) && Lookup(t, k).Some?
    ensures t.Short? ==> t.key <= k
  {
    if t.Short? {
      if t.val.Value? {
        k := t.key;
      } else {
        var k' := SomeKey(t.val);
        k := t.key + k';
        KeyJoin(t.key, k');
        assert k[|t.key|..] == k';
      }
    } else {
      var i, j :| 0 <= i < j < |t.ch| && !t.ch[i].Nil? && !t.ch[j].Nil?;
      k := SomeKeyBelow(t.ch, i);
    }
  }

  lemma {:induction false} SomeKeyBelow(ch: seq<Node>, i: nat) returns (k: Key)
    requires Canon(Full(ch)) && i < 17 && !ch[i].Nil?
    ensures IsKey(k) && k[0] == i && Lookup(Full(ch), k).Some?
    decreases ch, i
  {
    if i == 16 {
      k := [16];
      assert k[1..] == [];
    } else {
      var k' := SomeKey(ch[i]);
      KeyJoin([i], k');
      k := [i] + k';
      assert k[1..] == k';
    }
  }

  ghost predicate SameContents(t: Node, u: Node) {
    forall k :: IsKey(k) ==> Lookup(t, k) == Lookup(u, k)
  }

  lemma FullBranches(t: Node) returns (k1: Key, k2: Key)
    requires Canon(t) && t.Full?
    ensures IsKey(k1) && IsKey(k2) && k1[0] != k2[0]
    ensures Lookup(t, k1).Some? && Lookup(t, k2).Some?
  {
    var i, j :| 0 <= i < j < |t.ch| && !t.ch[i].Nil? && !t.ch[j].Nil?;
    k1 := SomeKeyBelow(t.ch, i);
    k2 := SomeKeyBelow(t.ch, j);
  }

  lemma ShortNotFull(t: Node, u: Node)
    requires Canon(t) && Canon(u) && t.Short? && u.Full?
    ensures !SameContents(t, u)
  {
    var k1, k2 := FullBranches(u);
    assert !(t.key <= k1 && t.key <= k2);
  }

  lemma LookupBelow(t: Node, k: Key)
    requires t.Short?
    ensures Lookup(t, t.key + k) == Lookup(t.val, k)
  {
    assert (t.key + k)[|t.key|..] == k;
  }

  lemma ShortKeyNotShorter(t: Node, u: Node)
    requires Canon(t) && Canon(u) && t.Short? && u.Short? && SameContents(t, u)
    ensures |t.key| >= |u.key|
  {
    if t.val.Value? {
      LookupBelow(t, []);
      assert t.key + [] == t.key;
    } else {
      var k1, k2 := FullBranches(t.val);
      LookupBelow(t, k1);
      LookupBelow(t, k2);
      KeyJoin(t.key, k1);
      KeyJoin(t.key, k2);
      assert u.key <= t.key + k1 && u.key <= t.key + k2;
      assert (t.key + k1)[|t.key|] != (t.key + k2)[|t.key|];
    }
  }

  lemma ShortSameKey(t: Node, u: Node)
    requires Canon(t) && Canon(u) && t.Short? && u.Short? && SameContents(t, u)
    ensures t.key == u.key
  {
    ShortKeyNotShorter(t, u);
    ShortKeyNotShorter(u, t);
    var k := SomeKey(t);
    assert u.key <= k;
  }

  /** Canonical tries with the same contents are the same trie. */
  lemma {:induction false} CanonUnique(t: Node, u: Node)
    requires Canon(t) && Canon(u) && SameContents(t, u)
    ensures t == u
    decreases t, 1
  {
    if t.Nil? || u.Nil? {
      if !t.Nil? {
        var k := SomeKey(t);
      }
      if !u.Nil? {
        var k := SomeKey(u);
      }
    } else if t.Short? && u.Short? {
      ShortSameKey(t, u);
      ShortUnique(t, u);
    } else if t.Short? {
      ShortNotFull(t, u);
    } else if u.Short? {
      ShortNotFull(u, t);
    } else {
      FullUnique(t, u);
    }
  }

  lemma {:induction false} ShortUnique(t: Node, u: Node)
    requires Canon(t) && Canon(u) && t.Short? && u.Short? && SameContents(t, u)
    requires t.key == u.key
    ensures t == u
    decreases t, 0
  {
    if t.val.Value? {
      LookupBelow(t, []);
      LookupBelow(u, []);
      assert t.key + [] == t.key;
    } else {
      forall k | IsKey(k)
        ensures Lookup(t.val, k) == Lookup(u.val, k)
      {
        KeyJoin(t.key, k);
        LookupBelow(t, k);
        LookupBelow(u, k);
      }
      assert u.key[|u.key| - 1] < TERM;
      CanonUnique(t.val, u.val);
    }
  }

  lemma {:induction false} FullUnique(t: Node, u: Node)
    requires Canon(t) && Canon(u) && t.Full? && u.Full? && SameContents(t, u)
    ensures t == u
    decreases t, 0
  {
    forall i | 0 <= i < 16
      ensures t.ch[i] == u.ch[i]
    {
      forall k | IsKey(k)
        ensures Lookup(t.ch[i], k) == Lookup(u.ch[i], k)
      {
        KeyJoin([i], k);
        assert ([i] + k)[1..] == k;
        assert Lookup(t, [i] + k) == Lookup(u, [i] + k);
      }
      CanonUnique(t.ch[i], u.ch[i]);
    }
    assert IsKey([16]) && [16][1..] == [];
    assert Lookup(t, [16]) == Lookup(t.ch[16], []) && Lookup(u, [16]) == Lookup(u.ch[16], []);
    assert Lookup(t, [16]) == Lookup(u, [16]);
    assert t.ch[16] == u.ch[16];
  }
}
