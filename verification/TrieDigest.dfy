/**
 Digests of tries that are only partly in memory. Hashing is injective and the database keeps every node
 under its digest, so a digest tells the trie, whatever part of it is loaded.
 */
module TrieDigest {
  import opened Basics
  import opened TrieNode
  import opened TrieOps
  import opened TrieResolve

  ghost predicate Injective(f: Hasher) {
    forall a, b :: f(a) == f(b) ==> a == b
  }

  /** Every node is stored under its digest. */
  ghost predicate Addressed(f: Hasher, db: Db) {
    forall h :: h in db ==> (db[h].Short? || db[h].Full?) && DigestOf(f, db[h]) == h
  }

  /** A node has the digest of the trie it stands for. */
  lemma {:induction false} StandsMark(f: Hasher, db: Db, n: Node, t: Node, strict: bool)
    requires Stands(f, db, n, t, strict)
    ensures Mark(f, n) == Mark(f, t)
    decreases t
  {
    match n
    case Short(k, v) => StandsMark(f, db, v, t.val, strict);
    case Full(ch) =>
      forall i | 0 <= i < |ch|
        ensures Mark(f, ch[i]) == Mark(f, t.ch[i])
      {
        StandsMark(f, db, ch[i], t.ch[i], strict);
      }
      MarkFull(f, ch, t.ch);
    case _ =>
  }

  lemma MarkFull(f: Hasher, a: seq<Node>, b: seq<Node>)
    requires |a| == |b| && forall i :: 0 <= i < |a| ==> Mark(f, a[i]) == Mark(f, b[i])
    ensures DigestOf(f, Full(a)) == DigestOf(f, Full(b))
  {
    hide Mark;
    assert seq(|a|, i requires 0 <= i < |a| => Mark(f, a[i])) == seq(|b|, i requires 0 <= i < |b| => Mark(f, b[i]));
  }

  lemma FullMark(f: Hasher, a: seq<Node>, b: seq<Node>)
    requires Injective(f) && DigestOf(f, Full(a)) == DigestOf(f, Full(b))
    ensures |a| == |b| && forall i :: 0 <= i < |a| ==> Mark(f, a[i]) == Mark(f, b[i])
  {
    hide Mark;
    var x := seq(|a|, i requires 0 <= i < |a| => Mark(f, a[i]));
    var y := seq(|b|, i requires 0 <= i < |b| => Mark(f, b[i]));
    assert Full(x) == Full(y);
    assert forall i :: 0 <= i < |a| ==> x[i] == Mark(f, a[i]);
    assert forall i :: 0 <= i < |b| ==> y[i] == Mark(f, b[i]);
  }

  /** The digest tells the trie: whatever has it, loaded or not, stands for that trie. */
  lemma {:induction false} MarkTells(f: Hasher, db: Db, n: Node, t: Node)
    requires Injective(f) && Addressed(f, db) && (Canon(t) || t.Value?) && Mark(f, n) == Mark(f, t)
    ensures Stands(f, db, n, t, false)
    decreases t, if n.Hash? then 1 else 0
  {
    match n
    case Hash(h) =>
      if h in db {
        MarkTells(f, db, db[h], t);
      }
    case Short(k, v) =>
      ShortTells(f, db, n, t);
    case Full(ch) =>
      FullTells(f, db, n, t);
    case _ =>
  }

  lemma {:induction false} ShortTells(f: Hasher, db: Db, n: Node, t: Node)
    requires Injective(f) && Addressed(f, db) && Canon(t) && n.Short? && Mark(f, n) == Mark(f, t)
    ensures Stands(f, db, n, t, false)
    decreases t, 0, 0
  {
    assert f(Short(n.key, Mark(f, n.val))) == DigestOf(f, t);
    assert t.Short? && n.key == t.key && Mark(f, n.val) == Mark(f, t.val);
    MarkTells(f, db, n.val, t.val);
  }

  lemma {:induction false} FullTells(f: Hasher, db: Db, n: Node, t: Node)
    requires Injective(f) && Addressed(f, db) && Canon(t) && n.Full? && Mark(f, n) == Mark(f, t)
    ensures Stands(f, db, n, t, false)
    decreases t, 0, 0
  {
    assert t.Full?;
    FullMark(f, n.ch, t.ch);
    forall i | 0 <= i < |n.ch|
      ensures Stands(f, db, n.ch[i], t.ch[i], false)
    {
      MarkTells(f, db, n.ch[i], t.ch[i]);
    }
  }

  /** Canonical tries with the same digest are the same trie. */
  lemma MarkUnique(f: Hasher, t: Node, u: Node)
    requires Injective(f) && Canon(t) && Canon(u) && Mark(f, t) == Mark(f, u)
    ensures t == u
  {
    MarkTells(f, map[], t, u);
    StandsLoaded(f, map[], t, u, false);
  }

  /** A loaded trie stands for itself only. */
  lemma {:induction false} StandsLoaded(f: Hasher, db: Db, n: Node, t: Node, strict: bool)
    requires (Canon(n) || n.Value?) && Stands(f, db, n, t, strict)
    ensures n == t
    decreases t
  {
    match n
    case Short(k, v) => StandsLoaded(f, db, v, t.val, strict);
    case Full(ch) =>
      forall i | 0 <= i < |ch|
        ensures ch[i] == t.ch[i]
      {
        StandsLoaded(f, db, ch[i], t.ch[i], strict);
      }
    case _ =>
  }

  // ---- nodes leaving memory ----

  ghost predicate Grown(db: Db, db': Db) {
    forall h :: h in db ==> h in db' && db'[h] == db[h]
  }

  /** n' is n with some subtries replaced by their hash nodes, the database having what was replaced. */
  ghost predicate Collapses(f: Hasher, db: Db, n: Node, n': Node)
    decreases n, if n'.Hash? then 1 else 0
  {
    match n'
    case Nil => n.Nil?
    case Value(_) => n == n'
    case Short(k, v) => n.Short? && n.key == k && Collapses(f, db, n.val, v)
    case Full(ch) => n.Full? && |n.ch| == |ch| && forall i :: 0 <= i < |ch| ==> Collapses(f, db, n.ch[i], ch[i])
    case Hash(h) =>
      || n == n'
      || ((n.Short? || n.Full?) && h == DigestOf(f, n) && h in db && !db[h].Hash? && Collapses(f, db, n, db[h]))
  }

  lemma {:induction false} StandsGrown(f: Hasher, db: Db, db': Db, n: Node, t: Node)
    requires Stands(f, db, n, t, true) && Grown(db, db')
    ensures Stands(f, db', n, t, true)
    decreases t, if n.Hash? then 1 else 0
  {
    match n
    case Short(k, v) => StandsGrown(f, db, db', v, t.val);
    case Full(ch) =>
      forall i | 0 <= i < |ch|
        ensures Stands(f, db', ch[i], t.ch[i], true)
      {
        StandsGrown(f, db, db', ch[i], t.ch[i]);
      }
    case Hash(h) => StandsGrown(f, db, db', db[h], t);
    case _ =>
  }

  /** Replacing loaded subtries by hash nodes keeps the trie, and every node of it can still be found. */
  lemma {:induction false} CollapseStands(f: Hasher, db: Db, db': Db, n: Node, n': Node, t: Node)
    requires Stands(f, db, n, t, true) && Grown(db, db') && Collapses(f, db', n, n')
    ensures Stands(f, db', n', t, true)
    decreases t, if n'.Hash? then 1 else 0
  {
    match n'
    case Short(k, v) => CollapseStands(f, db, db', n.val, v, t.val);
    case Full(ch) =>
      forall i | 0 <= i < |ch|
        ensures Stands(f, db', ch[i], t.ch[i], true)
      {
        CollapseStands(f, db, db', n.ch[i], ch[i], t.ch[i]);
      }
    case Hash(h) =>
      if n == n' {
        StandsGrown(f, db, db', n, t);
      } else {
        StandsMark(f, db, n, t, true);
        CollapseStands(f, db, db', n, db'[h], t);
      }
    case _ =>
  }
}
