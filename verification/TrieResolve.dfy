/**
 Tries that are only partly in memory. Any subtrie may be a hash node; the operations load
 what they need and otherwise do to the node what they would do to the fully loaded trie.
 */
module TrieResolve {
  import opened TrieNode
  import opened TrieOps
  import opened TrieMap

  /**
   The node stands for the loaded trie t: equal to it except where a hash node holds the digest of the
   subtrie there, and its database entry, if there is one, stands for that subtrie. With strict, every
   hash node met is in the database.
   */
  ghost predicate Stands(f: Hasher, db: Db, n: Node, t: Node, strict: bool)
    decreases t, if n.Hash? then 1 else 0
  {
    match n
    case Nil => t.Nil?
    case Value(v) => t.Value? && t.v == v
    case Short(k, v) => t.Short? && t.key == k && Stands(f, db, v, t.val, strict)
    case Full(ch) =>
      t.Full? && |ch| == |t.ch| && forall i :: 0 <= i < |ch| ==> Stands(f, db, ch[i], t.ch[i], strict)
    case Hash(h) =>
      && (t.Short? || t.Full?) && h == DigestOf(f, t)
      && (if h in db then !db[h].Hash? && Stands(f, db, db[h], t, strict) else !strict)
  }

  lemma {:induction false} StandsShape(f: Hasher, db: Db, n: Node, t: Node, strict: bool)
    requires Canon(t) && Stands(f, db, n, t, strict)
    ensures Shape(n)
  {
    match n
    case Short(k, v) =>
      if t.val.Full? {
        StandsShape(f, db, v, t.val, strict);
      }
    case Full(ch) =>
      forall i | 0 <= i < 16
        ensures Shape(ch[i])
      {
        StandsShape(f, db, ch[i], t.ch[i], strict);
      }
    case _ =>
  }

  lemma StandsAt(f: Hasher, db: Db, n: Node, t: Node, strict: bool, key: Key)
    requires Sub(t, key) && Stands(f, db, n, t, strict)
    ensures At(n, key)
  {
    if key != [] {
      StandsShape(f, db, n, t, strict);
    }
  }

  /** A loaded trie stands for itself. */
  lemma {:induction false} StandsSelf(f: Hasher, db: Db, t: Node, strict: bool)
    requires Canon(t) || t.Value?
    ensures Stands(f, db, t, t, strict)
  {
    match t
    case Short(_, v) => StandsSelf(f, db, v, strict);
    case Full(ch) =>
      forall i | 0 <= i < |ch|
        ensures Stands(f, db, ch[i], ch[i], strict)
      {
        StandsSelf(f, db, ch[i], strict);
      }
    case _ =>
  }

  /** tryGet returns what the loaded trie holds, and a node that still stands for that trie. */
  lemma {:induction false} GetStands(f: Hasher, db: Db, n: Node, t: Node, strict: bool, key: Key, pos: nat)
    requires DbShape(db) && pos <= |key| && Sub(t, key[pos..]) && Stands(f, db, n, t, strict)
    ensures At(n, key[pos..])
    ensures match TryGet(db, n, key, pos)
            case GetMissing(h) => !strict && h !in db
            case Got(value, newnode, _) => value == Lookup(t, key[pos..]) && Stands(f, db, newnode, t, strict)
    decreases t, if n.Hash? then 2 else 1
  {
    StandsAt(f, db, n, t, strict, key[pos..]);
    match n
    case Short(_, _) => GetStandsShort(f, db, n, t, strict, key, pos);
    case Full(ch) =>
      SubChild(t.ch, key[pos..]);
      assert key[pos..][1..] == key[pos + 1..];
      GetStands(f, db, ch[key[pos]], t.ch[key[pos]], strict, key, pos + 1);
    case Hash(h) =>
      if h in db {
        GetStands(f, db, db[h], t, strict, key, pos);
      }
    case _ =>
  }

  lemma {:induction false} GetStandsShort(f: Hasher, db: Db, n: Node, t: Node, strict: bool, key: Key, pos: nat)
    requires DbShape(db) && pos < |key| && Sub(t, key[pos..]) && Stands(f, db, n, t, strict) && n.Short?
    ensures At(n, key[pos..])
    ensures match TryGet(db, n, key, pos)
            case GetMissing(h) => !strict && h !in db
            case Got(value, newnode, _) => value == Lookup(t, key[pos..]) && Stands(f, db, newnode, t, strict)
    decreases t, 0
  {
    StandsAt(f, db, n, t, strict, key[pos..]);
    var k, rest := n.key, key[pos..];
    if |rest| < |k| || k != key[pos..pos + |k|] {
      assert !(k <= rest) by {
        assert |k| <= |rest| ==> rest[..|k|] == key[pos..pos + |k|];
      }
    } else {
      assert rest[..|k|] == key[pos..pos + |k|];
      SubBelow(k, t.val, rest);
      assert rest[|k|..] == key[pos + |k|..];
      GetStands(f, db, n.val, t.val, strict, key, pos + |k|);
    }
  }

  /** What insert does to a node is what it does to the trie the node stands for. */
  ghost predicate Agree(f: Hasher, db: Db, r: Outcome, rt: Outcome, strict: bool) {
    match r
    case Missing(h) => !strict && h !in db
    case Done(dirty, node) => rt.Done? && dirty == rt.dirty && Stands(f, db, node, rt.node, strict)
  }

  lemma {:induction false} InsertStands(f: Hasher, db: Db, n: Node, t: Node, strict: bool, key: Key, value: Node)
    requires DbShape(db) && Sub(t, key) && value.Value? && value.v != [] && Stands(f, db, n, t, strict)
    ensures At(n, key) && At(t, key)
    ensures Agree(f, db, Insert(db, n, key, value), Insert(db, t, key, value), strict)
    decreases t, if n.Hash? then 1 else 0
  {
    StandsAt(f, db, n, t, strict, key);
    SubAt(t, key);
    InsertCanon(db, t, key, value);
    if key != [] {
      match n
      case Short(k, v) =>
        PrefixLenWhole(key, k);
        if k <= key {
          SubBelow(k, t.val, key);
          InsertStands(f, db, v, t.val, strict, key[|k|..], value);
        } else {
          InsertStandsPart(f, db, n, t, strict, key, value);
        }
      case Full(ch) =>
        SubChild(t.ch, key);
        InsertStands(f, db, ch[key[0]], t.ch[key[0]], strict, key[1..], value);
      case Hash(h) =>
        if h in db {
          InsertStands(f, db, db[h], t, strict, key, value);
        }
      case Nil =>
        StandsSelf(f, db, value, strict);
    }
  }

  lemma InsertStandsPart(f: Hasher, db: Db, n: Node, t: Node, strict: bool, key: Key, value: Node)
    requires DbShape(db) && Canon(t) && IsKey(key) && value.Value? && value.v != [] && Stands(f, db, n, t, strict)
    requires n.Short? && !(n.key <= key)
    ensures At(n, key) && At(t, key)
    ensures Agree(f, db, Insert(db, n, key, value), Insert(db, t, key, value), strict)
  {
    StandsAt(f, db, n, t, strict, key);
    SubAt(t, key);
    var k, m := n.key, PrefixLen(key, n.key);
    PrefixLenWhole(key, k);
    InsertPart(db, t, key, value);
    KeysPart(key, k, n.val);
    assert Insert(db, Nil, k[m + 1..], n.val).node == Hang(k[m + 1..], n.val);
    assert Insert(db, Nil, key[m + 1..], value).node == Hang(key[m + 1..], value);
    assert Insert(db, n, key, value) == Done(true, Branch(key, k, m, n.val, value));
    BranchStands(f, db, key, k, m, n.val, t.val, value, strict);
  }

  lemma BranchStands(f: Hasher, db: Db, key: Key, k: Key, m: nat, v: Node, tv: Node, value: Node, strict: bool)
    requires m < |key| && m < |k| && key[m] <= 16 && k[m] <= 16
    requires Stands(f, db, v, tv, strict) && value.Value?
    ensures Stands(f, db, Branch(key, k, m, v, value), Branch(key, k, m, tv, value), strict)
  {
    HangStands(f, db, k[m + 1..], v, tv, strict);
    HangStands(f, db, key[m + 1..], value, value, strict);
    var ch := NoChildren()[k[m] := Hang(k[m + 1..], v)][key[m] := Hang(key[m + 1..], value)];
    var tch := NoChildren()[k[m] := Hang(k[m + 1..], tv)][key[m] := Hang(key[m + 1..], value)];
    forall i | 0 <= i < 17
      ensures Stands(f, db, ch[i], tch[i], strict)
    {
      if i == key[m] || i == k[m] {
      } else {
        assert ch[i].Nil? && tch[i].Nil?;
      }
    }
    assert Stands(f, db, Full(ch), Full(tch), strict);
  }

  lemma HangStands(f: Hasher, db: Db, rest: Key, v: Node, tv: Node, strict: bool)
    requires Stands(f, db, v, tv, strict)
    ensures Stands(f, db, Hang(rest, v), Hang(rest, tv), strict)
  {
  }

  lemma StandsNil(f: Hasher, db: Db, n: Node, t: Node, strict: bool)
    requires Stands(f, db, n, t, strict)
    ensures n.Nil? <==> t.Nil?
    ensures !n.Hash? ==> (n.Short? <==> t.Short?)
  {
  }

  lemma OnlyChildSame(ch: seq<Node>, ch': seq<Node>)
    requires |ch| == |ch'| && forall i :: 0 <= i < |ch| ==> (ch[i].Nil? <==> ch'[i].Nil?)
    ensures OnlyChild(ch) == OnlyChild(ch')
  {
    if TwoChildren(ch) {
      var i, j :| 0 <= i < j < |ch| && !ch[i].Nil? && !ch[j].Nil?;
      assert !ch'[i].Nil? && !ch'[j].Nil?;
    }
    if TwoChildren(ch') {
      var i, j :| 0 <= i < j < |ch| && !ch'[i].Nil? && !ch'[j].Nil?;
      assert !ch[i].Nil? && !ch[j].Nil?;
    }
  }

  lemma ReduceStands(f: Hasher, db: Db, ch: seq<Node>, tch: seq<Node>, strict: bool)
    requires DbShape(db) && |ch| == |tch| == 17
    requires forall i :: 0 <= i < 17 ==> Stands(f, db, ch[i], tch[i], strict)
    requires forall i :: 0 <= i < 17 ==> !tch[i].Hash?
    ensures Agree(f, db, Reduce(db, ch), Reduce(db, tch), strict)
    ensures Reduce(db, ch).Done? ==> !Reduce(db, ch).node.Hash?
  {
    forall i | 0 <= i < 17
      ensures ch[i].Nil? <==> tch[i].Nil?
    {
      StandsNil(f, db, ch[i], tch[i], strict);
    }
    OnlyChildSame(ch, tch);
    var pos := OnlyChild(ch);
    if pos >= 0 {
      StandsNil(f, db, ch[pos], tch[pos], strict);
      if ch[pos].Hash? && ch[pos].h in db {
        StandsNil(f, db, db[ch[pos].h], tch[pos], strict);
      }
    }
  }

  lemma {:induction false} DeleteStands(f: Hasher, db: Db, n: Node, t: Node, strict: bool, key: Key)
    requires DbShape(db) && Sub(t, key) && Stands(f, db, n, t, strict)
    ensures At(n, key) && At(t, key)
    ensures Agree(f, db, Delete(db, n, key), Delete(db, t, key), strict)
    ensures var r := Delete(db, n, key); r.Done? && r.dirty ==> !r.node.Hash?
    decreases t, if n.Hash? then 2 else 1
  {
    StandsAt(f, db, n, t, strict, key);
    SubAt(t, key);
    DeleteCanon(db, t, key);
    match n
    case Short(_, _) => DeleteStandsShort(f, db, n, t, strict, key);
    case Full(_) => DeleteStandsFull(f, db, n, t, strict, key);
    case Hash(h) =>
      if h in db {
        DeleteStands(f, db, db[h], t, strict, key);
      }
    case _ =>
  }

  lemma {:induction false} DeleteStandsShort(f: Hasher, db: Db, n: Node, t: Node, strict: bool, key: Key)
    requires DbShape(db) && Canon(t) && IsKey(key) && Stands(f, db, n, t, strict) && n.Short?
    ensures At(n, key) && At(t, key)
    ensures Agree(f, db, Delete(db, n, key), Delete(db, t, key), strict)
    ensures var r := Delete(db, n, key); r.Done? && r.dirty ==> !r.node.Hash?
    decreases t, 0
  {
    StandsAt(f, db, n, t, strict, key);
    SubAt(t, key);
    PrefixLenWhole(key, n.key);
    KeysPart(key, n.key, n.val);
    KeysPart(key, n.key, t.val);
    if n.key <= key && |n.key| < |key| {
      SubBelow(n.key, t.val, key);
      DeleteStands(f, db, n.val, t.val, strict, key[|n.key|..]);
      var r, rt := Delete(db, n.val, key[|n.key|..]), Delete(db, t.val, key[|n.key|..]);
      if r.Done? {
        StandsNil(f, db, r.node, rt.node, strict);
      }
    }
  }

  lemma {:induction false} DeleteStandsFull(f: Hasher, db: Db, n: Node, t: Node, strict: bool, key: Key)
    requires DbShape(db) && Canon(t) && IsKey(key) && Stands(f, db, n, t, strict) && n.Full?
    ensures At(n, key) && At(t, key)
    ensures Agree(f, db, Delete(db, n, key), Delete(db, t, key), strict)
    ensures var r := Delete(db, n, key); r.Done? && r.dirty ==> !r.node.Hash?
    decreases t, 0
  {
    StandsAt(f, db, n, t, strict, key);
    SubAt(t, key);
    SubChild(t.ch, key);
    var i := key[0];
    DeleteStands(f, db, n.ch[i], t.ch[i], strict, key[1..]);
    DeleteCanon(db, t.ch[i], key[1..]);
    var r, rt := Delete(db, n.ch[i], key[1..]), Delete(db, t.ch[i], key[1..]);
    if r.Done? && r.dirty {
      ReduceStands(f, db, n.ch[i := r.node], t.ch[i := rt.node], strict);
    }
  }
}
