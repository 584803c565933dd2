/**
 What insert and delete do to a fully loaded trie: they keep it canonical and
 change its contents exactly as a finite map would.
 */
module TrieMap {
  import opened Basics
  import opened TrieNode
  import opened TrieOps

  /** A canonical subtrie where the rest of a key leads; at the end of the key, a value or nothing. */
  ghost predicate Sub(t: Node, key: Key) {
    if key == [] then t.Nil? || (t.Value? && t.v != []) else IsKey(key) && Canon(t)
  }

  lemma {:induction false} CanonShape(t: Node)
    requires Canon(t)
    ensures Shape(t)
  {
    match t
    case Short(_, v) =>
      if v.Full? {
        CanonShape(v);
      }
    case Full(ch) =>
      forall i | 0 <= i < 16
        ensures Shape(ch[i])
      {
        CanonShape(ch[i]);
      }
    case _ =>
  }

  lemma SubAt(t: Node, key: Key)
    requires Sub(t, key)
    ensures At(t, key)
  {
    if key != [] {
      CanonShape(t);
    }
  }

  /** Below a full node the rest of the key meets a canonical child. */
  lemma SubChild(ch: seq<Node>, key: Key)
    requires Sub(Full(ch), key) && key != []
    ensures key[0] <= 16 && Sub(ch[key[0]], key[1..])
    ensures key[0] == 16 <==> key[1..] == []
  {
    if |key| > 1 {
      KeyTail(key, 1);
    } else {
      assert key[1..] == [];
    }
  }

  lemma SubBelow(k: Key, v: Node, key: Key)
    requires Sub(Short(k, v), key) && key != [] && k <= key
    ensures Sub(v, key[|k|..])
    ensures v.Value? <==> key[|k|..] == []
  {
    if v.Value? {
      KeyPrefixFree(k, key);
    } else if |k| < |key| {
      KeyTail(key, |k|);
    }
  }

  // ---- insert ----

  /** What insert builds under an empty slot. */
  function Hang(rest: Key, n: Node): Node {
    if rest == [] then n else Short(rest, n)
  }

  lemma LookupHang(rest: Key, n: Node, k: Key)
    ensures Lookup(Hang(rest, n), k) == if rest <= k then Lookup(n, k[|rest|..]) else None
  {
    assert k[0..] == k;
  }

  /** The branch insert makes where the key leaves the short node's key at position m. */
  function Branch(key: Key, k: Key, m: nat, v: Node, value: Node): (t: Node)
    requires m < |key| && m < |k| && key[m] <= 16 && k[m] <= 16
  {
    var full := Full(NoChildren()[k[m] := Hang(k[m + 1..], v)][key[m] := Hang(key[m + 1..], value)]);
    if m == 0 then full else Short(key[..m], full)
  }

  lemma SlotCanon(k: Key, m: nat, v: Node)
    requires m < |k| && ShortFits(k, v) && (v.Full? ==> Canon(v))
    ensures k[m] <= 16
    ensures k[m] == 16 ==> Hang(k[m + 1..], v) == v && v.Value?
    ensures k[m] < 16 ==> Canon(Hang(k[m + 1..], v))
    ensures !Hang(k[m + 1..], v).Nil?
  {
    if v.Value? {
      if m + 1 < |k| {
        KeyTail(k, m + 1);
      }
    }
  }

  lemma BranchCanon(key: Key, k: Key, m: nat, v: Node, value: Node)
    requires m < |key| && m < |k| && key[m] != k[m] && key[..m] == k[..m]
    requires IsKey(key) && value.Value? && value.v != []
    requires ShortFits(k, v) && (v.Full? ==> Canon(v))
    ensures key[m] <= 16 && k[m] <= 16 && Canon(Branch(key, k, m, v, value))
  {
    SlotCanon(key, m, value);
    SlotCanon(k, m, v);
    var ch := NoChildren()[k[m] := Hang(k[m + 1..], v)][key[m] := Hang(key[m + 1..], value)];
    assert !ch[k[m]].Nil? && !ch[key[m]].Nil?;
    assert TwoChildren(ch);
    assert Canon(Full(ch));
    assert forall i :: 0 <= i < m ==> key[..m][i] == key[i];
  }

  /** A prefix test split at position m. */
  lemma PrefixAt(a: Key, q: Key, m: nat)
    requires m < |a|
    ensures a <= q <==> m < |q| && a[..m] == q[..m] && a[m] == q[m] && a[m + 1..] <= q[m + 1..]
    ensures a <= q ==> q[m + 1..][|a| - m - 1..] == q[|a|..]
  {
    if m < |q| && a[..m] == q[..m] && a[m] == q[m] && a[m + 1..] <= q[m + 1..] {
      assert a == a[..m] + [a[m]] + a[m + 1..] && q == q[..m] + [q[m]] + q[m + 1..];
    }
    if a <= q {
      assert a[m + 1..] == q[m + 1..][..|a| - m - 1];
      assert a[..m] == q[..m];
    }
  }

  lemma FullLookup(key: Key, k: Key, m: nat, v: Node, value: Node, q: Key)
    requires m < |key| && m < |k| && key[m] <= 16 && k[m] <= 16 && key[m] != k[m] && m < |q|
    ensures Lookup(Full(NoChildren()[k[m] := Hang(k[m + 1..], v)][key[m] := Hang(key[m + 1..], value)]), q[m..])
         == if q[m] == key[m] then Lookup(Hang(key[m + 1..], value), q[m + 1..])
            else if q[m] == k[m] then Lookup(Hang(k[m + 1..], v), q[m + 1..])
            else None
  {
    assert q[m..][1..] == q[m + 1..];
  }

  lemma BranchLookup(key: Key, k: Key, m: nat, v: Node, value: Node, q: Key)
    requires m < |key| && m < |k| && key[m] <= 16 && k[m] <= 16 && key[m] != k[m] && key[..m] == k[..m]
    requires IsKey(key) && IsKey(q) && value.Value?
    ensures Lookup(Branch(key, k, m, v, value), q)
         == if q == key then Some(value.v) else Lookup(Short(k, v), q)
  {
    var full := Full(NoChildren()[k[m] := Hang(k[m + 1..], v)][key[m] := Hang(key[m + 1..], value)]);
    PrefixAt(key, q, m);
    PrefixAt(k, q, m);
    KeyPrefixFree(key, q);
    assert Branch(key, k, m, v, value) == Hang(key[..m], full);
    LookupHang(key[..m], full, q);
    if m < |q| {
      FullLookup(key, k, m, v, value, q);
      LookupHang(k[m + 1..], v, q[m + 1..]);
      LookupHang(key[m + 1..], value, q[m + 1..]);
      assert key[..m] <= q <==> key[..m] == q[..m];
    } else if m == |q| {
      assert q[m..] == [];
    }
  }

  lemma InsertPart(db: Db, t: Node, key: Key, value: Node)
    requires DbShape(db) && t.Short? && Canon(t) && IsKey(key) && value.Value? && PrefixLen(key, t.key) < |t.key|
    ensures var m := PrefixLen(key, t.key);
            && m < |key| && key[m] <= 16 && t.key[m] <= 16 && key[m] != t.key[m] && key[..m] == t.key[..m]
            && At(t, key) && Insert(db, t, key, value) == Done(true, Branch(key, t.key, m, t.val, value))
  {
    SubAt(t, key);
    KeysPart(key, t.key, t.val);
    var m := PrefixLen(key, t.key);
    assert Insert(db, Nil, t.key[m + 1..], t.val).node == Hang(t.key[m + 1..], t.val);
    assert Insert(db, Nil, key[m + 1..], value).node == Hang(key[m + 1..], value);
  }

  /** insert finds everything it needs, keeps the trie canonical, and reports whether it changed anything. */
  lemma {:induction false} InsertCanon(db: Db, t: Node, key: Key, value: Node)
    requires DbShape(db) && Sub(t, key) && value.Value? && value.v != []
    ensures At(t, key)
    ensures var r := Insert(db, t, key, value);
            && r.Done?
            && (key == [] ==> r.node == value)
            && (key != [] ==> Canon(r.node) && !r.node.Nil?)
            && (t.Full? ==> r.node.Full?)
            && (!r.dirty ==> r.node == t)
            && (r.dirty <==> Lookup(t, key) != Some(value.v))
    decreases t
  {
    SubAt(t, key);
    if key != [] {
      match t
      case Short(k, v) =>
        PrefixLenWhole(key, k);
        if PrefixLen(key, k) == |k| {
          KeysPart(key, k, v);
          SubBelow(k, v, key);
          InsertCanon(db, v, key[|k|..], value);
        } else {
          InsertPart(db, t, key, value);
          BranchCanon(key, k, PrefixLen(key, k), v, value);
        }
      case Full(ch) =>
        SubChild(ch, key);
        InsertCanon(db, ch[key[0]], key[1..], value);
        ReplaceChild(ch, key[0], Insert(db, ch[key[0]], key[1..], value).node);
      case Nil =>
    }
  }

  lemma ReplaceChild(ch: seq<Node>, i: nat, n: Node)
    requires Canon(Full(ch)) && i <= 16
    requires if i == 16 then n.Value? && n.v != [] else Canon(n) && !n.Nil?
    ensures Canon(Full(ch[i := n]))
  {
    var a, b :| 0 <= a < b < |ch| && !ch[a].Nil? && !ch[b].Nil?;
    var ch' := ch[i := n];
    assert !ch'[a].Nil? && !ch'[b].Nil?;
  }

  /** Changed or not, the result is the old node around the child's result. */
  lemma InsertInto(db: Db, t: Node, key: Key, value: Node)
    requires DbShape(db) && key != [] && Sub(t, key) && value.Value? && value.v != []
    requires t.Full? || (t.Short? && t.key <= key)
    ensures At(t, key) && Insert(db, t, key, value).Done?
    ensures t.Short? ==>
      && Sub(t.val, key[|t.key|..]) && At(t.val, key[|t.key|..])
      && Insert(db, t.val, key[|t.key|..], value).Done?
      && Insert(db, t, key, value).node == Short(t.key, Insert(db, t.val, key[|t.key|..], value).node)
    ensures t.Full? ==>
      && key[0] <= 16 && Sub(t.ch[key[0]], key[1..]) && At(t.ch[key[0]], key[1..])
      && Insert(db, t.ch[key[0]], key[1..], value).Done?
      && Insert(db, t, key, value).node == Full(t.ch[key[0] := Insert(db, t.ch[key[0]], key[1..], value).node])
  {
    InsertCanon(db, t, key, value);
    if t.Short? {
      PrefixLenWhole(key, t.key);
      SubBelow(t.key, t.val, key);
      InsertCanon(db, t.val, key[|t.key|..], value);
    } else {
      SubChild(t.ch, key);
      InsertCanon(db, t.ch[key[0]], key[1..], value);
    }
  }

  lemma SuffixEqual(k: Key, a: Key, b: Key)
    requires k <= a && k <= b
    ensures a == b <==> a[|k|..] == b[|k|..]
  {
    assert k + a[|k|..] == a && k + b[|k|..] == b;
  }

  lemma TailEqual(a: Key, b: Key)
    requires a != [] && b != [] && a[0] == b[0]
    ensures a == b <==> a[1..] == b[1..]
  {
    SuffixEqual([a[0]], a, b);
  }

  /** insert binds its key to the value and leaves every other key alone. */
  lemma {:induction false} InsertLookup(db: Db, t: Node, key: Key, value: Node, q: Key)
    requires DbShape(db) && Sub(t, key) && value.Value? && value.v != []
    requires if key == [] then q == [] else IsKey(q)
    ensures At(t, key) && Insert(db, t, key, value).Done?
    ensures Lookup(Insert(db, t, key, value).node, q) == if q == key then Some(value.v) else Lookup(t, q)
    decreases t, 1
  {
    SubAt(t, key);
    if key != [] {
      if t.Nil? {
        KeyPrefixFree(key, q);
        LookupHang(key, value, q);
        assert q[|q|..] == [];
      } else if t.Full? {
        InsertLookupFull(db, t, key, value, q);
      } else if t.key <= key {
        InsertLookupShort(db, t, key, value, q);
      } else {
        PrefixLenWhole(key, t.key);
        InsertPart(db, t, key, value);
        BranchLookup(key, t.key, PrefixLen(key, t.key), t.val, value, q);
      }
    }
  }

  lemma {:induction false} InsertLookupFull(db: Db, t: Node, key: Key, value: Node, q: Key)
    requires DbShape(db) && Canon(t) && t.Full? && IsKey(key) && IsKey(q) && value.Value? && value.v != []
    ensures At(t, key) && Insert(db, t, key, value).Done?
    ensures Lookup(Insert(db, t, key, value).node, q) == if q == key then Some(value.v) else Lookup(t, q)
    decreases t, 0
  {
    InsertInto(db, t, key, value);
    SubChild(t.ch, key);
    SubChild(t.ch, q);
    if q[0] == key[0] {
      TailEqual(key, q);
      InsertLookup(db, t.ch[key[0]], key[1..], value, q[1..]);
    }
  }

  lemma {:induction false} InsertLookupShort(db: Db, t: Node, key: Key, value: Node, q: Key)
    requires DbShape(db) && Canon(t) && t.Short? && t.key <= key && IsKey(key) && IsKey(q)
    requires value.Value? && value.v != []
    ensures At(t, key) && Insert(db, t, key, value).Done?
    ensures Lookup(Insert(db, t, key, value).node, q) == if q == key then Some(value.v) else Lookup(t, q)
    decreases t, 0
  {
    InsertInto(db, t, key, value);
    SubBelow(t.key, t.val, key);
    if t.key <= q {
      SubBelow(t.key, t.val, q);
      SuffixEqual(t.key, key, q);
      InsertLookup(db, t.val, key[|t.key|..], value, q[|t.key|..]);
    }
  }

  // ---- delete ----

  lemma ShortCons(i: nat, k: Key, v: Node, q: Key)
    ensures Lookup(Short([i] + k, v), q) == if q != [] && q[0] == i then Lookup(Short(k, v), q[1..]) else None
  {
    if q != [] && q[0] == i {
      assert q == [i] + q[1..];
      assert [i] + k <= q <==> k <= q[1..];
      assert k <= q[1..] ==> q[1..][|k|..] == q[|[i] + k|..];
    }
  }

  lemma ShortAppend(a: Key, k: Key, v: Node, q: Key)
    ensures Lookup(Short(a + k, v), q) == if a <= q then Lookup(Short(k, v), q[|a|..]) else None
  {
    if a <= q {
      assert q == a + q[|a|..];
      assert a + k <= q <==> k <= q[|a|..];
      assert k <= q[|a|..] ==> q[|a|..][|k|..] == q[|a + k|..];
    }
  }

  /** What is left of a full node after one child changed: canonical again, same contents as the children. */
  lemma ReduceCanon(db: Db, ch: seq<Node>)
    requires |ch| == 17 && (ch[16].Nil? || (ch[16].Value? && ch[16].v != []))
    requires forall i :: 0 <= i < 16 ==> Canon(ch[i])
    requires OnlyChild(ch) != -1
    ensures var r := Reduce(db, ch); r.Done? && r.dirty && Canon(r.node) && !r.node.Nil?
  {
    var pos := OnlyChild(ch);
    if 0 <= pos < 16 && ch[pos].Short? {
      if ch[pos].val.Value? {
        KeyJoin([pos], ch[pos].key);
      }
    }
  }

  lemma ReduceLookup(db: Db, ch: seq<Node>, q: Key)
    requires |ch| == 17 && (ch[16].Nil? || (ch[16].Value? && ch[16].v != []))
    requires forall i :: 0 <= i < 16 ==> Canon(ch[i])
    requires OnlyChild(ch) != -1 && IsKey(q)
    ensures Reduce(db, ch).Done?
    ensures q[0] <= 16 && Lookup(Reduce(db, ch).node, q) == Lookup(ch[q[0]], q[1..])
  {
    var pos := OnlyChild(ch);
    if pos >= 0 {
      if pos < 16 && ch[pos].Short? {
        ShortCons(pos, ch[pos].key, ch[pos].val, q);
      } else {
        assert [pos] <= q <==> q[0] == pos;
      }
    }
  }

  /** delete keeps the trie canonical and reports whether the key was there. */
  lemma {:induction false} DeleteCanon(db: Db, t: Node, key: Key)
    requires DbShape(db) && Sub(t, key)
    ensures At(t, key)
    ensures var r := Delete(db, t, key);
            && r.Done?
            && (key == [] ==> r.node.Nil?)
            && (key != [] ==> Canon(r.node))
            && (t.Full? ==> !r.node.Nil?)
            && (!r.dirty ==> r.node == t)
            && (r.dirty <==> Lookup(t, key).Some?)
    decreases t, 1
  {
    SubAt(t, key);
    if key != [] {
      match t
      case Short(k, v) =>
        DeleteCanonShort(db, t, key);
      case Full(ch) =>
        SubChild(ch, key);
        DeleteCanon(db, ch[key[0]], key[1..]);
        var nn := Delete(db, ch[key[0]], key[1..]);
        if nn.dirty {
          ChildRemains(ch, key[0], nn.node);
          ReduceCanon(db, ch[key[0] := nn.node]);
        }
      case Nil =>
    }
  }

  lemma {:induction false} DeleteCanonShort(db: Db, t: Node, key: Key)
    requires DbShape(db) && Sub(t, key) && key != [] && t.Short?
    ensures At(t, key)
    ensures var r := Delete(db, t, key);
            r.Done? && Canon(r.node) && (!r.dirty ==> r.node == t) && (r.dirty <==> Lookup(t, key).Some?)
    decreases t, 0
  {
    var k, v := t.key, t.val;
    SubAt(t, key);
    PrefixLenWhole(key, k);
    KeysPart(key, k, v);
    if PrefixLen(key, k) == |k| {
      SubBelow(k, v, key);
      if |k| < |key| {
        DeleteCanon(db, v, key[|k|..]);
        var child := Delete(db, v, key[|k|..]).node;
        if child.Short? && child.val.Value? {
          KeyJoin(k, child.key);
        }
      } else {
        assert key[|k|..] == [];
      }
    }
  }

  lemma ChildRemains(ch: seq<Node>, i: nat, n: Node)
    requires TwoChildren(ch) && i < |ch|
    ensures OnlyChild(ch[i := n]) != -1
  {
    var a, b :| 0 <= a < b < |ch| && !ch[a].Nil? && !ch[b].Nil?;
    assert !ch[i := n][if a == i then b else a].Nil?;
  }

  /** A short node's remaining child with the key put back in front, merged if it is short itself. */
  function Prepend(k: Key, n: Node): Node {
    if n.Short? then Short(k + n.key, n.val) else Short(k, n)
  }

  lemma PrependLookup(k: Key, n: Node, q: Key)
    ensures Lookup(Prepend(k, n), q) == if k <= q then Lookup(n, q[|k|..]) else None
  {
    if n.Short? {
      ShortAppend(k, n.key, n.val, q);
    }
  }

  lemma DeleteFromShort(db: Db, t: Node, key: Key)
    requires DbShape(db) && IsKey(key) && Canon(t) && t.Short? && t.key <= key && t.val.Full?
    ensures At(t, key) && Delete(db, t, key).Done?
    ensures IsKey(key[|t.key|..]) && At(t.val, key[|t.key|..]) && Delete(db, t.val, key[|t.key|..]).Done?
    ensures Delete(db, t, key).node == Prepend(t.key, Delete(db, t.val, key[|t.key|..]).node)
  {
    DeleteCanon(db, t, key);
    PrefixLenWhole(key, t.key);
    KeysPart(key, t.key, t.val);
    SubBelow(t.key, t.val, key);
    DeleteCanon(db, t.val, key[|t.key|..]);
  }

  /** delete unbinds its key and leaves every other key alone. */
  lemma {:induction false} DeleteLookup(db: Db, t: Node, key: Key, q: Key)
    requires DbShape(db) && Sub(t, key)
    requires if key == [] then q == [] else IsKey(q)
    ensures At(t, key) && Delete(db, t, key).Done?
    ensures Lookup(Delete(db, t, key).node, q) == if q == key then None else Lookup(t, q)
    decreases t, 1
  {
    DeleteCanon(db, t, key);
    if key != [] {
      if t.Full? {
        DeleteLookupFull(db, t, key, q);
      } else if t.Short? {
        DeleteLookupShort(db, t, key, q);
      }
    }
  }

  lemma {:induction false} DeleteLookupShort(db: Db, t: Node, key: Key, q: Key)
    requires DbShape(db) && Canon(t) && t.Short? && IsKey(key) && IsKey(q)
    ensures At(t, key) && Delete(db, t, key).Done?
    ensures Lookup(Delete(db, t, key).node, q) == if q == key then None else Lookup(t, q)
    decreases t, 0
  {
    DeleteCanon(db, t, key);
    PrefixLenWhole(key, t.key);
    if !(t.key <= key) {
    } else if t.val.Value? {
      KeyPrefixFree(t.key, key);
      KeyPrefixFree(key, q);
    } else {
      DeleteFromShort(db, t, key);
      PrependLookup(t.key, Delete(db, t.val, key[|t.key|..]).node, q);
      if t.key <= q {
        SubBelow(t.key, t.val, q);
        SuffixEqual(t.key, key, q);
        DeleteLookup(db, t.val, key[|t.key|..], q[|t.key|..]);
      }
    }
  }

  lemma {:induction false} DeleteLookupFull(db: Db, t: Node, key: Key, q: Key)
    requires DbShape(db) && Canon(t) && t.Full? && IsKey(key) && IsKey(q)
    ensures At(t, key) && Delete(db, t, key).Done?
    ensures Lookup(Delete(db, t, key).node, q) == if q == key then None else Lookup(t, q)
    decreases t, 0
  {
    var ch := t.ch;
    DeleteCanon(db, t, key);
    SubChild(ch, key);
    SubChild(ch, q);
    DeleteCanon(db, ch[key[0]], key[1..]);
    var nn := Delete(db, ch[key[0]], key[1..]);
    if q[0] == key[0] {
      TailEqual(key, q);
      DeleteLookup(db, ch[key[0]], key[1..], q[1..]);
    }
    if nn.dirty {
      ChildRemains(ch, key[0], nn.node);
      ReduceLookup(db, ch[key[0] := nn.node], q);
    }
  }
}
