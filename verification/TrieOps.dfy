/**
 tryGet, insert and delete of common/trie/trie.go, as functions returning new nodes.
 Parts of a trie may be hash nodes, resolved from the database on the way down.
 */
module TrieOps {
  import opened Basics
  import opened TrieNode

  /** The decoded nodes a database returns, by digest. */
  type Db = map<Digest, Node>

  datatype Outcome = Done(dirty: bool, node: Node) | Missing(h: Digest)

  datatype GetOutcome = Got(value: Option<Val>, node: Node, didResolve: bool) | GetMissing(h: Digest)

  // ---- shapes the operations are defined on ----

  /** The shape of a partly loaded subtrie; what hash nodes stand for is not constrained. */
  ghost predicate Shape(n: Node) {
    match n
    case Nil => true
    case Hash(_) => true
    case Value(_) => false
    case Short(k, v) =>
      if v.Value? then IsKey(k) else k != [] && Nibbles(k) && (v.Full? || v.Hash?) && Shape(v)
    case Full(ch) =>
      && |ch| == 17
      && (ch[16].Nil? || ch[16].Value?)
      && (forall i :: 0 <= i < 16 ==> Shape(ch[i]))
  }

  /** Every stored node is a short or a full node of proper shape. */
  ghost predicate DbShape(db: Db) {
    forall h :: h in db ==> (db[h].Short? || db[h].Full?) && Shape(db[h])
  }

  /** A node and the rest of the key that leads into it: values sit exactly at the end of keys. */
  ghost predicate At(n: Node, key: Key) {
    if key == [] then n.Nil? || n.Value? else IsKey(key) && Shape(n)
  }

  // ---- prefixes and children ----

  /** The length of the longest common prefix. */
  function PrefixLen(a: Key, b: Key): (m: nat)
    ensures m <= |a| && m <= |b| && forall x :: 0 <= x < m ==> a[x] == b[x]
    ensures m < |a| && m < |b| ==> a[m] != b[m]
  {
    if a == [] || b == [] || a[0] != b[0] then 0
    else
      var m := PrefixLen(a[1..], b[1..]);
      assert forall x :: 0 < x <= m ==> a[x] == a[1..][x - 1] && b[x] == b[1..][x - 1];
      m + 1
  }

  /** prefixLen of common/trie/encoding.go. */
  method ComputePrefixLen(a: Key, b: Key) returns (i: nat)
    ensures i == PrefixLen(a, b)
  {
    i := 0;
    var length := |a|;
    if |b| < length {
      length := |b|;
    }
    while i < length
      invariant i <= length
      invariant forall x :: 0 <= x < i ==> a[x] == b[x]
    {
      if a[i] != b[i] {
        break;
      }
      i := i + 1;
    }
  }

  lemma PrefixLenWhole(a: Key, b: Key)
    ensures PrefixLen(a, b) == |b| <==> b <= a
  {
  }

  /** The index of the only child, -1 when there is none, -2 when there are two or more. */
  function OnlyChild(ch: seq<Node>): (pos: int)
    ensures pos == -1 <==> forall i :: 0 <= i < |ch| ==> ch[i].Nil?
    ensures pos >= 0 ==> pos < |ch| && !ch[pos].Nil?
    ensures pos >= 0 ==> forall i :: 0 <= i < |ch| && i != pos ==> ch[i].Nil?
    ensures pos < -1 ==> pos == -2 && TwoChildren(ch)
  {
    if ch == [] then -1
    else
      var last := |ch| - 1;
      var pos := OnlyChild(ch[..last]);
      if ch[last].Nil? then
        assert pos == -2 ==> TwoChildren(ch) by {
          if pos == -2 {
            var i, j :| 0 <= i < j < last && !ch[..last][i].Nil? && !ch[..last][j].Nil?;
            assert !ch[i].Nil? && !ch[j].Nil?;
          }
        }
        assert forall i :: 0 <= i < last ==> ch[i] == ch[..last][i];
        pos
      else if pos == -1 then
        assert forall i :: 0 <= i < last ==> ch[i] == ch[..last][i];
        last
      else
        assert TwoChildren(ch) by {
          if pos >= 0 {
            assert !ch[pos].Nil? && pos < last;
          } else {
            var i, j :| 0 <= i < j < last && !ch[..last][i].Nil? && !ch[..last][j].Nil?;
            assert !ch[i].Nil? && !ch[j].Nil?;
          }
        }
        -2
  }

  /** The scan in delete that looks for a single remaining child. */
  method FindOnlyChild(ch: seq<Node>) returns (pos: int)
    ensures pos == OnlyChild(ch)
  {
    pos := -1;
    var i := 0;
    while i < |ch|
      invariant 0 <= i <= |ch|
      invariant -1 <= pos < i
      invariant pos == -1 ==> forall x :: 0 <= x < i ==> ch[x].Nil?
      invariant pos >= 0 ==> !ch[pos].Nil? && forall x :: 0 <= x < i && x != pos ==> ch[x].Nil?
    {
      if !ch[i].Nil? {
        if pos == -1 {
          pos := i;
        } else {
          assert TwoChildren(ch);
          pos := -2;
          break;
        }
      }
      i := i + 1;
    }
  }

  function NoChildren(): (ch: seq<Node>)
    ensures |ch| == 17 && forall i :: 0 <= i < 17 ==> ch[i].Nil?
  {
    seq(17, _ => Nil)
  }

  // ---- the operations ----

  /** Where two keys part, both go on. */
  lemma KeysPart(key: Key, k: Key, v: Node)
    requires IsKey(key) && Shape(Short(k, v))
    ensures var m := PrefixLen(key, k);
            && (m == |k| ==> At(v, key[m..]))
            && (m < |k| ==> m < |key| && key[m] <= 16 && k[m] <= 16 && key[m] != k[m])
            && (m == |k| && m == |key| <==> key == k)
  {
    var m := PrefixLen(key, k);
    PrefixLenWhole(key, k);
    KeyPrefixFree(key, k);
    if v.Value? {
      KeyPrefixFree(k, key);
    }
    if m == |k| && m < |key| {
      KeyTail(key, m);
    }
  }

  function TryGet(db: Db, n: Node, key: Key, pos: nat): (r: GetOutcome)
    requires DbShape(db) && pos <= |key| && At(n, key[pos..])
    decreases |key| - pos, if n.Hash? then 1 else 0
  {
    match n
    case Nil => Got(None, Nil, false)
    case Value(v) => Got(Some(v), n, false)
    case Short(k, v) =>
      if |key| - pos < |k| || k != key[pos..pos + |k|] then Got(None, n, false)
      else
        assert At(v, key[pos + |k|..]) by {
          KeysPart(key[pos..], k, v);
          PrefixLenWhole(key[pos..], k);
          assert key[pos..][|k|..] == key[pos + |k|..];
        }
        match TryGet(db, v, key, pos + |k|) {
          case GetMissing(h) => GetMissing(h)
          case Got(value, newnode, didResolve) => Got(value, if didResolve then Short(k, newnode) else n, didResolve)
        }
    case Full(ch) =>
      assert At(ch[key[pos]], key[pos + 1..]) by { ChildAt(ch, key[pos..]); assert key[pos..][1..] == key[pos + 1..]; }
      (match TryGet(db, ch[key[pos]], key, pos + 1) {
        case GetMissing(h) => GetMissing(h)
        case Got(value, newnode, didResolve) =>
          Got(value, if didResolve then Full(ch[key[pos] := newnode]) else n, didResolve)
      })
    case Hash(h) =>
      if h !in db then GetMissing(h)
      else
        match TryGet(db, db[h], key, pos)
        case GetMissing(h') => GetMissing(h')
        case Got(value, newnode, _) => Got(value, newnode, true)
  }

  lemma ChildAt(ch: seq<Node>, key: Key)
    requires IsKey(key) && Shape(Full(ch))
    ensures key[0] <= 16 && At(ch[key[0]], key[1..])
  {
    if |key| > 1 {
      KeyTail(key, 1);
    } else {
      assert key[1..] == [];
    }
  }

  function Insert(db: Db, n: Node, key: Key, value: Node): (r: Outcome)
    requires DbShape(db)
    requires n.Nil? || (value.Value? && At(n, key))
    ensures n.Nil? ==> r.Done?
    decreases if n.Nil? then 0 else |key| + 1, if n.Hash? then 1 else 0
  {
    if key == [] then
      if n.Value? then Done(n != value, value) else Done(true, value)
    else
      match n
      case Short(k, v) =>
        var m := PrefixLen(key, k);
        KeysPart(key, k, v);
        if m == |k| then
          match Insert(db, v, key[m..], value)
          case Missing(h) => Missing(h)
          case Done(dirty, nn) => if !dirty then Done(false, n) else Done(true, Short(k, nn))
        else
          // inserting into nothing never misses a node
          var held, added := Insert(db, Nil, k[m + 1..], v), Insert(db, Nil, key[m + 1..], value);
          var branch := Full(NoChildren()[k[m] := held.node][key[m] := added.node]);
          if m == 0 then Done(true, branch) else Done(true, Short(key[..m], branch))
      case Full(ch) =>
        ChildAt(ch, key);
        (match Insert(db, ch[key[0]], key[1..], value)
        case Missing(h) => Missing(h)
        case Done(dirty, nn) => if !dirty then Done(false, n) else Done(true, Full(ch[key[0] := nn])))
      case Nil => Done(true, Short(key, value))
      case Hash(h) =>
        if h !in db then Missing(h)
        else
          match Insert(db, db[h], key, value)
          case Missing(h') => Missing(h')
          case Done(dirty, nn) => if !dirty then Done(false, db[h]) else Done(true, nn)
  }

  /** A loaded node as it is, a hash node as the database has it. */
  function Resolve(db: Db, n: Node): Outcome {
    match n
    case Hash(h) => if h in db then Done(false, db[h]) else Missing(h)
    case _ => Done(false, n)
  }

  function Delete(db: Db, n: Node, key: Key): (r: Outcome)
    requires DbShape(db) && At(n, key)
    decreases |key|, if n.Hash? then 1 else 0
  {
    match n
    case Short(k, v) =>
      var m := PrefixLen(key, k);
      KeysPart(key, k, v);
      if m < |k| then Done(false, n)
      else if m == |key| then Done(true, Nil)
      else
        (match Delete(db, v, key[|k|..])
        case Missing(h) => Missing(h)
        case Done(dirty, child) =>
          if !dirty then Done(false, n)
          else if child.Short? then Done(true, Short(k + child.key, child.val))
          else Done(true, Short(k, child)))
    case Full(ch) =>
      ChildAt(ch, key);
      (match Delete(db, ch[key[0]], key[1..])
      case Missing(h) => Missing(h)
      case Done(dirty, nn) => if !dirty then Done(false, n) else Reduce(db, ch[key[0] := nn]))
    case Value(_) => Done(true, Nil)
    case Nil => Done(false, Nil)
    case Hash(h) =>
      if h !in db then Missing(h)
      else
        match Delete(db, db[h], key)
        case Missing(h') => Missing(h')
        case Done(dirty, nn) => if !dirty then Done(false, db[h]) else Done(true, nn)
  }

  /** A full node with one child left becomes a short node, merged with a short child. */
  function Reduce(db: Db, ch: seq<Node>): Outcome {
    var pos := OnlyChild(ch);
    if pos >= 0 then
      if pos != 16 then
        match Resolve(db, ch[pos])
        case Missing(h) => Missing(h)
        case Done(_, cnode) =>
          if cnode.Short? then Done(true, Short([pos] + cnode.key, cnode.val)) else Done(true, Short([pos], ch[pos]))
      else Done(true, Short([pos], ch[pos]))
    else Done(true, Full(ch))
  }
}
