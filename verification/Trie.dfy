/**
 The trie object (common/trie/trie.go) and its whole runs: whatever sequence of updates,
 deletions and reads is made, and whatever part of the trie is in memory, it behaves as a
 finite map, and its canonical form depends on the map alone.
 */
module Trie {
  import opened Basics
  import opened Bytes
  import opened TrieNode
  import opened TrieEncoding
  import opened TrieOps
  import opened TrieMap
  import opened TrieResolve
  import opened TrieDigest

  class Trie {
    const db: Db
    const dbWrite: Option<Db>
    var root: Node
    /** The trie with every hash node loaded. */
    ghost var tree: Node
    /** Whether the databases hold every node the trie refers to. */
    ghost const complete: bool
    /** Encoding and hashing, as hash nodes were made by it. */
    ghost const f: Hasher

    /** What resolveHash can find: the write database first, then the other. */
    function View(): Db {
      Both(db, dbWrite)
    }

    ghost predicate Valid()
      reads this
    {
      DbShape(View()) && Canon(tree) && Stands(f, View(), root, tree, complete)
    }

    /** A trie over a given root node, already resolved or empty. */
    constructor (db: Db, dbWrite: Option<Db>, root: Node, ghost tree: Node, ghost complete: bool, ghost f: Hasher)
      requires DbShape(Both(db, dbWrite)) && Canon(tree) && Stands(f, Both(db, dbWrite), root, tree, complete)
      ensures Valid() && this.tree == tree && this.root == root && this.complete == complete
      ensures this.db == db && this.dbWrite == dbWrite && this.f == f
    {
      this.db := db;
      this.dbWrite := dbWrite;
      this.root := root;
      this.tree := tree;
      this.complete := complete;
      this.f := f;
    }

    /** The stored value, or the digest of a node the databases do not have. Loads nodes into the root. */
    method TryGet(key: seq<byte>) returns (value: Option<Val>, err: Option<Digest>)
      requires Valid()
      modifies this`root
      ensures Valid()
      ensures err.None? ==> value == Lookup(tree, HexKey(key))
      ensures err.Some? ==> !complete && err.value !in View() && root == old(root)
    {
      var k := KeybytesToHex(key);
      assert k[0..] == k;
      GetStands(f, View(), root, tree, complete, k, 0);
      var r := TrieOps.TryGet(View(), root, k, 0);
      if r.GetMissing? {
        return None, Some(r.h);
      }
      if r.didResolve {
        root := r.node;
      }
      return r.value, None;
    }

    /** Binds the key, or unbinds it when the value is empty. */
    method TryUpdate(key: seq<byte>, value: Val) returns (err: Option<Digest>)
      requires Valid()
      modifies this`root, this`tree
      ensures Valid()
      ensures err.None? ==> Bound(old(tree), tree, HexKey(key), if value == [] then None else Some(value))
      ensures err.Some? ==> !complete && err.value !in View() && root == old(root) && tree == old(tree)
    {
      var k := KeybytesToHex(key);
      if |value| != 0 {
        InsertStands(f, View(), root, tree, complete, k, Value(value));
        var r := Insert(View(), root, k, Value(value));
        if r.Missing? {
          return Some(r.h);
        }
        InsertBinds(View(), tree, k, value);
        root := r.node;
        tree := Insert(View(), tree, k, Value(value)).node;
      } else {
        DeleteStands(f, View(), root, tree, complete, k);
        var r := Delete(View(), root, k);
        if r.Missing? {
          return Some(r.h);
        }
        DeleteBinds(View(), tree, k);
        root := r.node;
        tree := Delete(View(), tree, k).node;
      }
      return None;
    }

    method TryDelete(key: seq<byte>) returns (err: Option<Digest>)
      requires Valid()
      modifies this`root, this`tree
      ensures Valid()
      ensures err.None? ==> Bound(old(tree), tree, HexKey(key), None)
      ensures err.Some? ==> !complete && err.value !in View() && root == old(root) && tree == old(tree)
    {
      var k := KeybytesToHex(key);
      DeleteStands(f, View(), root, tree, complete, k);
      var r := Delete(View(), root, k);
      if r.Missing? {
        return Some(r.h);
      }
      DeleteBinds(View(), tree, k);
      root := r.node;
      tree := Delete(View(), tree, k).node;
      return None;
    }
  }

  function Both(db: Db, dbWrite: Option<Db>): Db {
    if dbWrite.Some? then db + dbWrite.value else db
  }

  /**
   A trie from a root hash, with none for the zero hash and for the hash of the empty trie: any other is
   resolved at once, and there is no trie exactly when the databases do not have it.
   */
  method New(db: Db, dbWrite: Option<Db>, root: Option<Digest>, ghost tree: Node, ghost complete: bool,
             ghost f: Hasher)
    returns (t: Option<Trie>)
    requires DbShape(Both(db, dbWrite)) && Canon(tree)
    requires root.None? ==> tree.Nil?
    requires root.Some? ==> Stands(f, Both(db, dbWrite), Hash(root.value), tree, complete)
    ensures t.None? <==> root.Some? && root.value !in Both(db, dbWrite)
    ensures t.None? ==> !complete
    ensures t.Some? ==> fresh(t.value) && t.value.Valid() && t.value.View() == Both(db, dbWrite)
    ensures t.Some? ==> t.value.tree == tree && t.value.complete == complete && t.value.f == f
    ensures t.Some? ==> t.value.root == if root.None? then Nil else Both(db, dbWrite)[root.value]
  {
    var node := Nil;
    if root.Some? {
      var h := root.value;
      if dbWrite.Some? && h in dbWrite.value {
        node := dbWrite.value[h];
      } else if h in db {
        node := db[h];
      } else {
        return None;
      }
    }
    var trie := new Trie(db, dbWrite, node, tree, complete, f);
    t := Some(trie);
  }

  /** The second trie holds what the first does, except under one key. */
  ghost predicate Bound(t: Node, u: Node, key: Key, v: Option<Val>) {
    forall q :: IsKey(q) ==> Lookup(u, q) == if q == key then v else Lookup(t, q)
  }

  lemma InsertBinds(db: Db, t: Node, key: Key, v: Val)
    requires DbShape(db) && Canon(t) && IsKey(key) && v != []
    ensures At(t, key) && Insert(db, t, key, Value(v)).Done?
    ensures var u := Insert(db, t, key, Value(v)).node; Canon(u) && Bound(t, u, key, Some(v))
  {
    InsertCanon(db, t, key, Value(v));
    forall q | IsKey(q)
      ensures Lookup(Insert(db, t, key, Value(v)).node, q) == if q == key then Some(v) else Lookup(t, q)
    {
      InsertLookup(db, t, key, Value(v), q);
    }
  }

  lemma DeleteBinds(db: Db, t: Node, key: Key)
    requires DbShape(db) && Canon(t) && IsKey(key)
    ensures At(t, key) && Delete(db, t, key).Done?
    ensures var u := Delete(db, t, key).node; Canon(u) && Bound(t, u, key, None)
  {
    DeleteCanon(db, t, key);
    forall q | IsKey(q)
      ensures Lookup(Delete(db, t, key).node, q) == if q == key then None else Lookup(t, q)
    {
      DeleteLookup(db, t, key, q);
    }
  }

  // ---- whole runs ----

  datatype Op = Get(key: seq<byte>) | Update(key: seq<byte>, value: Val) | Remove(key: seq<byte>)

  /** The root after one operation and whether the operation failed for want of a node. */
  datatype StepResult = StepResult(root: Node, failed: bool)

  /** A failed operation leaves the root as it was. */
  function Finish(root: Node, r: Outcome): StepResult {
    if r.Missing? then StepResult(root, true) else StepResult(r.node, false)
  }

  function GetStep(db: Db, root: Node, k: Key): StepResult
    requires DbShape(db) && Shape(root) && IsKey(k)
  {
    assert k[0..] == k;
    match TryGet(db, root, k, 0)
    case GetMissing(_) => StepResult(root, true)
    case Got(_, node, didResolve) => StepResult(if didResolve then node else root, false)
  }

  function Step(db: Db, root: Node, op: Op): StepResult
    requires DbShape(db) && Shape(root)
  {
    var k := HexKey(op.key);
    match op
    case Get(_) => GetStep(db, root, k)
    case Update(_, value) =>
      Finish(root, if value != [] then Insert(db, root, k, Value(value)) else Delete(db, root, k))
    case Remove(_) => Finish(root, Delete(db, root, k))
  }

  /** The same operation on a finite map from hex keys. */
  function MapStep(m: map<Key, Val>, op: Op): map<Key, Val> {
    var k := HexKey(op.key);
    match op
    case Get(_) => m
    case Update(_, value) => if value != [] then m[k := value] else m - {k}
    case Remove(_) => m - {k}
  }

  ghost predicate Contents(t: Node, m: map<Key, Val>) {
    forall q :: IsKey(q) ==> Lookup(t, q) == if q in m then Some(m[q]) else None
  }

  /** What a step must do: fail and change nothing, or reach a root for a canonical trie with the new contents. */
  ghost predicate StepTo(f: Hasher, db: Db, root: Node, r: StepResult, t: Node, u: Node, m: map<Key, Val>,
                         strict: bool) {
    && (r.failed ==> !strict && r.root == root && u == t)
    && (!r.failed ==> Canon(u) && Stands(f, db, r.root, u, strict) && Contents(u, m))
  }

  lemma InsertStep(f: Hasher, db: Db, root: Node, t: Node, strict: bool, m: map<Key, Val>, k: Key, v: Val)
    returns (u: Node)
    requires DbShape(db) && Canon(t) && Stands(f, db, root, t, strict) && Contents(t, m) && IsKey(k) && v != []
    ensures At(root, k)
    ensures StepTo(f, db, root, Finish(root, Insert(db, root, k, Value(v))), t, u, m[k := v], strict)
  {
    InsertStands(f, db, root, t, strict, k, Value(v));
    InsertBinds(db, t, k, v);
    u := if Insert(db, root, k, Value(v)).Missing? then t else Insert(db, t, k, Value(v)).node;
  }

  lemma DeleteStep(f: Hasher, db: Db, root: Node, t: Node, strict: bool, m: map<Key, Val>, k: Key) returns (u: Node)
    requires DbShape(db) && Canon(t) && Stands(f, db, root, t, strict) && Contents(t, m) && IsKey(k)
    ensures At(root, k)
    ensures StepTo(f, db, root, Finish(root, Delete(db, root, k)), t, u, m - {k}, strict)
  {
    DeleteStands(f, db, root, t, strict, k);
    DeleteBinds(db, t, k);
    u := if Delete(db, root, k).Missing? then t else Delete(db, t, k).node;
  }

  lemma GetStepKeeps(f: Hasher, db: Db, root: Node, t: Node, strict: bool, m: map<Key, Val>, k: Key)
    requires DbShape(db) && Canon(t) && Stands(f, db, root, t, strict) && Contents(t, m) && IsKey(k) && Shape(root)
    ensures StepTo(f, db, root, GetStep(db, root, k), t, t, m, strict)
  {
    assert k[0..] == k;
    GetStands(f, db, root, t, strict, k, 0);
  }

  lemma StepIsMapStep(f: Hasher, db: Db, root: Node, t: Node, strict: bool, m: map<Key, Val>, op: Op) returns (u: Node)
    requires DbShape(db) && Canon(t) && Stands(f, db, root, t, strict) && Contents(t, m)
    ensures Shape(root)
    ensures StepTo(f, db, root, Step(db, root, op), t, u, MapStep(m, op), strict)
  {
    var k := HexKey(op.key);
    StandsShape(f, db, root, t, strict);
    match op
    case Get(_) =>
      GetStepKeeps(f, db, root, t, strict, m, k);
      u := t;
    case Update(_, value) =>
      if value != [] {
        u := InsertStep(f, db, root, t, strict, m, k, value);
      } else {
        u := DeleteStep(f, db, root, t, strict, m, k);
      }
    case Remove(_) =>
      u := DeleteStep(f, db, root, t, strict, m, k);
  }

  /** A trie in memory and the database under it. */
  datatype State = State(db: Db, root: Node)

  /** An operation, or a reload: nodes are written to the database and subtries leave memory or come back. */
  datatype Event = Do(op: Op) | Reload

  ghost predicate GoodState(s: State) {
    DbShape(s.db) && Shape(s.root)
  }

  /**
   A reload leaves any root of the same digest over any database that keeps nodes under their digests.
   With strict, nothing is lost: the database grows, and what leaves memory is in it.
   */
  ghost predicate Reloaded(f: Hasher, s: State, s': State, strict: bool) {
    && Addressed(f, s'.db) && Mark(f, s'.root) == Mark(f, s.root)
    && (strict ==> Grown(s.db, s'.db) && Collapses(f, s'.db, s.root, s'.root))
  }

  ghost predicate Next(f: Hasher, s: State, e: Event, s': State, failed: bool, strict: bool) {
    && GoodState(s) && GoodState(s')
    && match e
       case Do(op) => s'.db == s.db && Step(s.db, s.root, op) == StepResult(s'.root, failed)
       case Reload => !failed && Reloaded(f, s, s', strict)
  }

  /** The trie a state stands for is the trie it stands for after a reload. */
  lemma ReloadKeeps(f: Hasher, s: State, s': State, strict: bool, t: Node)
    requires Injective(f) && Reloaded(f, s, s', strict) && Canon(t) && Stands(f, s.db, s.root, t, strict)
    ensures Stands(f, s'.db, s'.root, t, strict)
  {
    if strict {
      CollapseStands(f, s.db, s'.db, s.root, s'.root, t);
    } else {
      StandsMark(f, s.db, s.root, t, strict);
      MarkTells(f, s'.db, s'.root, t);
    }
  }

  ghost predicate IsRun(f: Hasher, states: seq<State>, events: seq<Event>, marks: seq<bool>, strict: bool) {
    && |states| == |events| + 1 && |marks| == |events|
    && (forall i :: 0 <= i < |events| ==> Next(f, states[i], events[i], states[i + 1], marks[i], strict))
  }

  /** The map after the operations that did not fail. */
  function MapRun(m: map<Key, Val>, events: seq<Event>, marks: seq<bool>): map<Key, Val>
    requires |events| == |marks|
  {
    if events == [] then m
    else
      var last := |events| - 1;
      var before := MapRun(m, events[..last], marks[..last]);
      if marks[last] || events[last].Reload? then before else MapStep(before, events[last].op)
  }

  /** A state stands for a canonical trie with the contents of a map. */
  ghost predicate Holds(f: Hasher, s: State, strict: bool, t: Node, m: map<Key, Val>) {
    GoodState(s) && Canon(t) && Stands(f, s.db, s.root, t, strict) && Contents(t, m)
  }

  lemma NextHolds(f: Hasher, s: State, e: Event, s': State, failed: bool, strict: bool, t: Node, m: map<Key, Val>)
    returns (u: Node)
    requires Injective(f) && Next(f, s, e, s', failed, strict) && Holds(f, s, strict, t, m)
    ensures Holds(f, s', strict, u, if failed || e.Reload? then m else MapStep(m, e.op))
    ensures strict ==> !failed
  {
    if e.Do? {
      u := StepIsMapStep(f, s.db, s.root, t, strict, m, e.op);
    } else {
      ReloadKeeps(f, s, s', strict, t);
      u := t;
    }
  }

  /**
   After any run the root stands for a canonical trie holding exactly the map of the operations
   that succeeded. None fails while the database has every node.
   */
  lemma {:induction false} RunIsMap(f: Hasher, states: seq<State>, events: seq<Event>, marks: seq<bool>, strict: bool,
                                    t: Node, m: map<Key, Val>) returns (u: Node)
    requires Injective(f) && IsRun(f, states, events, marks, strict) && Holds(f, states[0], strict, t, m)
    ensures Holds(f, states[|events|], strict, u, MapRun(m, events, marks))
    ensures strict ==> forall i :: 0 <= i < |events| ==> !marks[i]
    decreases |events|
  {
    hide Next, Holds, MapStep, Injective;
    if events == [] {
      u := t;
    } else {
      var last := |events| - 1;
      var before := RunIsMap(f, states[..|events|], events[..last], marks[..last], strict, t, m);
      assert forall i :: 0 <= i < last ==> marks[..last][i] == marks[i];
      u := NextHolds(f, states[last], events[last], states[last + 1], marks[last], strict, before,
                     MapRun(m, events[..last], marks[..last]));
    }
  }

  lemma {:induction false} MapRunKeys(m: map<Key, Val>, events: seq<Event>, marks: seq<bool>)
    requires |events| == |marks| && forall k :: k in m ==> IsKey(k)
    ensures forall k :: k in MapRun(m, events, marks) ==> IsKey(k)
    decreases |events|
  {
    if events != [] {
      MapRunKeys(m, events[..|events| - 1], marks[..|events| - 1]);
    }
  }

  lemma ContentsTell(u: Node, v: Node, m1: map<Key, Val>, m2: map<Key, Val>)
    requires Canon(u) && Canon(v) && Contents(u, m1) && Contents(v, m2)
    requires (forall k :: k in m1 ==> IsKey(k)) && (forall k :: k in m2 ==> IsKey(k))
    ensures u == v <==> m1 == m2
  {
    if m1 == m2 {
      CanonUnique(u, v);
    }
    if u == v {
      forall k
        ensures k in m1 <==> k in m2
        ensures k in m1 && k in m2 ==> m1[k] == m2[k]
      {
        if IsKey(k) {
          assert Lookup(u, k) == Lookup(v, k);
        }
      }
    }
  }

  /**
   Two runs from the empty trie, over whatever databases and with whatever reloads, end with the same
   root digest exactly when they end with the same map: the root depends on nothing but the contents.
   */
  lemma RootTellsContents(f: Hasher, states1: seq<State>, events1: seq<Event>, marks1: seq<bool>, strict1: bool,
                          states2: seq<State>, events2: seq<Event>, marks2: seq<bool>, strict2: bool)
    requires Injective(f) && IsRun(f, states1, events1, marks1, strict1) && IsRun(f, states2, events2, marks2, strict2)
    requires GoodState(states1[0]) && GoodState(states2[0]) && states1[0].root == Nil && states2[0].root == Nil
    ensures Mark(f, states1[|events1|].root) == Mark(f, states2[|events2|].root)
       <==> MapRun(map[], events1, marks1) == MapRun(map[], events2, marks2)
  {
    var m1, m2 := MapRun(map[], events1, marks1), MapRun(map[], events2, marks2);
    var s1, s2 := states1[|events1|], states2[|events2|];
    var u := RunIsMap(f, states1, events1, marks1, strict1, Nil, map[]);
    var v := RunIsMap(f, states2, events2, marks2, strict2, Nil, map[]);
    MapRunKeys(map[], events1, marks1);
    MapRunKeys(map[], events2, marks2);
    hide MapRun, IsRun, Injective, Stands, Mark;
    ContentsTell(u, v, m1, m2);
    StandsMark(f, s1.db, s1.root, u, strict1);
    StandsMark(f, s2.db, s2.root, v, strict2);
    if Mark(f, u) == Mark(f, v) {
      MarkUnique(f, u, v);
    }
  }

  /** Reading after a run returns what the map holds. */
  lemma GetAfterRun(f: Hasher, s: State, strict: bool, u: Node, m: map<Key, Val>, key: seq<byte>)
    requires Holds(f, s, strict, u, m)
    ensures var k := HexKey(key);
            && At(s.root, k[0..])
            && match TryGet(s.db, s.root, k, 0)
               case GetMissing(h) => !strict && h !in s.db
               case Got(value, _, _) => value == if k in m then Some(m[k]) else None
  {
    var k := HexKey(key);
    assert k[0..] == k;
    GetStands(f, s.db, s.root, u, strict, k, 0);
  }
}
