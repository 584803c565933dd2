/**
 The write overlay over the state trie (database/transactionstore.go): reads are cached, writes and
 deletions are kept in a map until Flush, and a snapshot is a copy of that map. The trie is given by
 its contents, keys without a value being absent, which is how the trie itself reads them. Keys are of
 any type K and values are strings over any alphabet V.
 */
module Overlay {
  /** A Go slice: nil and empty differ, though both hold nothing. */
  datatype Slice<V> = NilSlice | Slice(data: seq<V>)

  /** An entry of the map: nil for a deleted key, otherwise a slice. */
  datatype Entry<V> = Deleted | Cached(slice: Slice<V>)

  function BytesOf<V>(s: Slice<V>): seq<V> {
    if s.NilSlice? then [] else s.data
  }

  function Held<V>(e: Entry<V>): seq<V> {
    if e.Deleted? then [] else BytesOf(e.slice)
  }

  class SyncMap<K(==), V> {
    var entries: map<K, Entry<V>>

    constructor ()
      ensures entries == map[]
    {
      entries := map[];
    }
  }

  class TransactionStore<K(==,!new), V(==,!new)> {
    var dirties: SyncMap<K, V>
    var trie: map<K, seq<V>>

    constructor (trie: map<K, seq<V>>)
      ensures fresh(dirties) && dirties.entries == map[] && this.trie == trie
    {
      dirties := new SyncMap<K, V>();
      this.trie := trie;
    }

    /** What a reader of the store finds under a key; empty is absent. */
    ghost function Seen(k: K): seq<V>
      reads this, dirties
    {
      Visible(dirties.entries, trie, k)
    }

    /** Whether a reader finds a slice under a key at all, be it empty. */
    ghost predicate Exists(k: K)
      reads this, dirties
    {
      if k in dirties.entries then dirties.entries[k].Cached? && dirties.entries[k].slice.Slice? else k in trie
    }

    method Get(key: K) returns (val: Slice<V>)
      modifies dirties
      ensures BytesOf(val) == old(Seen(key))
      ensures forall k :: Seen(k) == old(Seen(k))
      ensures val.Slice? <==> old(Exists(key))
      ensures forall k :: Exists(k) == old(Exists(k))
      ensures dirties.entries == if key in old(dirties.entries) then old(dirties.entries)
                                 else old(dirties.entries)[key := Cached(val)]
      ensures dirties == old(dirties) && trie == old(trie)
    {
      if key in dirties.entries {
        var e := dirties.entries[key];
        if e.Deleted? {
          return NilSlice;
        }
        return e.slice;
      }
      val := if key in trie then Slice(trie[key]) else NilSlice;
      dirties.entries := dirties.entries[key := Cached(val)];
    }

    method Put(key: K, value: Slice<V>)
      modifies dirties
      ensures forall k :: Seen(k) == if k == key then BytesOf(value) else old(Seen(k))
      ensures dirties.entries == old(dirties.entries)[key := Cached(value)]
      ensures dirties == old(dirties) && trie == old(trie)
    {
      dirties.entries := dirties.entries[key := Cached(value)];
    }

    method Delete(key: K)
      modifies dirties
      ensures forall k :: Seen(k) == if k == key then [] else old(Seen(k))
      ensures dirties == old(dirties) && trie == old(trie)
    {
      dirties.entries := dirties.entries[key := Deleted];
    }

    /** Every entry goes to the trie, in any order; those of deleted keys are dropped, the others stay. */
    method Flush()
      modifies this, dirties
      ensures forall k :: Seen(k) == old(Seen(k)) == TrieGet(trie, k)
      ensures dirties == old(dirties)
      ensures forall k :: k in dirties.entries <==> k in old(dirties.entries) && old(dirties.entries)[k].Cached?
    {
      var todo := dirties.entries.Keys;
      while todo != {}
        invariant dirties == old(dirties)
        invariant todo <= dirties.entries.Keys <= old(dirties.entries).Keys
        invariant forall k :: k in dirties.entries ==> dirties.entries[k] == old(dirties.entries)[k]
        invariant forall k :: k in old(dirties.entries) && k !in dirties.entries ==> old(dirties.entries)[k].Deleted?
        invariant forall k :: k in dirties.entries && k !in todo ==> dirties.entries[k].Cached?
        invariant forall k :: k !in todo ==> TrieGet(trie, k) == old(Seen(k))
        decreases todo
      {
        var key :| key in todo;
        var e := dirties.entries[key];
        trie := TrieUpdate(trie, key, Held(e));
        if e.Deleted? {
          dirties.entries := dirties.entries - {key};
        }
        todo := todo - {key};
      }
    }

    method CopyState() returns (snap: SyncMap<K, V>)
      ensures fresh(snap)
      ensures snap.entries.Keys == dirties.entries.Keys
      ensures forall k :: k in snap.entries ==> snap.entries[k] == Copied(dirties.entries[k])
    {
      snap := new SyncMap<K, V>();
      var todo := dirties.entries.Keys;
      while todo != {}
        invariant fresh(snap) && todo <= dirties.entries.Keys
        invariant snap.entries.Keys == dirties.entries.Keys - todo
        invariant forall k :: k in snap.entries ==> snap.entries[k] == Copied(dirties.entries[k])
        decreases todo
      {
        var key :| key in todo;
        var e := dirties.entries[key];
        if e.Deleted? {
          snap.entries := snap.entries[key := e];
        } else {
          snap.entries := snap.entries[key := Cached(Slice(BytesOf(e.slice)))];
        }
        todo := todo - {key};
      }
    }

    /** The snapshot's own map becomes the live one. */
    method RevertState(snap: SyncMap<K, V>)
      modifies this
      ensures dirties == snap && trie == old(trie)
      ensures forall k :: Seen(k) == Visible(snap.entries, trie, k)
    {
      dirties := snap;
    }
  }

  function TrieGet<K, V>(trie: map<K, seq<V>>, k: K): seq<V> {
    if k in trie then trie[k] else []
  }

  /** An empty value removes the key. */
  function TrieUpdate<K, V(==)>(trie: map<K, seq<V>>, k: K, v: seq<V>): map<K, seq<V>> {
    if v == [] then trie - {k} else trie[k := v]
  }

  function Visible<K, V>(entries: map<K, Entry<V>>, trie: map<K, seq<V>>, k: K): seq<V> {
    if k in entries then Held(entries[k]) else TrieGet(trie, k)
  }

  /** The key was read and not found. */
  predicate CachedNil<K, V(==)>(entries: map<K, Entry<V>>, k: K) {
    k in entries && entries[k] == Cached(NilSlice)
  }

  function Copied<V>(e: Entry<V>): Entry<V> {
    if e.Deleted? then e else Cached(Slice(BytesOf(e.slice)))
  }

  // ---- undoing ----

  datatype Access<K, V> = Read(key: K) | Write(key: K, value: Slice<V>) | Erase(key: K) | FlushAll

  /** Accesses to the store one after another, as a processor makes them. */
  method Apply<K(==,!new), V(==,!new)>(s: TransactionStore<K, V>, accesses: seq<Access<K, V>>)
    modifies s, s.dirties
    ensures s.dirties == old(s.dirties)
    ensures FlushAll !in accesses ==> s.trie == old(s.trie)
    ensures forall k :: s.Seen(k) == Played(accesses, k, old(s.Seen(k)))
  {
    var i := 0;
    while i < |accesses|
      invariant 0 <= i <= |accesses|
      invariant s.dirties == old(s.dirties)
      invariant FlushAll !in accesses[..i] ==> s.trie == old(s.trie)
      invariant forall k :: s.Seen(k) == Played(accesses[..i], k, old(s.Seen(k)))
    {
      assert accesses[..i + 1][..i] == accesses[..i];
      match accesses[i] {
        case Read(key) => var _ := s.Get(key);
        case Write(key, value) => s.Put(key, value);
        case Erase(key) => s.Delete(key);
        case FlushAll => s.Flush();
      }
      i := i + 1;
    }
    assert accesses[..i] == accesses;
  }

  /** What a key holds after the accesses. */
  function Played<K(==), V>(accesses: seq<Access<K, V>>, k: K, v: seq<V>): seq<V> {
    if accesses == [] then v
    else
      var before := Played(accesses[..|accesses| - 1], k, v);
      match accesses[|accesses| - 1]
      case Read(_) => before
      case Write(key, value) => if key == k then BytesOf(value) else before
      case Erase(key) => if key == k then [] else before
      case FlushAll => before
  }

  /**
   A snapshot undoes everything done after it, short of a Flush: every key then holds what it held.
   With a Flush in between it still undoes the keys that were in the map at the time. What was cached as
   nil comes back as an empty slice, and only that.
   */
  method UndoneBySnapshot<K(==,!new), V(==,!new)>(s: TransactionStore<K, V>, accesses: seq<Access<K, V>>)
    modifies s, s.dirties
    ensures FlushAll !in accesses ==> forall k :: s.Seen(k) == old(s.Seen(k))
    ensures forall k :: k in old(s.dirties.entries) ==> s.Seen(k) == old(s.Seen(k))
    ensures forall k :: k !in old(s.dirties.entries) ==> s.Seen(k) == TrieGet(s.trie, k)
    ensures FlushAll !in accesses ==>
      forall k :: s.Exists(k) <==> (old(s.Exists(k)) || CachedNil(old(s.dirties.entries), k))
  {
    var snap := s.CopyState();
    ghost var taken := snap.entries;
    Apply(s, accesses);
    assert snap.entries == taken;
    s.RevertState(snap);
  }

  /** A key read while absent is cached as nil, and a snapshot and a revert then make it exist. */
  method NilComesBackEmpty<K(==,!new), V(==,!new)>(s: TransactionStore<K, V>, key: K)
    requires key !in s.dirties.entries && !s.Exists(key)
    modifies s, s.dirties
    ensures s.Exists(key)
  {
    var _ := s.Get(key);
    UndoneBySnapshot(s, []);
  }

  /**
   Reverting makes the snapshot the live map, so it serves once: reverting to it again keeps whatever was
   done in between, and restores every key exactly when that left every key as it was.
   */
  method RevertedTwice<K(==,!new), V(==,!new)>(
    s: TransactionStore<K, V>, accesses: seq<Access<K, V>>, later: seq<Access<K, V>>)
    requires FlushAll !in accesses
    modifies s, s.dirties
    ensures forall k :: s.Seen(k) == Played(later, k, old(s.Seen(k)))
    ensures (forall k :: s.Seen(k) == old(s.Seen(k))) <==>
            (forall k :: Played(later, k, old(s.Seen(k))) == old(s.Seen(k)))
  {
    var snap := s.CopyState();
    ghost var taken := snap.entries;
    Apply(s, accesses);
    assert snap.entries == taken;
    s.RevertState(snap);
    assert forall k :: s.Seen(k) == old(s.Seen(k));
    Apply(s, later);
    assert s.dirties == snap;
    s.RevertState(snap);
  }

  /** One write after a revert is enough: the second revert to the same snapshot does not undo it. */
  method SnapshotServesOnce<K(==,!new), V(==,!new)>(s: TransactionStore<K, V>, key: K, value: Slice<V>)
    modifies s, s.dirties
    ensures s.Seen(key) == BytesOf(value)
  {
    RevertedTwice(s, [], [Write(key, value)]);
  }
}
