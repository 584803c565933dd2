/**
 The pool of blocks whose parent is unknown (chain/orphan.go), kept under their own hash and, in lists,
 under their parent's.
 */
module Orphans {
  import opened Basics

  const MAX_ORPHAN_BLOCKS := 40960

  datatype Block = Block(previousHash: Hash, height: nat, content: nat)

  datatype Orphan = Orphan(block: Block, expiration: int)

  /** Blocks with the same hash are the same block. */
  ghost predicate Injective(hash: Block -> Hash) {
    forall a, b :: hash(a) == hash(b) ==> a == b
  }

  type Pool = map<Hash, Orphan>
  type Lists = map<Hash, seq<Orphan>>

  /** An entry of the list under p is an orphan of the pool with parent p. */
  ghost predicate Listed(hash: Block -> Hash, pool: Pool, p: Hash, o: Orphan) {
    o.block.previousHash == p && hash(o.block) in pool && pool[hash(o.block)] == o
  }

  ghost predicate Distinct(list: seq<Orphan>) {
    forall i, j :: 0 <= i < j < |list| ==> list[i] != list[j]
  }

  /** A list as it must stand under p: not empty, without repetition, of orphans with parent p. */
  ghost predicate ListFits(hash: Block -> Hash, pool: Pool, p: Hash, list: seq<Orphan>) {
    list != [] && Distinct(list) && forall i :: 0 <= i < |list| ==> Listed(hash, pool, p, list[i])
  }

  /** The orphan stands in the list of its parent. */
  ghost predicate IsListed(lists: Lists, o: Orphan) {
    o.block.previousHash in lists && o in lists[o.block.previousHash]
  }

  /** Both maps describe the same orphans, each of them once. */
  ghost predicate Agree(hash: Block -> Hash, pool: Pool, lists: Lists) {
    && (forall h :: h in pool ==> hash(pool[h].block) == h && IsListed(lists, pool[h]))
    && (forall p :: p in lists ==> ListFits(hash, pool, p, lists[p]))
  }

  /** The lists with one orphan taken out, an emptied list being dropped. */
  function Unlisted(lists: Lists, p: Hash, list: seq<Orphan>): Lists {
    if list == [] then lists - {p} else lists[p := list]
  }

  lemma RemovedAgree(hash: Block -> Hash, pool: Pool, lists: Lists, b: Block, list: seq<Orphan>)
    requires Injective(hash) && Agree(hash, pool, lists) && Distinct(list)
    requires forall o ::
      o in list <==> b.previousHash in lists && o in lists[b.previousHash] && hash(o.block) != hash(b)
    ensures Agree(hash, pool - {hash(b)}, Unlisted(lists, b.previousHash, list))
  {
    var pool', lists', q := pool - {hash(b)}, Unlisted(lists, b.previousHash, list), b.previousHash;
    forall h | h in pool'
      ensures hash(pool'[h].block) == h && IsListed(lists', pool'[h])
    {
      assert IsListed(lists, pool[h]);
    }
    forall p | p in lists'
      ensures ListFits(hash, pool', p, lists'[p])
    {
      if p == q {
        forall i | 0 <= i < |list|
          ensures Listed(hash, pool', q, list[i])
        {
          assert list[i] in list;
          assert q in lists && list[i] in lists[q];
        }
      } else {
        forall i | 0 <= i < |lists[p]|
          ensures Listed(hash, pool', p, lists[p][i])
        {
          assert Listed(hash, pool, p, lists[p][i]);
        }
      }
    }
  }

  lemma InsertedAgree(hash: Block -> Hash, pool: Pool, lists: Lists, o: Orphan)
    requires Agree(hash, pool, lists) && hash(o.block) !in pool
    ensures var p := o.block.previousHash;
            Agree(hash, pool[hash(o.block) := o], lists[p := (if p in lists then lists[p] else []) + [o]])
  {
    var q := o.block.previousHash;
    var list := if q in lists then lists[q] else [];
    var pool', lists' := pool[hash(o.block) := o], lists[q := list + [o]];
    forall h | h in pool'
      ensures hash(pool'[h].block) == h && IsListed(lists', pool'[h])
    {
      if h in pool && h != hash(o.block) {
        assert IsListed(lists, pool[h]);
      }
    }
    forall p | p in lists'
      ensures ListFits(hash, pool', p, lists'[p])
    {
      forall i | 0 <= i < |lists'[p]|
        ensures Listed(hash, pool', p, lists'[p][i])
      {
        if p in lists && i < |lists[p]| {
          assert Listed(hash, pool, p, lists[p][i]);
        }
      }
      assert p in lists ==> ListFits(hash, pool, p, lists[p]);
      assert q in lists ==> forall i :: 0 <= i < |list| ==> Listed(hash, pool, q, list[i]);
    }
  }

  lemma UnderItsHash(hash: Block -> Hash, pool: Pool, lists: Lists, h: Hash)
    requires Agree(hash, pool, lists) && h in pool
    ensures hash(pool[h].block) == h
  {
  }

  lemma DistinctHashes(hash: Block -> Hash, pool: Pool, lists: Lists, p: Hash)
    requires Agree(hash, pool, lists) && p in lists
    ensures Distinct(lists[p])
    ensures forall i, j :: 0 <= i < j < |lists[p]| ==> hash(lists[p][i].block) != hash(lists[p][j].block)
  {
    var l := lists[p];
    assert ListFits(hash, pool, p, l);
    forall i, j | 0 <= i < j < |l|
      ensures hash(l[i].block) != hash(l[j].block)
    {
      assert Listed(hash, pool, p, l[i]) && Listed(hash, pool, p, l[j]);
    }
  }

  class OrphanPool {
    const hash: Block -> Hash
    var orphans: Pool
    var prevOrphans: Lists
    var oldestOrphan: Option<Orphan>

    ghost predicate Valid()
      reads this
    {
      Injective(hash) && Agree(hash, orphans, prevOrphans)
    }

    constructor (hash: Block -> Hash)
      requires Injective(hash)
      ensures Valid() && orphans == map[] && this.hash == hash
    {
      this.hash := hash;
      orphans, prevOrphans, oldestOrphan := map[], map[], None;
    }

    /** Takes entries with the given hash out of a list, moving the rest up. */
    method Unlist(list: seq<Orphan>, h: Hash) returns (r: seq<Orphan>)
      requires forall i, j :: 0 <= i < j < |list| ==> hash(list[i].block) != hash(list[j].block)
      ensures forall o :: o in r <==> o in list && hash(o.block) != h
      ensures Distinct(r)
    {
      r := list;
      var i := 0;
      while i < |r|
        invariant 0 <= i <= |r|
        invariant forall o :: o in r ==> o in list
        invariant forall o :: o in list && hash(o.block) != h ==> o in r
        invariant forall k :: 0 <= k < i ==> hash(r[k].block) != h
        invariant forall k, l :: 0 <= k < l < |r| ==> hash(r[k].block) != hash(r[l].block)
        decreases |r| - i
      {
        if hash(r[i].block) == h {
          ghost var was := r;
          r := r[..i] + r[i + 1..];
          Without(was, i, r);
        } else {
          i := i + 1;
        }
      }
    }

    method RemoveOrphanBlock(orphan: Orphan)
      requires Valid()
      modifies this
      ensures Valid() && orphans == old(orphans) - {hash(orphan.block)} && oldestOrphan == old(oldestOrphan)
    {
      hide Agree;
      var orphanHash := hash(orphan.block);
      var prevHash := orphan.block.previousHash;
      var list := [];
      if prevHash in prevOrphans {
        list := prevOrphans[prevHash];
        DistinctHashes(hash, orphans, prevOrphans, prevHash);
      }
      list := Unlist(list, orphanHash);
      RemovedAgree(hash, orphans, prevOrphans, orphan.block, list);
      ghost var was := prevOrphans;
      orphans := orphans - {orphanHash};
      prevOrphans := prevOrphans[prevHash := list];
      if |prevOrphans[prevHash]| == 0 {
        prevOrphans := prevOrphans - {prevHash};
      }
      assert prevOrphans == Unlisted(was, prevHash, list);
    }

    /** Drops expired orphans and finds the oldest of the rest; the clock may say anything. */
    method DropExpired()
      requires Valid()
      modifies this
      ensures Valid() && orphans.Keys <= old(orphans).Keys
      ensures orphans != map[] ==> oldestOrphan.Some?
    {
      hide Agree;
      var todo := orphans.Keys;
      while todo != {}
        invariant Valid() && todo <= orphans.Keys <= old(orphans).Keys
        invariant todo != orphans.Keys ==> oldestOrphan.Some?
        decreases todo
      {
        var h :| h in todo;
        var o := orphans[h];
        UnderItsHash(hash, orphans, prevOrphans, h);
        todo := todo - {h};
        var expired: bool := *;
        if expired {
          RemoveOrphanBlock(o);
        } else if oldestOrphan.None? || o.expiration < oldestOrphan.value.expiration {
          oldestOrphan := Some(o);
        }
      }
    }

    method AddOrphanBlock(block: Block, expiration: int)
      requires Valid() && hash(block) !in orphans
      modifies this
      ensures Valid() && hash(block) in orphans && orphans[hash(block)].block == block
      ensures orphans.Keys <= old(orphans).Keys + {hash(block)}
    {
      hide Agree;
      DropExpired();
      if |orphans| + 1 > MAX_ORPHAN_BLOCKS {
        assert orphans != map[];
        RemoveOrphanBlock(oldestOrphan.value);
        oldestOrphan := None;
      }
      Insert(Orphan(block, expiration));
    }

    method Insert(o: Orphan)
      requires Valid() && hash(o.block) !in orphans
      modifies this
      ensures Valid() && orphans == old(orphans)[hash(o.block) := o] && oldestOrphan == old(oldestOrphan)
    {
      hide Agree;
      InsertedAgree(hash, orphans, prevOrphans, o);
      orphans := orphans[hash(o.block) := o];
      var prevHash := o.block.previousHash;
      var list := if prevHash in prevOrphans then prevOrphans[prevHash] else [];
      prevOrphans := prevOrphans[prevHash := list + [o]];
    }
  }

  lemma Without<T>(s: seq<T>, i: nat, r: seq<T>)
    requires i < |s| && r == s[..i] + s[i + 1..]
    ensures forall x :: x in r ==> x in s
    ensures forall x :: x in s && x != s[i] ==> x in r
  {
    forall x | x in s && x != s[i]
      ensures x in r
    {
      var k :| 0 <= k < |s| && s[k] == x;
      assert if k < i then r[k] == x else r[k - 1] == x;
    }
  }
}
