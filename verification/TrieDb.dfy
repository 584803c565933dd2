/**
 The write-back database of trie nodes (common/trie/database.go): dirty nodes in memory, linked in the
 order of their arrival, are committed to disk children first, in batches, and leave memory only after
 the batch that holds them has been written.
 */
module TrieDb {
  import opened Basics

  /** No node: the end of the flush list. */
  const ZERO: Hash := 0

  /** A node as it is stored, with the hashes it refers to. */
  datatype Content = Content(children: seq<Hash>, data: seq<nat>)

  /** A node in memory: its content, further references, and its place in the flush list. */
  datatype CachedNode = CachedNode(content: Content, external: seq<Hash>, flushPrev: Hash, flushNext: Hash)

  datatype Put = Put(hash: Hash, content: Content)

  function Childs(n: CachedNode): seq<Hash> {
    n.external + n.content.children
  }

  type Dirties = map<Hash, CachedNode>
  type Store = map<Hash, Content>

  // ---- content by hash ----

  /** Hashes determine contents, and references go down: what a Merkle tree is. */
  ghost predicate IsMerkle(truth: Hash -> Content, rank: Hash -> nat) {
    forall h, c :: c in truth(h).children ==> rank(c) < rank(h)
  }

  ghost predicate Faithful(truth: Hash -> Content, m: Store) {
    forall h :: h in m ==> m[h] == truth(h)
  }

  /** Whatever a stored node refers to is stored. */
  ghost predicate Closed(truth: Hash -> Content, s: set<Hash>) {
    forall h, c :: h in s && c in truth(h).children ==> c in s
  }

  /** A dirty node is what its hash says, and what it refers to is dirty or on disk. */
  ghost predicate DirtyOk(truth: Hash -> Content, rank: Hash -> nat, dirties: Dirties, disk: set<Hash>, h: Hash)
    requires h in dirties
  {
    && h != ZERO && dirties[h].content == truth(h)
    && forall c :: c in Childs(dirties[h]) ==> (c in dirties || c in disk) && rank(c) < rank(h)
  }

  ghost predicate DirtiesOk(truth: Hash -> Content, rank: Hash -> nat, dirties: Dirties, disk: set<Hash>) {
    forall h :: h in dirties ==> DirtyOk(truth, rank, dirties, disk, h)
  }

  /** Each entry of a batch refers to stored nodes and to earlier entries only. */
  ghost predicate BatchOk(truth: Hash -> Content, puts: seq<Put>, disk: set<Hash>) {
    forall i :: 0 <= i < |puts| ==>
      && puts[i].content == truth(puts[i].hash)
      && forall c :: c in puts[i].content.children ==> c in disk || c in Hashes(puts[..i])
  }

  function Hashes(puts: seq<Put>): set<Hash> {
    set p | p in puts :: p.hash
  }

  function Written(m: Store, puts: seq<Put>): Store {
    if puts == [] then m
    else
      var last := puts[|puts| - 1]; Written(m, puts[..|puts| - 1])[last.hash := last.content]
  }

  lemma {:induction false} WrittenKeys(m: Store, puts: seq<Put>)
    ensures Written(m, puts).Keys == m.Keys + Hashes(puts)
  {
    if puts != [] {
      var front, last := puts[..|puts| - 1], puts[|puts| - 1];
      WrittenKeys(m, front);
      assert puts == front + [last];
      assert Hashes(puts) == Hashes(front) + {last.hash};
    }
  }

  /** A batch written as a whole leaves a closed store closed. */
  lemma {:induction false} WrittenClosed(truth: Hash -> Content, m: Store, puts: seq<Put>)
    requires Faithful(truth, m) && Closed(truth, m.Keys) && BatchOk(truth, puts, m.Keys)
    ensures Faithful(truth, Written(m, puts)) && Closed(truth, Written(m, puts).Keys)
  {
    if puts != [] {
      var front, last := puts[..|puts| - 1], puts[|puts| - 1];
      assert BatchOk(truth, front, m.Keys) by {
        forall i | 0 <= i < |front|
          ensures front[..i] == puts[..i]
        {
        }
      }
      WrittenClosed(truth, m, front);
      WrittenKeys(m, front);
      assert last == puts[|front|] && puts[..|front|] == front;
      forall c | c in truth(last.hash).children
        ensures c in Written(m, front)
      {
        assert c in m.Keys + Hashes(front);
      }
    }
  }

  // ---- the flush list ----

  /** The dirty nodes in the order of their arrival; the first one's backward link is not defined. */
  ghost predicate Linked(d: Dirties, oldest: Hash, newest: Hash, l: seq<Hash>) {
    && (forall h :: h in l <==> h in d) && ZERO !in l
    && (forall i, j :: 0 <= i < j < |l| ==> l[i] != l[j])
    && oldest == (if l == [] then ZERO else l[0])
    && (l != [] ==> newest == l[|l| - 1])
    && (forall i :: 0 <= i < |l| ==> NextOk(d, l, i) && PrevOk(d, l, i))
  }

  ghost predicate NextOk(d: Dirties, l: seq<Hash>, i: nat)
    requires i < |l|
  {
    l[i] in d && d[l[i]].flushNext == if i + 1 < |l| then l[i + 1] else ZERO
  }

  ghost predicate PrevOk(d: Dirties, l: seq<Hash>, i: nat)
    requires i < |l|
  {
    l[i] in d && (i > 0 ==> d[l[i]].flushPrev == l[i - 1])
  }

  function SetPrev(d: Dirties, h: Hash, v: Hash): Dirties {
    if h in d then d[h := d[h].(flushPrev := v)] else d
  }

  function SetNext(d: Dirties, h: Hash, v: Hash): Dirties {
    if h in d then d[h := d[h].(flushNext := v)] else d
  }

  /** Taking out the oldest. */
  lemma UnlinkFirst(d: Dirties, newest: Hash, l: seq<Hash>)
    requires l != [] && Linked(d, l[0], newest, l)
    ensures var n := d[l[0]];
            Linked(SetPrev(d, n.flushNext, ZERO) - {l[0]}, n.flushNext, newest, l[1..])
  {
    var n, l' := d[l[0]], l[1..];
    var d' := SetPrev(d, n.flushNext, ZERO) - {l[0]};
    assert NextOk(d, l, 0);
    forall i | 0 <= i < |l'|
      ensures NextOk(d', l', i) && PrevOk(d', l', i)
    {
      assert l'[i] == l[i + 1] && NextOk(d, l, i + 1) && PrevOk(d, l, i + 1);
    }
    forall h
      ensures h in l' <==> h in d'
    {
      assert h in l <==> h == l[0] || h in l';
    }
  }

  /** Taking out the newest, which is not also the oldest. */
  lemma UnlinkLast(d: Dirties, oldest: Hash, l: seq<Hash>)
    requires |l| > 1 && Linked(d, oldest, l[|l| - 1], l)
    ensures var h := l[|l| - 1]; var n := d[h];
            Linked(SetNext(d, n.flushPrev, ZERO) - {h}, oldest, n.flushPrev, l[..|l| - 1])
  {
    var k := |l| - 1;
    var n, l' := d[l[k]], l[..k];
    var d' := SetNext(d, n.flushPrev, ZERO) - {l[k]};
    assert PrevOk(d, l, k);
    forall i | 0 <= i < |l'|
      ensures NextOk(d', l', i) && PrevOk(d', l', i)
    {
      assert NextOk(d, l, i) && PrevOk(d, l, i);
    }
    forall h
      ensures h in l' <==> h in d'
    {
      assert h in l <==> h == l[k] || h in l';
    }
  }

  function Bridged(d: Dirties, h: Hash): Dirties
    requires h in d
  {
    var n := d[h];
    SetPrev(SetNext(d, n.flushPrev, n.flushNext), n.flushNext, n.flushPrev) - {h}
  }

  lemma BridgedNodes(d: Dirties, a: Hash, h: Hash, b: Hash)
    requires a in d && h in d && b in d && a != h && h != b && a != b && d[h].flushPrev == a && d[h].flushNext == b
    ensures var d' := Bridged(d, h);
            && d'.Keys == d.Keys - {h}
            && d'[a] == d[a].(flushNext := b) && d'[b] == d[b].(flushPrev := a)
            && forall x :: x in d && x != h && x != a && x != b ==> d'[x] == d[x]
  {
  }

  /** d' is d with the node at place k taken out of the chain. */
  ghost predicate Bridges(d: Dirties, d': Dirties, l: seq<Hash>, k: nat)
    requires 0 < k < |l| - 1
  {
    && l[k - 1] in d && l[k] in d && l[k + 1] in d && d'.Keys == d.Keys - {l[k]} && l[k - 1] in d' && l[k + 1] in d'
    && d'[l[k - 1]] == d[l[k - 1]].(flushNext := l[k + 1]) && d'[l[k + 1]] == d[l[k + 1]].(flushPrev := l[k - 1])
    && forall x :: x in d && x != l[k] && x != l[k - 1] && x != l[k + 1] ==> d'[x] == d[x]
  }

  lemma MiddleBridges(d: Dirties, oldest: Hash, newest: Hash, l: seq<Hash>, k: nat)
    requires 0 < k < |l| - 1 && Linked(d, oldest, newest, l)
    ensures Bridges(d, Bridged(d, l[k]), l, k)
  {
    assert NextOk(d, l, k) && PrevOk(d, l, k) && l[k - 1] in l && l[k + 1] in l;
    BridgedNodes(d, l[k - 1], l[k], l[k + 1]);
    hide Bridged;
  }

  lemma BridgedLink(d: Dirties, d': Dirties, oldest: Hash, newest: Hash, l: seq<Hash>, k: nat, i: nat)
    requires 0 < k < |l| - 1 && Linked(d, oldest, newest, l) && Bridges(d, d', l, k) && i < |l| - 1
    ensures NextOk(d', l[..k] + l[k + 1..], i) && PrevOk(d', l[..k] + l[k + 1..], i)
  {
    var l' := l[..k] + l[k + 1..];
    var j := if i < k then i else i + 1;
    assert l'[i] == l[j] && NextOk(d, l, j) && PrevOk(d, l, j);
    if i + 1 < |l'| {
      assert l'[i + 1] == l[if i + 1 < k then i + 1 else i + 2];
    }
    if i > 0 {
      assert l'[i - 1] == l[if i - 1 < k then i - 1 else i];
    }
  }

  lemma WithoutMiddle(l: seq<Hash>, k: nat)
    requires k < |l| && forall i, j :: 0 <= i < j < |l| ==> l[i] != l[j]
    ensures var l' := l[..k] + l[k + 1..];
            && (forall i, j :: 0 <= i < j < |l'| ==> l'[i] != l'[j])
            && forall h :: h in l' <==> h in l && h != l[k]
  {
    var l' := l[..k] + l[k + 1..];
    assert forall i :: 0 <= i < |l'| ==> l'[i] == l[if i < k then i else i + 1];
    assert l == l[..k] + [l[k]] + l[k + 1..];
  }

  /** The list without its middle node lists what is left. */
  lemma MiddleGone(d: Dirties, d': Dirties, oldest: Hash, newest: Hash, l: seq<Hash>, k: nat, l': seq<Hash>)
    requires 0 < k < |l| - 1 && Linked(d, oldest, newest, l) && Bridges(d, d', l, k) && l' == l[..k] + l[k + 1..]
    ensures |l'| == |l| - 1 && oldest == l'[0] && newest == l'[|l'| - 1] && ZERO !in l'
    ensures forall h :: h in l' <==> h in d'
    ensures forall i, j :: 0 <= i < j < |l'| ==> l'[i] != l'[j]
  {
    hide NextOk, PrevOk;
    WithoutMiddle(l, k);
    assert l'[0] == l[0] && l'[|l'| - 1] == l[|l| - 1];
    hide Linked;
  }

  /** Taking out a node between two others. */
  lemma UnlinkMiddle(d: Dirties, oldest: Hash, newest: Hash, l: seq<Hash>, k: nat)
    requires 0 < k < |l| - 1 && Linked(d, oldest, newest, l)
    ensures Linked(Bridged(d, l[k]), oldest, newest, l[..k] + l[k + 1..])
  {
    var l', d' := l[..k] + l[k + 1..], Bridged(d, l[k]);
    hide *;
    MiddleBridges(d, oldest, newest, l, k);
    MiddleGone(d, d', oldest, newest, l, k, l');
    forall i | 0 <= i < |l'|
      ensures NextOk(d', l', i) && PrevOk(d', l', i)
    {
      BridgedLink(d, d', oldest, newest, l, k, i);
    }
    LinkedFrom(d', oldest, newest, l');
  }

  lemma LinkedFrom(d: Dirties, oldest: Hash, newest: Hash, l: seq<Hash>)
    requires l != [] && oldest == l[0] && newest == l[|l| - 1] && ZERO !in l && forall h :: h in l <==> h in d
    requires forall i, j :: 0 <= i < j < |l| ==> l[i] != l[j]
    requires forall i :: 0 <= i < |l| ==> NextOk(d, l, i) && PrevOk(d, l, i)
    ensures Linked(d, oldest, newest, l)
  {
    hide NextOk, PrevOk;
  }

  /** A new node goes to the end of the list. */
  lemma LinkNew(d: Dirties, oldest: Hash, newest: Hash, l: seq<Hash>, h: Hash, n: CachedNode)
    requires Linked(d, oldest, newest, l) && h !in d && h != ZERO && n.flushPrev == newest && n.flushNext == ZERO
    ensures oldest == ZERO ==> Linked(d[h := n], h, h, l + [h])
    ensures oldest != ZERO ==> Linked(SetNext(d[h := n], newest, h), oldest, h, l + [h])
  {
    var l' := l + [h];
    var d' := if oldest == ZERO then d[h := n] else SetNext(d[h := n], newest, h);
    assert l != [] ==> l[0] in l;
    forall i | 0 <= i < |l'|
      ensures NextOk(d', l', i) && PrevOk(d', l', i)
    {
      if i < |l| {
        assert l[i] in l && NextOk(d, l, i) && PrevOk(d, l, i);
      }
    }
  }

  lemma UnlinkAny(d: Dirties, oldest: Hash, newest: Hash, l: seq<Hash>, h: Hash) returns (l': seq<Hash>)
    requires Linked(d, oldest, newest, l) && h in d
    ensures h == oldest ==> Linked(SetPrev(d, d[h].flushNext, ZERO) - {h}, d[h].flushNext, newest, l')
    ensures h != oldest && h == newest ==> Linked(SetNext(d, d[h].flushPrev, ZERO) - {h}, oldest, d[h].flushPrev, l')
    ensures h != oldest && h != newest ==> Linked(Bridged(d, h), oldest, newest, l')
  {
    var k :| 0 <= k < |l| && l[k] == h;
    if k == 0 {
      UnlinkFirst(d, newest, l);
      l' := l[1..];
    } else if k == |l| - 1 {
      UnlinkLast(d, oldest, l);
      l' := l[..k];
    } else {
      UnlinkMiddle(d, oldest, newest, l, k);
      l' := l[..k] + l[k + 1..];
    }
    hide NextOk, PrevOk, Bridged, SetPrev, SetNext;
  }

  // ---- moving nodes out of memory ----

  lemma InsertedOk(truth: Hash -> Content, rank: Hash -> nat, d: Dirties, d': Dirties, disk: set<Hash>, h: Hash,
                   content: Content)
    requires IsMerkle(truth, rank) && DirtiesOk(truth, rank, d, disk) && h != ZERO && h !in d && content == truth(h)
    requires forall c :: c in content.children ==> c in d || c in disk
    requires d'.Keys == d.Keys + {h} && d'[h].content == content && d'[h].external == []
    requires forall x :: x in d ==> d'[x].content == d[x].content && d'[x].external == d[x].external
    ensures DirtiesOk(truth, rank, d', disk)
  {
    forall x | x in d'
      ensures DirtyOk(truth, rank, d', disk, x)
    {
      if x == h {
        assert Childs(d'[h]) == content.children;
      } else {
        assert DirtyOk(truth, rank, d, disk, x);
        assert Childs(d'[x]) == Childs(d[x]);
      }
    }
  }

  /** The same nodes with other links. */
  ghost predicate Relinked(d: Dirties, d': Dirties, h: Hash) {
    && d'.Keys == d.Keys - {h}
    && forall x :: x in d' ==> d'[x].content == d[x].content && d'[x].external == d[x].external
  }

  lemma UncachedOk(truth: Hash -> Content, rank: Hash -> nat, d: Dirties, d': Dirties, disk: set<Hash>, h: Hash)
    requires DirtiesOk(truth, rank, d, disk) && Relinked(d, d', h) && h in disk
    ensures DirtiesOk(truth, rank, d', disk)
  {
    forall x | x in d'
      ensures DirtyOk(truth, rank, d', disk, x)
    {
      assert DirtyOk(truth, rank, d, disk, x);
      assert Childs(d'[x]) == Childs(d[x]);
    }
  }

  lemma MoreDisk(truth: Hash -> Content, rank: Hash -> nat, d: Dirties, disk: set<Hash>, disk': set<Hash>)
    requires DirtiesOk(truth, rank, d, disk) && disk <= disk'
    ensures DirtiesOk(truth, rank, d, disk')
  {
    forall x | x in d
      ensures DirtyOk(truth, rank, d, disk', x)
    {
      assert DirtyOk(truth, rank, d, disk, x);
    }
  }

  class Batch {
    var puts: seq<Put>

    constructor ()
      ensures puts == []
    {
      puts := [];
    }
  }

  // ---- a history of moments ----

  /** What is on disk and what is in memory. */
  datatype Moment = Moment(disk: set<Hash>, memory: set<Hash>)

  /** Everything known can be resolved, and the disk is closed under references. */
  ghost predicate Safe(truth: Hash -> Content, m: Moment, known: set<Hash>) {
    known <= m.disk + m.memory && Closed(truth, m.disk)
  }

  /** One thing happened: a batch was written, a node entered memory, or a node left it. */
  ghost predicate OneStep(m: Moment, m': Moment) {
    || (m'.memory == m.memory && m.disk <= m'.disk)
    || (m'.disk == m.disk && exists h :: m'.memory == m.memory + {h} || m'.memory == m.memory - {h})
  }

  /** The history goes step by step to the present moment. */
  ghost predicate Recorded(past: seq<Moment>, now: Moment) {
    && past != [] && past[|past| - 1] == now
    && forall i, j :: 0 <= i && j == i + 1 < |past| ==> OneStep(past[i], past[j])
  }

  lemma RecordedMore(past: seq<Moment>, now: Moment, now': Moment)
    requires Recorded(past, now) && OneStep(now, now')
    ensures Recorded(past + [now'], now')
  {
    hide OneStep;
  }

  /** Every moment since `was` is safe. */
  ghost predicate SafeSince(truth: Hash -> Content, was: seq<Moment>, past: seq<Moment>, known: set<Hash>) {
    was <= past && forall i :: |was| <= i < |past| ==> Safe(truth, past[i], known)
  }

  lemma SafeOn(truth: Hash -> Content, was: seq<Moment>, mid: seq<Moment>, past: seq<Moment>, known: set<Hash>,
               known': set<Hash>)
    requires SafeSince(truth, was, mid, known) && SafeSince(truth, mid, past, known') && known <= known'
    ensures SafeSince(truth, was, past, known)
  {
    forall i | |was| <= i < |past|
      ensures Safe(truth, past[i], known)
    {
      if i < |mid| {
        assert past[i] == mid[i];
      }
    }
  }

  lemma NoneSince(truth: Hash -> Content, past: seq<Moment>, known: set<Hash>)
    ensures SafeSince(truth, past, past, known)
  {
  }

  lemma OneSince(truth: Hash -> Content, past: seq<Moment>, m: Moment, known: set<Hash>)
    requires Safe(truth, m, known)
    ensures SafeSince(truth, past, past + [m], known)
  {
  }

  // ---- what a commit has to save ----

  /** x is h or hangs below it, by references of its content and, for nodes in memory, by further references. */
  ghost predicate Leads(truth: Hash -> Content, rank: Hash -> nat, d: Dirties, h: Hash, x: Hash)
    decreases rank(h)
  {
    || x == h
    || (if h in d then exists c :: c in Childs(d[h]) && rank(c) < rank(h) && Leads(truth, rank, d, c, x)
        else Reachable(truth, rank, h, x))
  }

  /** All that h leads to is in s. */
  ghost predicate Complete(truth: Hash -> Content, rank: Hash -> nat, d: Dirties, h: Hash, s: set<Hash>) {
    forall x :: Leads(truth, rank, d, h, x) ==> x in s
  }

  lemma CompleteMore(truth: Hash -> Content, rank: Hash -> nat, d: Dirties, h: Hash, s: set<Hash>, s': set<Hash>)
    requires Complete(truth, rank, d, h, s) && s <= s'
    ensures Complete(truth, rank, d, h, s')
  {
    hide Leads;
  }

  lemma CompleteNode(truth: Hash -> Content, rank: Hash -> nat, d: Dirties, h: Hash, s: set<Hash>)
    requires h in d && h in s && forall c :: c in Childs(d[h]) ==> Complete(truth, rank, d, c, s)
    ensures Complete(truth, rank, d, h, s)
  {
  }

  lemma CompleteStored(truth: Hash -> Content, rank: Hash -> nat, d: Dirties, h: Hash, disk: set<Hash>, s: set<Hash>)
    requires h !in d && h in disk && Closed(truth, disk) && disk <= s
    ensures Complete(truth, rank, d, h, s)
  {
    forall x | Leads(truth, rank, d, h, x)
      ensures x in s
    {
      if x != h {
        ReachableStored(truth, rank, disk, h, x);
      }
    }
  }

  /**
   While nodes of d are committed: those still in memory refer to what they did, and those that have left
   it, or are about to, have all they lead to saved.
   */
  ghost predicate Tracks(truth: Hash -> Content, rank: Hash -> nat, d: Dirties, now: Dirties, puts: set<Hash>,
                         saved: set<Hash>) {
    && now.Keys <= d.Keys && (forall h :: h in now ==> Childs(now[h]) == Childs(d[h]))
    && (forall h :: h in d && (h !in now || h in puts) ==> Complete(truth, rank, d, h, saved))
  }

  lemma TracksMore(truth: Hash -> Content, rank: Hash -> nat, d: Dirties, now: Dirties, puts: set<Hash>,
                   saved: set<Hash>, h: Hash)
    requires Tracks(truth, rank, d, now, puts, saved) && h in d && Complete(truth, rank, d, h, saved + {h})
    ensures Tracks(truth, rank, d, now, puts + {h}, saved + {h})
  {
    hide Leads;
  }

  lemma ReferencedOk(truth: Hash -> Content, rank: Hash -> nat, d: Dirties, disk: set<Hash>, child: Hash, parent: Hash)
    requires DirtiesOk(truth, rank, d, disk) && child in d && parent in d && rank(child) < rank(parent)
    ensures DirtiesOk(truth, rank, d[parent := d[parent].(external := d[parent].external + [child])], disk)
  {
    var d' := d[parent := d[parent].(external := d[parent].external + [child])];
    forall h | h in d'
      ensures DirtyOk(truth, rank, d', disk, h)
    {
      assert DirtyOk(truth, rank, d, disk, h);
    }
  }

  lemma SameLinks(d: Dirties, d': Dirties, oldest: Hash, newest: Hash, l: seq<Hash>)
    requires Linked(d, oldest, newest, l) && d'.Keys == d.Keys
    requires forall h :: h in d ==> d'[h].flushPrev == d[h].flushPrev && d'[h].flushNext == d[h].flushNext
    ensures Linked(d', oldest, newest, l)
  {
    forall i | 0 <= i < |l|
      ensures NextOk(d', l, i) && PrevOk(d', l, i)
    {
      assert NextOk(d, l, i) && PrevOk(d, l, i);
    }
  }

  lemma TracksFlushed(truth: Hash -> Content, rank: Hash -> nat, d: Dirties, now: Dirties, now': Dirties,
                      puts: set<Hash>, saved: set<Hash>)
    requires Tracks(truth, rank, d, now, puts, saved) && Forgotten(now, now', puts)
    ensures Tracks(truth, rank, d, now', {}, saved)
  {
    hide Complete;
  }

  lemma SameForgotten(d: Dirties, gone: set<Hash>)
    ensures Forgotten(d, d, gone)
  {
  }

  lemma RelinkedForgotten(d: Dirties, d': Dirties, h: Hash)
    requires Relinked(d, d', h)
    ensures Forgotten(d, d', {h}) && d'.Keys == d.Keys - {h}
  {
  }

  /** Some nodes have left memory; the others refer to what they did. */
  ghost predicate Forgotten(d: Dirties, d': Dirties, gone: set<Hash>) {
    && d'.Keys <= d.Keys <= d'.Keys + gone
    && forall h :: h in d' ==> d'[h].content == d[h].content && d'[h].external == d[h].external
  }

  class Database {
    ghost const truth: Hash -> Content
    ghost const rank: Hash -> nat
    const caching: bool
    var disk: Store
    var cleans: Store
    var dirties: Dirties
    var oldest: Hash
    var newest: Hash
    ghost var list: seq<Hash>
    /** What was on disk and in memory after every write and every change of memory. */
    ghost var past: seq<Moment>

    constructor (ghost truth: Hash -> Content, ghost rank: Hash -> nat, disk: Store, caching: bool)
      requires IsMerkle(truth, rank) && Faithful(truth, disk) && Closed(truth, disk.Keys)
      ensures Valid() && this.disk == disk && dirties == map[] && this.truth == truth && this.rank == rank
    {
      this.truth, this.rank, this.disk, this.caching := truth, rank, disk, caching;
      cleans, dirties, oldest, newest, list := map[], map[], ZERO, ZERO, [];
      past := [Moment(disk.Keys, {})];
    }

    ghost predicate Valid()
      reads this
    {
      && StoresOk() && DirtiesOk(truth, rank, dirties, disk.Keys) && Linked(dirties, oldest, newest, list)
      && Recorded(past, Now())
    }

    ghost function Now(): Moment
      reads this
    {
      Moment(disk.Keys, dirties.Keys)
    }

    /** Disk is closed under references, and the clean cache holds nothing that is not on disk. */
    ghost predicate StoresOk()
      reads this
    {
      && IsMerkle(truth, rank) && Faithful(truth, disk) && Closed(truth, disk.Keys)
      && Faithful(truth, cleans) && cleans.Keys <= disk.Keys
    }

    /** The hashes that can be resolved, in memory or from disk. */
    ghost function Known(): set<Hash>
      reads this
    {
      dirties.Keys + disk.Keys
    }

    /** A node from the clean cache, from memory or from disk: always the one its hash stands for. */
    method Node(hash: Hash) returns (r: Option<Content>)
      requires Valid()
      modifies this`cleans
      ensures Valid()
      ensures r == if hash in Known() then Some(truth(hash)) else None
    {
      hide Linked, Recorded;
      if hash in cleans {
        return Some(cleans[hash]);
      }
      if hash in dirties {
        assert DirtyOk(truth, rank, dirties, disk.Keys, hash);
        return Some(dirties[hash].content);
      }
      if hash !in disk {
        return None;
      }
      if caching {
        cleans := cleans[hash := disk[hash]];
      }
      return Some(disk[hash]);
    }

    /** A node joins the dirty ones at the end of the flush list, unless it is there already. */
    method Insert(hash: Hash, content: Content)
      requires Valid() && hash != ZERO && content == truth(hash)
      requires forall c :: c in content.children ==> c in Known()
      modifies this
      ensures Valid() && disk == old(disk) && Known() == old(Known()) + {hash}
    {
      hide Linked, Closed, Faithful, DirtiesOk, Recorded;
      if hash in dirties {
        return;
      }
      var entry := CachedNode(content, [], newest, ZERO);
      LinkNew(dirties, oldest, newest, list, hash, entry);
      ghost var was := dirties;
      dirties := dirties[hash := entry];
      if oldest == ZERO {
        oldest, newest := hash, hash;
      } else {
        dirties := SetNext(dirties, newest, hash);
        newest := hash;
      }
      list := list + [hash];
      InsertedOk(truth, rank, was, dirties, disk.Keys, hash, content);
      RecordedMore(past, Moment(disk.Keys, was.Keys), Now());
      past := past + [Now()];
    }

    /** A further reference from a node in memory to another one, as from an account to its storage. */
    method Reference(child: Hash, parent: Hash)
      requires Valid() && parent in dirties && rank(child) < rank(parent)
      modifies this`dirties
      ensures Valid() && Known() == old(Known())
      ensures child in old(dirties) ==> child in Childs(dirties[parent])
    {
      hide Linked, Recorded;
      if child !in dirties {
        return;
      }
      if child in dirties[parent].external {
        return;
      }
      ghost var was := dirties;
      dirties := dirties[parent := dirties[parent].(external := dirties[parent].external + [child])];
      ReferencedOk(truth, rank, was, disk.Keys, child, parent);
      SameLinks(was, dirties, oldest, newest, list);
    }

    /** Takes a node out of the flush list and out of memory. */
    method RemoveFromList(hash: Hash)
      requires hash in dirties && Linked(dirties, oldest, newest, list)
      modifies this`dirties, this`oldest, this`newest, this`list
      ensures Linked(dirties, oldest, newest, list) && Relinked(old(dirties), dirties, hash)
    {
      hide Linked, Relinked, SetPrev, SetNext;
      ghost var l := UnlinkAny(dirties, oldest, newest, list, hash);
      var n := dirties[hash];
      RelinkedAfter(dirties, hash);
      if hash == oldest {
        oldest := n.flushNext;
        dirties := SetPrev(dirties, n.flushNext, ZERO);
      } else if hash == newest {
        newest := n.flushPrev;
        dirties := SetNext(dirties, n.flushPrev, ZERO);
      } else {
        dirties := SetNext(dirties, n.flushPrev, n.flushNext);
        dirties := SetPrev(dirties, n.flushNext, n.flushPrev);
      }
      dirties := dirties - {hash};
      list := l;
    }

    /** The cleaner: a node that has reached the disk leaves the dirty ones. */
    method Uncache(p: Put)
      requires Valid() && p.hash in disk && p.content == truth(p.hash)
      modifies this
      ensures Valid() && disk == old(disk) && Known() == old(Known())
      ensures Forgotten(old(dirties), dirties, {p.hash})
      ensures SafeSince(truth, old(past), past, old(Known()))
    {
      hide Linked, Closed, DirtiesOk, SafeSince, Forgotten, Relinked, Recorded;
      NoneSince(truth, past, Known());
      if p.hash !in dirties {
        SameForgotten(dirties, {p.hash});
        return;
      }
      ghost var was := dirties;
      RemoveFromList(p.hash);
      UncachedOk(truth, rank, was, dirties, disk.Keys, p.hash);
      RelinkedForgotten(was, dirties, p.hash);
      if caching {
        cleans := cleans[p.hash := p.content];
      }
      OneSince(truth, past, Now(), Known());
      RecordedMore(past, Moment(disk.Keys, was.Keys), Now());
      past := past + [Now()];
    }

    /** A batch is written as a whole or not at all. */
    method WriteBatch(batch: Batch) returns (ok: bool)
      requires Valid() && BatchOk(truth, batch.puts, disk.Keys)
      modifies this`disk, this`past
      ensures Valid() && old(disk.Keys) <= disk.Keys
      ensures ok ==> disk.Keys == old(disk.Keys) + Hashes(batch.puts)
      ensures !ok ==> disk == old(disk)
      ensures SafeSince(truth, old(past), past, old(Known()))
    {
      hide Linked, Closed, Faithful, DirtiesOk, BatchOk, Recorded;
      ok := *;
      if ok {
        WrittenClosed(truth, disk, batch.puts);
        WrittenKeys(disk, batch.puts);
        ghost var was := disk.Keys;
        disk := Written(disk, batch.puts);
        MoreDisk(truth, rank, dirties, was, disk.Keys);
        RecordedMore(past, Moment(was, dirties.Keys), Now());
        past := past + [Now()];
      }
    }

    /** What has been written leaves memory. */
    method Replay(batch: Batch)
      requires Valid() && Hashes(batch.puts) <= disk.Keys
      requires forall i :: 0 <= i < |batch.puts| ==> batch.puts[i].content == truth(batch.puts[i].hash)
      modifies this
      ensures Valid() && disk == old(disk) && old(Known()) == Known()
      ensures Forgotten(old(dirties), dirties, Hashes(batch.puts))
      ensures SafeSince(truth, old(past), past, old(Known()))
    {
      hide Database.Valid, SafeSince;
      var i := 0;
      NoneSince(truth, past, Known());
      while i < |batch.puts|
        invariant 0 <= i <= |batch.puts| && Valid() && disk == old(disk) && old(Known()) == Known()
        invariant Forgotten(old(dirties), dirties, Hashes(batch.puts))
        invariant SafeSince(truth, old(past), past, old(Known()))
      {
        assert batch.puts[i] in batch.puts && batch.puts[i].hash in Hashes(batch.puts);
        ghost var mid := past;
        Uncache(batch.puts[i]);
        SafeOn(truth, old(past), mid, past, old(Known()), old(Known()));
        i := i + 1;
      }
    }

    /** Written, forgotten in memory, and emptied. */
    method FlushBatch(batch: Batch) returns (ok: bool)
      requires Valid() && BatchOk(truth, batch.puts, disk.Keys)
      modifies this, batch
      ensures Valid() && BatchOk(truth, batch.puts, disk.Keys)
      ensures old(Known()) <= Known() && old(disk.Keys) <= disk.Keys
      ensures ok ==> batch.puts == [] && disk.Keys == old(disk.Keys) + Hashes(old(batch.puts))
      ensures ok ==> Forgotten(old(dirties), dirties, Hashes(old(batch.puts)))
      ensures !ok ==> batch.puts == old(batch.puts)
      ensures SafeSince(truth, old(past), past, old(Known()))
    {
      hide Database.Valid, SafeSince, Forgotten;
      ok := WriteBatch(batch);
      if !ok {
        return;
      }
      ghost var mid, known := past, Known();
      Replay(batch);
      SafeOn(truth, old(past), mid, past, old(Known()), known);
      batch.puts := [];
    }

    /** What is on disk or on its way there. */
    ghost function Saved(batch: Batch): set<Hash>
      reads this, batch
    {
      disk.Keys + Hashes(batch.puts)
    }

    /** How far the commit of the nodes of d has come. */
    ghost predicate Tracking(d: Dirties, batch: Batch)
      reads this, batch
    {
      Tracks(truth, rank, d, dirties, Hashes(batch.puts), Saved(batch))
    }

    /** The batch is flushed and everything stays tracked. */
    method FlushTracked(batch: Batch, ghost d: Dirties) returns (ok: bool)
      requires Valid() && BatchOk(truth, batch.puts, disk.Keys) && Tracking(d, batch)
      modifies this, batch
      ensures Valid() && BatchOk(truth, batch.puts, disk.Keys)
      ensures old(Known()) <= Known() && old(disk.Keys) <= disk.Keys
      ensures ok ==> Saved(batch) == old(Saved(batch)) && Tracking(d, batch) && batch.puts == []
      ensures SafeSince(truth, old(past), past, old(Known()))
    {
      hide Database.Valid, BatchOk, Tracks, SafeSince, Forgotten;
      ok := FlushBatch(batch);
      if ok {
        assert Hashes([]) == {} && Saved(batch) == old(Saved(batch));
        TracksFlushed(truth, rank, d, old(dirties), dirties, Hashes(old(batch.puts)), Saved(batch));
      }
    }

    /** Children first, then the node itself; a batch is flushed whenever it is large enough. */
    method Commit(hash: Hash, batch: Batch, ghost d: Dirties) returns (ok: bool)
      requires Valid() && BatchOk(truth, batch.puts, disk.Keys) && Tracking(d, batch)
      modifies this, batch
      ensures Valid() && BatchOk(truth, batch.puts, disk.Keys)
      ensures old(Known()) <= Known() && old(disk.Keys) <= disk.Keys
      ensures ok ==> old(Saved(batch)) <= Saved(batch) && Tracking(d, batch)
      ensures ok && hash in old(Known()) ==> Complete(truth, rank, d, hash, Saved(batch))
      ensures SafeSince(truth, old(past), past, old(Known()))
      decreases rank(hash), 1
    {
      NoneSince(truth, past, Known());
      if hash !in dirties {
        CleanComplete(hash, batch, d);
        return true;
      }
      var node := dirties[hash];
      DirtyNode(hash);
      TrackedNode(hash, batch, d);
      hide *;
      ok := CommitChildren(Childs(node), batch, hash, d);
      if !ok {
        return;
      }
      ghost var mid, known := past, Known();
      ok := SaveNode(hash, node.content, batch, d);
      SafeOn(truth, old(past), mid, past, old(Known()), known);
    }

    /** A node whose children are saved goes into the batch, which is flushed when it is large enough. */
    method SaveNode(hash: Hash, content: Content, batch: Batch, ghost d: Dirties) returns (ok: bool)
      requires Valid() && BatchOk(truth, batch.puts, disk.Keys) && Tracking(d, batch)
      requires hash in d && content == truth(hash) && forall c :: c in content.children ==> c in Childs(d[hash])
      requires forall c :: c in Childs(d[hash]) ==> Complete(truth, rank, d, c, Saved(batch))
      modifies this, batch
      ensures Valid() && BatchOk(truth, batch.puts, disk.Keys)
      ensures old(Known()) <= Known() && old(disk.Keys) <= disk.Keys
      ensures ok ==> old(Saved(batch)) <= Saved(batch) && Tracking(d, batch)
      ensures ok ==> Complete(truth, rank, d, hash, Saved(batch))
      ensures SafeSince(truth, old(past), past, old(Known()))
    {
      hide Database.Valid, BatchOk, Tracks, Complete, SafeSince, Hashes;
      NoneSince(truth, past, Known());
      forall c | c in content.children
        ensures c in Saved(batch)
      {
        SavedSelf(d, c, Saved(batch));
      }
      PutOk(batch.puts, disk.Keys, hash, content);
      PutTracked(hash, content, batch, d);
      batch.puts := batch.puts + [Put(hash, content)];
      ok := true;
      var full: bool := *;
      if full {
        ok := FlushTracked(batch, d);
      }
    }

    lemma SavedSelf(d: Dirties, h: Hash, s: set<Hash>)
      requires Complete(truth, rank, d, h, s)
      ensures h in s
    {
      assert Leads(truth, rank, d, h, h);
    }

    method CommitChildren(children: seq<Hash>, batch: Batch, ghost parent: Hash, ghost d: Dirties) returns (ok: bool)
      requires Valid() && BatchOk(truth, batch.puts, disk.Keys) && Tracking(d, batch)
      requires forall c :: c in children ==> c in Known() && rank(c) < rank(parent)
      modifies this, batch
      ensures Valid() && BatchOk(truth, batch.puts, disk.Keys)
      ensures old(Known()) <= Known() && old(disk.Keys) <= disk.Keys
      ensures ok ==> old(Saved(batch)) <= Saved(batch) && Tracking(d, batch)
      ensures ok ==> forall c :: c in children ==> Complete(truth, rank, d, c, Saved(batch))
      ensures SafeSince(truth, old(past), past, old(Known()))
      decreases rank(parent), 0
    {
      hide Database.Valid, BatchOk, Database.Tracking, Complete, SafeSince, Hashes;
      NoneSince(truth, past, Known());
      var i := 0;
      while i < |children|
        invariant 0 <= i <= |children| && Valid() && BatchOk(truth, batch.puts, disk.Keys) && Tracking(d, batch)
        invariant old(Known()) <= Known() && old(disk.Keys) <= disk.Keys && old(Saved(batch)) <= Saved(batch)
        invariant forall j :: 0 <= j < i ==> Complete(truth, rank, d, children[j], Saved(batch))
        invariant SafeSince(truth, old(past), past, old(Known()))
      {
        assert children[i] in children;
        ghost var mid, known, saved := past, Known(), Saved(batch);
        ok := Commit(children[i], batch, d);
        SafeOn(truth, old(past), mid, past, old(Known()), known);
        if !ok {
          return;
        }
        forall j | 0 <= j < i
          ensures Complete(truth, rank, d, children[j], Saved(batch))
        {
          CompleteMore(truth, rank, d, children[j], saved, Saved(batch));
        }
        i := i + 1;
      }
      ok := true;
    }

    /** A node that is not in memory has all it leads to saved. */
    lemma CleanComplete(hash: Hash, batch: Batch, d: Dirties)
      requires Valid() && Tracking(d, batch) && hash !in dirties
      ensures hash in Known() ==> Complete(truth, rank, d, hash, Saved(batch))
    {
      hide Leads, Linked, DirtiesOk;
      if hash in disk && hash !in d {
        CompleteStored(truth, rank, d, hash, disk.Keys, Saved(batch));
      }
    }

    lemma TrackedNode(hash: Hash, batch: Batch, d: Dirties)
      requires Tracking(d, batch) && hash in dirties
      ensures hash in d && Childs(d[hash]) == Childs(dirties[hash])
    {
    }

    lemma PutTracked(hash: Hash, content: Content, batch: Batch, d: Dirties)
      requires Tracking(d, batch) && hash in d
      requires forall c :: c in Childs(d[hash]) ==> Complete(truth, rank, d, c, Saved(batch))
      ensures var puts := Hashes(batch.puts + [Put(hash, content)]);
              && puts == Hashes(batch.puts) + {hash}
              && Tracks(truth, rank, d, dirties, puts, disk.Keys + puts)
              && Complete(truth, rank, d, hash, disk.Keys + puts)
    {
      var puts, s, s' := Hashes(batch.puts), Saved(batch), Saved(batch) + {hash};
      assert Hashes(batch.puts + [Put(hash, content)]) == puts + {hash};
      assert disk.Keys + (puts + {hash}) == s';
      hide Hashes, Leads, Complete;
      forall c | c in Childs(d[hash])
        ensures Complete(truth, rank, d, c, s')
      {
        CompleteMore(truth, rank, d, c, s, s');
      }
      CompleteNode(truth, rank, d, hash, s');
      TracksMore(truth, rank, d, dirties, puts, s, hash);
    }

    lemma DirtyNode(hash: Hash)
      requires Valid() && hash in dirties
      ensures dirties[hash].content == truth(hash)
      ensures forall c :: c in Childs(dirties[hash]) ==> c in Known() && rank(c) < rank(hash)
      ensures forall c :: c in truth(hash).children ==> c in Childs(dirties[hash])
    {
      assert DirtyOk(truth, rank, dirties, disk.Keys, hash);
    }

    lemma PutOk(puts: seq<Put>, disk: set<Hash>, h: Hash, content: Content)
      requires BatchOk(truth, puts, disk) && content == truth(h)
      requires forall c :: c in content.children ==> c in disk || c in Hashes(puts)
      ensures BatchOk(truth, puts + [Put(h, content)], disk)
      ensures Hashes(puts + [Put(h, content)]) == Hashes(puts) + {h}
    {
      var puts' := puts + [Put(h, content)];
      forall i | 0 <= i < |puts'|
        ensures puts'[i].content == truth(puts'[i].hash)
        ensures forall c :: c in puts'[i].content.children ==> c in disk || c in Hashes(puts'[..i])
      {
        assert puts'[..i] == puts[..i];
        assert puts'[..|puts|] == puts;
      }
    }

    /**
     Commits a trie. After every write and every removal from memory whatever could be resolved still can,
     and the disk is closed under references; at the end all that the root leads to, further references
     of nodes in memory included, is on disk.
     */
    method TrieDb(root: Hash) returns (ok: bool)
      requires Valid()
      modifies this
      ensures Valid() && old(Known()) <= Known() && old(disk.Keys) <= disk.Keys
      ensures SafeSince(truth, old(past), past, old(Known()))
      ensures ok && root in old(Known()) ==> Complete(truth, rank, old(dirties), root, disk.Keys)
      ensures ok && root in old(Known()) ==> forall h :: Reachable(truth, rank, root, h) ==> h in disk
    {
      hide Database.Valid, Complete, SafeSince, Reachable;
      var batch := new Batch();
      ghost var d := dirties;
      StartTracking(batch);
      ok := Commit(root, batch, d);
      if !ok {
        return;
      }
      ghost var mid, known := past, Known();
      ok := FlushTracked(batch, d);
      SafeOn(truth, old(past), mid, past, old(Known()), known);
      if ok && root in old(Known()) {
        assert Hashes([]) == {} && Saved(batch) == disk.Keys;
        SavedSelf(d, root, disk.Keys);
        AllOnDisk(root);
      }
    }

    lemma StartTracking(batch: Batch)
      requires batch.puts == []
      ensures Tracking(dirties, batch) && BatchOk(truth, batch.puts, disk.Keys)
    {
      assert Hashes([]) == {};
    }

    lemma AllOnDisk(root: Hash)
      requires Valid() && root in disk
      ensures forall h :: Reachable(truth, rank, root, h) ==> h in disk
    {
      forall h | Reachable(truth, rank, root, h)
        ensures h in disk
      {
        ReachableStored(truth, rank, disk.Keys, root, h);
      }
    }
  }

  /** The node h is the root or hangs below it. */
  ghost predicate Reachable(truth: Hash -> Content, rank: Hash -> nat, root: Hash, h: Hash)
    decreases rank(root)
  {
    h == root || exists c :: c in truth(root).children && rank(c) < rank(root) && Reachable(truth, rank, c, h)
  }

  lemma {:induction false} ReachableStored(truth: Hash -> Content, rank: Hash -> nat, s: set<Hash>, root: Hash, h: Hash)
    requires Closed(truth, s) && root in s && Reachable(truth, rank, root, h)
    ensures h in s
    decreases rank(root)
  {
    if h != root {
      var c :| c in truth(root).children && rank(c) < rank(root) && Reachable(truth, rank, c, h);
      ReachableStored(truth, rank, s, c, h);
    }
  }

  lemma RelinkedAfter(d: Dirties, h: Hash)
    requires h in d
    ensures Relinked(d, SetPrev(d, d[h].flushNext, ZERO) - {h}, h)
    ensures Relinked(d, SetNext(d, d[h].flushPrev, ZERO) - {h}, h)
    ensures Relinked(d, Bridged(d, h), h)
  {
  }
}
