/**
 The distribution of bloom-bit requests to retrievers (common/bloombits/matcher.go), until shutdown. One
 method per case of the distributor's loop; which case comes next, and whether a retriever happens to
 wait, is open.
 */
module Distributor {
  import opened Basics

  type BitIndex = nat
  type Section = nat

  const MAX_SECTION: nat := 0xFFFF_FFFF_FFFF_FFFF

  /** A retriever with a bit: it has not fetched yet, or it is on its way with sections. */
  datatype Lease = Holding(bit: BitIndex) | InFlight(bit: BitIndex, sections: seq<Section>)

  type Queues = map<BitIndex, seq<Section>>
  type Leases = map<nat, Lease>

  function Queue(q: Queues, bit: BitIndex): seq<Section> {
    if bit in q then q[bit] else []
  }

  ghost predicate Sorted(s: seq<Section>) {
    forall i, j :: 0 <= i < j < |s| ==> s[i] <= s[j]
  }

  // ---- queues ----

  /** sort.Search for the first section that is not smaller. */
  method Search(s: seq<Section>, x: Section) returns (k: nat)
    requires Sorted(s)
    ensures k <= |s| && (forall i :: 0 <= i < k ==> s[i] < x) && (forall i :: k <= i < |s| ==> s[i] >= x)
  {
    var lo, hi := 0, |s|;
    while lo < hi
      invariant 0 <= lo <= hi <= |s|
      invariant forall i :: 0 <= i < lo ==> s[i] < x
      invariant forall i :: hi <= i < |s| ==> s[i] >= x
    {
      var mid := (lo + hi) / 2;
      if s[mid] >= x {
        hi := mid;
      } else {
        lo := mid + 1;
      }
    }
    k := lo;
  }

  /** A queue with one more section, before the first that is not smaller. */
  function Inserted(s: seq<Section>, x: Section): seq<Section> {
    if s == [] || s[0] >= x then [x] + s else [s[0]] + Inserted(s[1..], x)
  }

  lemma {:induction false} InsertedAt(s: seq<Section>, x: Section, k: nat)
    requires k <= |s| && (forall i :: 0 <= i < k ==> s[i] < x) && (forall i :: k <= i < |s| ==> s[i] >= x)
    ensures Inserted(s, x) == s[..k] + [x] + s[k..]
  {
    if k > 0 {
      InsertedAt(s[1..], x, k - 1);
      assert s[..k] == [s[0]] + s[1..][..k - 1] && s[k..] == s[1..][k - 1..];
    }
  }

  method Enqueue(s: seq<Section>, x: Section) returns (r: seq<Section>)
    requires Sorted(s)
    ensures r == Inserted(s, x)
    ensures Sorted(r) && |r| == |s| + 1 && forall y :: Count(r, y) == Count(s, y) + if y == x then 1 else 0
  {
    var index := Search(s, x);
    InsertedAt(s, x, index);
    hide Inserted;
    r := s[..index] + [x] + s[index..];
    assert s == s[..index] + s[index..];
  }

  // ---- where every request is ----

  function Count(s: seq<Section>, x: Section): nat {
    multiset(s)[x]
  }

  lemma CountConcat(s: seq<Section>, t: seq<Section>, x: Section)
    ensures Count(s + t, x) == Count(s, x) + Count(t, x)
  {
  }

  lemma CountOne(y: Section, x: Section)
    ensures Count([y], x) == if x == y then 1 else 0
  {
  }

  lemma CountAppend(s: seq<Section>, y: Section)
    ensures forall x :: Count(s + [y], x) == Count(s, x) + if x == y then 1 else 0
  {
  }

  lemma CountIn(s: seq<Section>, x: Section)
    ensures Count(s, x) > 0 <==> x in s
    ensures s == [] ==> Count(s, x) == 0
  {
  }

  /** How often a section of a bit is on its way with the first n retrievers. */
  ghost function Flying(l: Leases, bit: BitIndex, x: Section, n: nat): nat {
    if n == 0 then 0
    else
      Flying(l, bit, x, n - 1)
      + if n - 1 in l && l[n - 1].InFlight? && l[n - 1].bit == bit then Count(l[n - 1].sections, x) else 0
  }

  lemma {:induction false} FlyingSame(l: Leases, l': Leases, bit: BitIndex, x: Section, n: nat)
    requires forall k :: 0 <= k < n ==> (k in l) == (k in l') && (k in l ==> l[k] == l'[k])
    ensures Flying(l, bit, x, n) == Flying(l', bit, x, n)
  {
    if n > 0 {
      FlyingSame(l, l', bit, x, n - 1);
    }
  }

  lemma {:induction false} FlyingMore(l: Leases, id: nat, bit: BitIndex, sections: seq<Section>, n: nat,
                                      b: BitIndex, x: Section)
    requires id in l ==> l[id].Holding?
    ensures Flying(l[id := InFlight(bit, sections)], b, x, n)
         == Flying(l, b, x, n) + if id < n && b == bit then Count(sections, x) else 0
  {
    hide Count;
    if n > 0 {
      FlyingMore(l, id, bit, sections, n - 1, b, x);
    }
  }

  lemma FlyingLess(l: Leases, id: nat, n: nat, b: BitIndex, x: Section)
    requires id in l && l[id].InFlight?
    ensures Flying(l, b, x, n)
         == Flying(l - {id}, b, x, n) + if id < n && b == l[id].bit then Count(l[id].sections, x) else 0
  {
    hide Flying, Count;
    FlyingMore(l - {id}, id, l[id].bit, l[id].sections, n, b, x);
    assert l == (l - {id})[id := InFlight(l[id].bit, l[id].sections)];
  }

  // ---- who has a bit ----

  /** The retrievers that hold a bit and have not fetched. */
  ghost function Holders(l: Leases, bit: BitIndex): set<nat> {
    set id | id in l && l[id] == Holding(bit)
  }

  /** A bit with requests is unallocated or held by exactly one retriever; one without is neither. */
  ghost predicate BitOk(q: Queues, unallocs: set<BitIndex>, l: Leases, bit: BitIndex) {
    if Queue(q, bit) == [] then bit !in unallocs && Holders(l, bit) == {}
    else if bit in unallocs then Holders(l, bit) == {}
    else exists id :: Holders(l, bit) == {id}
  }

  // ---- the state as a value ----

  /** What the distributor knows, who has what, and what has been asked for, delivered and lost per bit. */
  datatype St = St(requests: Queues, unallocs: set<BitIndex>, leases: Leases, nextId: nat,
                   requested: Queues, delivered: Queues, lost: Queues)

  /** Each request for a section of a bit is queued, on its way, delivered or lost by a short delivery. */
  ghost predicate Conserved(st: St, bit: BitIndex, x: Section) {
    Count(Queue(st.requests, bit), x) + Flying(st.leases, bit, x, st.nextId)
    + Count(Queue(st.delivered, bit), x) + Count(Queue(st.lost, bit), x)
    == Count(Queue(st.requested, bit), x)
  }

  ghost predicate QueueOk(st: St, bit: BitIndex) {
    Sorted(Queue(st.requests, bit)) && Small(Queue(st.requests, bit))
  }

  ghost predicate Small(s: seq<Section>) {
    forall x :: x in s ==> x < MAX_SECTION
  }

  ghost predicate LeaseOk(st: St, id: nat)
    requires id in st.leases
  {
    id < st.nextId && (st.leases[id].InFlight? ==> Small(st.leases[id].sections))
  }

  /** All is well, except that bits in `open` may have requests without being allocated or unallocated. */
  ghost predicate Almost(st: St, open: set<BitIndex>) {
    && (forall bit, x :: Conserved(st, bit, x)) && (forall bit :: QueueOk(st, bit))
    && (forall id :: id in st.leases ==> LeaseOk(st, id))
    && (forall bit :: bit !in open ==> BitOk(st.requests, st.unallocs, st.leases, bit))
    && (forall bit :: bit in open ==>
          Queue(st.requests, bit) != [] && bit !in st.unallocs && Holders(st.leases, bit) == {})
  }

  ghost predicate Inv(st: St) {
    Almost(st, {})
  }

  // ---- allocation ----

  function Leased(st: St, bit: BitIndex): St {
    st.(leases := st.leases[st.nextId := Holding(bit)], nextId := st.nextId + 1)
  }

  lemma HoldersMore(l: Leases, id: nat, bit: BitIndex, b: BitIndex)
    requires id !in l
    ensures Holders(l[id := Holding(bit)], b) == Holders(l, b) + if b == bit then {id} else {}
  {
  }

  lemma LeasedConserves(st: St, bit: BitIndex, b: BitIndex, x: Section)
    requires Conserved(st, b, x)
    ensures Conserved(Leased(st, bit), b, x)
  {
    FlyingSame(st.leases, Leased(st, bit).leases, b, x, st.nextId);
  }

  lemma LeasedBit(st: St, bit: BitIndex, b: BitIndex)
    requires st.nextId !in st.leases
    requires if b == bit then Queue(st.requests, b) != [] && b !in st.unallocs && Holders(st.leases, b) == {}
             else BitOk(st.requests, st.unallocs, st.leases, b)
    ensures BitOk(st.requests, st.unallocs, Leased(st, bit).leases, b)
  {
    HoldersMore(st.leases, st.nextId, bit, b);
    hide Holders;
    if b == bit {
      assert Holders(Leased(st, bit).leases, b) == {st.nextId};
    }
  }

  /** A waiting retriever takes an open bit. */
  lemma LeasedInv(st: St, bit: BitIndex)
    requires Almost(st, {bit})
    ensures Inv(Leased(st, bit))
  {
    hide Conserved, BitOk, Holders, QueueOk, Small;
    var st' := Leased(st, bit);
    forall b, x
      ensures Conserved(st', b, x)
    {
      LeasedConserves(st, bit, b, x);
    }
    forall b
      ensures QueueOk(st', b) && BitOk(st'.requests, st'.unallocs, st'.leases, b)
    {
      assert QueueOk(st, b);
      LeasedBit(st, bit, b);
      SameQueue(st, st', b);
    }
    assert forall id :: id in st.leases ==> LeaseOk(st, id);
  }

  lemma SameQueue(st: St, st': St, b: BitIndex)
    requires QueueOk(st, b) && Queue(st'.requests, b) == Queue(st.requests, b)
    ensures QueueOk(st', b)
  {
  }

  /** No retriever waits: the bit is put down as unallocated. */
  lemma UnallocatedInv(st: St, bit: BitIndex)
    requires Almost(st, {bit})
    ensures Inv(st.(unallocs := st.unallocs + {bit}))
  {
    var st' := st.(unallocs := st.unallocs + {bit});
    forall b, x
      ensures Conserved(st', b, x)
    {
      assert Conserved(st, b, x);
    }
    forall b
      ensures QueueOk(st', b) && BitOk(st'.requests, st'.unallocs, st'.leases, b)
    {
      assert QueueOk(st, b);
      assert b != bit ==> BitOk(st.requests, st.unallocs, st.leases, b);
    }
    assert forall id :: id in st.leases ==> LeaseOk(st, id);
  }

  /** A retriever arrives for a bit that was put down as unallocated. */
  lemma ReopenedInv(st: St, bit: BitIndex)
    requires Inv(st) && bit in st.unallocs
    ensures Almost(st.(unallocs := st.unallocs - {bit}), {bit})
  {
    var st' := st.(unallocs := st.unallocs - {bit});
    forall b, x
      ensures Conserved(st', b, x)
    {
      assert Conserved(st, b, x);
    }
    forall b
      ensures QueueOk(st', b) && (b != bit ==> BitOk(st'.requests, st'.unallocs, st'.leases, b))
    {
      assert QueueOk(st, b) && BitOk(st.requests, st.unallocs, st.leases, b);
    }
    assert BitOk(st.requests, st.unallocs, st.leases, bit);
    assert forall id :: id in st.leases ==> LeaseOk(st, id);
  }

  // ---- a request arrives ----

  function Asked(st: St, bit: BitIndex, section: Section, queue: seq<Section>): St {
    st.(requests := st.requests[bit := queue], requested := st.requested[bit := Queue(st.requested, bit) + [section]])
  }

  lemma AskedConserves(st: St, bit: BitIndex, section: Section, queue: seq<Section>, b: BitIndex, x: Section)
    requires Conserved(st, b, x) && Count(queue, x) == Count(Queue(st.requests, bit), x) + if x == section then 1 else 0
    ensures Conserved(Asked(st, bit, section, queue), b, x)
  {
    CountOne(section, x);
    hide Count, Flying;
    CountConcat(Queue(st.requested, bit), [section], x);
  }

  lemma AskedQueue(st: St, bit: BitIndex, section: Section, queue: seq<Section>, b: BitIndex)
    requires QueueOk(st, b) && section < MAX_SECTION && Sorted(queue)
    requires forall x :: Count(queue, x) == Count(Queue(st.requests, bit), x) + if x == section then 1 else 0
    ensures QueueOk(Asked(st, bit, section, queue), b) && queue != []
  {
    forall x
      ensures x in queue ==> x == section || x in Queue(st.requests, bit)
    {
      CountIn(queue, x);
      CountIn(Queue(st.requests, bit), x);
    }
    CountIn(queue, section);
  }

  lemma AskedInv(st: St, bit: BitIndex, section: Section, queue: seq<Section>)
    requires Inv(st) && section < MAX_SECTION && Sorted(queue)
    requires forall x :: Count(queue, x) == Count(Queue(st.requests, bit), x) + if x == section then 1 else 0
    ensures Almost(Asked(st, bit, section, queue), if Queue(st.requests, bit) == [] then {bit} else {})
  {
    hide Conserved, Holders, QueueOk, Small, Count;
    var st' := Asked(st, bit, section, queue);
    forall b, x
      ensures Conserved(st', b, x)
    {
      assert Conserved(st, b, x);
      AskedConserves(st, bit, section, queue, b, x);
    }
    assert QueueOk(st, bit);
    AskedQueue(st, bit, section, queue, bit);
    forall b
      ensures QueueOk(st', b)
    {
      assert QueueOk(st, b);
      AskedQueue(st, bit, section, queue, b);
    }
    forall b
      ensures b != bit || Queue(st.requests, bit) != [] ==> BitOk(st'.requests, st'.unallocs, st'.leases, b)
    {
      assert BitOk(st.requests, st.unallocs, st.leases, b);
    }
    assert BitOk(st.requests, st.unallocs, st.leases, bit);
    assert forall id :: id in st.leases ==> LeaseOk(st, id);
  }

  // ---- a retriever fetches ----

  function Fetched(st: St, id: nat, bit: BitIndex, taken: seq<Section>, rest: seq<Section>): St {
    st.(requests := if rest == [] then st.requests - {bit} else st.requests[bit := rest],
        leases := st.leases[id := InFlight(bit, taken)])
  }

  lemma HoldersLess(l: Leases, id: nat, bit: BitIndex, lease: Lease, b: BitIndex)
    requires id in l && l[id] == Holding(bit) && lease.InFlight?
    ensures Holders(l[id := lease], b) == Holders(l, b) - if b == bit then {id} else {}
  {
  }

  lemma FetchedConserves(st: St, id: nat, bit: BitIndex, taken: seq<Section>, rest: seq<Section>, b: BitIndex,
                         x: Section)
    requires Conserved(st, b, x) && id in st.leases && id < st.nextId && st.leases[id] == Holding(bit)
    requires Queue(st.requests, bit) == taken + rest
    ensures Conserved(Fetched(st, id, bit, taken, rest), b, x)
  {
    FlyingMore(st.leases, id, bit, taken, st.nextId, b, x);
    CountConcat(taken, rest, x);
    hide Flying, Count;
  }

  lemma FetchedBit(st: St, id: nat, bit: BitIndex, taken: seq<Section>, rest: seq<Section>, b: BitIndex)
    requires BitOk(st.requests, st.unallocs, st.leases, b) && id in st.leases && st.leases[id] == Holding(bit)
    requires Queue(st.requests, bit) == taken + rest
    ensures var st' := Fetched(st, id, bit, taken, rest);
            if b == bit then bit !in st'.unallocs && Holders(st'.leases, b) == {}
            else BitOk(st'.requests, st'.unallocs, st'.leases, b)
  {
    HoldersLess(st.leases, id, bit, InFlight(bit, taken), b);
    assert b == bit ==> id in Holders(st.leases, b);
    hide Holders;
  }

  lemma FetchedQueue(st: St, id: nat, bit: BitIndex, taken: seq<Section>, rest: seq<Section>, b: BitIndex)
    requires QueueOk(st, b) && QueueOk(st, bit) && Queue(st.requests, bit) == taken + rest
    ensures QueueOk(Fetched(st, id, bit, taken, rest), b) && Small(taken)
  {
    var all := taken + rest;
    assert forall i :: 0 <= i < |rest| ==> rest[i] == all[|taken| + i];
    assert forall x :: x in taken || x in rest ==> x in all;
  }

  lemma FetchedInv(st: St, id: nat, bit: BitIndex, taken: seq<Section>, rest: seq<Section>)
    requires Inv(st) && id in st.leases && st.leases[id] == Holding(bit) && Queue(st.requests, bit) == taken + rest
    ensures Almost(Fetched(st, id, bit, taken, rest), if rest == [] then {} else {bit})
  {
    hide Conserved, Holders, QueueOk, Small, Count;
    var st' := Fetched(st, id, bit, taken, rest);
    assert LeaseOk(st, id);
    forall b, x
      ensures Conserved(st', b, x)
    {
      assert Conserved(st, b, x);
      FetchedConserves(st, id, bit, taken, rest, b, x);
    }
    assert QueueOk(st, bit) && BitOk(st.requests, st.unallocs, st.leases, bit);
    FetchedQueue(st, id, bit, taken, rest, bit);
    FetchedBit(st, id, bit, taken, rest, bit);
    forall b
      ensures QueueOk(st', b) && (b != bit ==> BitOk(st'.requests, st'.unallocs, st'.leases, b))
    {
      assert QueueOk(st, b) && BitOk(st.requests, st.unallocs, st.leases, b);
      FetchedQueue(st, id, bit, taken, rest, b);
      FetchedBit(st, id, bit, taken, rest, b);
    }
    assert forall k :: k in st.leases ==> LeaseOk(st, k);
  }

  // ---- a retriever delivers ----

  function Delivered(st: St, id: nat, bit: BitIndex, queue: seq<Section>, got: seq<Section>, gone: seq<Section>): St {
    st.(requests := if queue == Queue(st.requests, bit) then st.requests else st.requests[bit := queue],
        leases := st.leases - {id},
        delivered := st.delivered[bit := Queue(st.delivered, bit) + got],
        lost := st.lost[bit := Queue(st.lost, bit) + gone])
  }

  /** What a delivery must account for: its sections are delivered, go back to the queue, or are not spoken of. */
  ghost predicate Accounts(st: St, id: nat, bit: BitIndex, queue: seq<Section>, got: seq<Section>,
                           missing: seq<Section>, gone: seq<Section>) {
    && id in st.leases && st.leases[id].InFlight? && st.leases[id].bit == bit && Sorted(queue)
    && (forall x :: Count(st.leases[id].sections, x) == Count(got, x) + Count(missing, x) + Count(gone, x))
    && (forall x :: Count(queue, x) == Count(Queue(st.requests, bit), x) + Count(missing, x))
    && |queue| == |Queue(st.requests, bit)| + |missing|
  }

  lemma DeliveredConserves(st: St, id: nat, bit: BitIndex, queue: seq<Section>, got: seq<Section>,
                           missing: seq<Section>, gone: seq<Section>, b: BitIndex, x: Section)
    requires Accounts(st, id, bit, queue, got, missing, gone) && Conserved(st, b, x) && id < st.nextId
    ensures Conserved(Delivered(st, id, bit, queue, got, gone), b, x)
  {
    hide *;
    var st' := Delivered(st, id, bit, queue, got, gone);
    AccountsAt(st, id, bit, queue, got, missing, gone, x);
    FlyingLess(st.leases, id, st.nextId, b, x);
    DeliveredFields(st, id, bit, queue, got, gone, b);
    CountConcat(Queue(st.delivered, bit), got, x);
    CountConcat(Queue(st.lost, bit), gone, x);
    ConservedIs(st, b, x);
    ConservedIs(st', b, x);
  }

  lemma AccountsAt(st: St, id: nat, bit: BitIndex, queue: seq<Section>, got: seq<Section>, missing: seq<Section>,
                   gone: seq<Section>, x: Section)
    requires Accounts(st, id, bit, queue, got, missing, gone)
    ensures id in st.leases && st.leases[id].InFlight? && st.leases[id].bit == bit
    ensures Count(st.leases[id].sections, x) == Count(got, x) + Count(missing, x) + Count(gone, x)
    ensures Count(queue, x) == Count(Queue(st.requests, bit), x) + Count(missing, x)
  {
  }

  lemma ConservedIs(st: St, bit: BitIndex, x: Section)
    ensures Conserved(st, bit, x) <==>
      Count(Queue(st.requests, bit), x) + Flying(st.leases, bit, x, st.nextId)
      + Count(Queue(st.delivered, bit), x) + Count(Queue(st.lost, bit), x)
      == Count(Queue(st.requested, bit), x)
  {
  }

  lemma DeliveredFields(st: St, id: nat, bit: BitIndex, queue: seq<Section>, got: seq<Section>, gone: seq<Section>,
                        b: BitIndex)
    ensures var st' := Delivered(st, id, bit, queue, got, gone);
            && st'.leases == st.leases - {id} && st'.nextId == st.nextId && st'.requested == st.requested
            && Queue(st'.requests, b) == (if b == bit then queue else Queue(st.requests, b))
            && Queue(st'.delivered, b) == (if b == bit then Queue(st.delivered, b) + got else Queue(st.delivered, b))
            && Queue(st'.lost, b) == (if b == bit then Queue(st.lost, b) + gone else Queue(st.lost, b))
  {
  }

  lemma DeliveredQueue(st: St, id: nat, bit: BitIndex, queue: seq<Section>, got: seq<Section>,
                       missing: seq<Section>, gone: seq<Section>, b: BitIndex)
    requires Accounts(st, id, bit, queue, got, missing, gone) && QueueOk(st, b) && QueueOk(st, bit) && LeaseOk(st, id)
    ensures QueueOk(Delivered(st, id, bit, queue, got, gone), b)
  {
    forall x | x in queue
      ensures x < MAX_SECTION
    {
      CountIn(queue, x);
      CountIn(Queue(st.requests, bit), x);
      CountIn(st.leases[id].sections, x);
    }
  }

  lemma DeliveredBit(st: St, id: nat, bit: BitIndex, queue: seq<Section>, got: seq<Section>,
                     missing: seq<Section>, gone: seq<Section>, b: BitIndex)
    requires Accounts(st, id, bit, queue, got, missing, gone) && BitOk(st.requests, st.unallocs, st.leases, b)
    ensures var st' := Delivered(st, id, bit, queue, got, gone);
            if b == bit && Queue(st.requests, bit) == [] && missing != []
            then Queue(st'.requests, b) != [] && b !in st'.unallocs && Holders(st'.leases, b) == {}
            else BitOk(st'.requests, st'.unallocs, st'.leases, b)
  {
    assert Holders(st.leases - {id}, b) == Holders(st.leases, b);
    hide Holders, Count;
  }

  lemma DeliveredInv(st: St, id: nat, bit: BitIndex, queue: seq<Section>, got: seq<Section>,
                     missing: seq<Section>, gone: seq<Section>)
    requires Inv(st) && Accounts(st, id, bit, queue, got, missing, gone)
    ensures Almost(Delivered(st, id, bit, queue, got, gone),
                   if Queue(st.requests, bit) == [] && missing != [] then {bit} else {})
  {
    assert id in st.leases;
    assert LeaseOk(st, id);
    hide Conserved, Holders, QueueOk, Small, Count, Accounts;
    var st' := Delivered(st, id, bit, queue, got, gone);
    forall b, x
      ensures Conserved(st', b, x)
    {
      assert Conserved(st, b, x);
      DeliveredConserves(st, id, bit, queue, got, missing, gone, b, x);
    }
    forall b
      ensures QueueOk(st', b)
    {
      assert QueueOk(st, b) && QueueOk(st, bit);
      DeliveredQueue(st, id, bit, queue, got, missing, gone, b);
    }
    forall b
      ensures if b == bit && Queue(st.requests, bit) == [] && missing != []
              then Queue(st'.requests, b) != [] && b !in st'.unallocs && Holders(st'.leases, b) == {}
              else BitOk(st'.requests, st'.unallocs, st'.leases, b)
    {
      assert BitOk(st.requests, st.unallocs, st.leases, b);
      DeliveredBit(st, id, bit, queue, got, missing, gone, b);
    }
    assert forall k :: k in st.leases ==> LeaseOk(st, k);
  }

  lemma {:induction false} FlyingSomewhere(l: Leases, bit: BitIndex, x: Section, n: nat) returns (id: nat)
    requires Flying(l, bit, x, n) > 0
    ensures id in l && l[id].InFlight? && l[id].bit == bit && x in l[id].sections
  {
    id := n - 1;
    if id in l && l[id].InFlight? && l[id].bit == bit && Count(l[id].sections, x) > 0 {
      CountIn(l[id].sections, x);
    } else {
      id := FlyingSomewhere(l, bit, x, n - 1);
    }
  }

  /** The request is queued, with a retriever, or delivered. */
  ghost predicate Kept(st: St, bit: BitIndex, x: Section) {
    || x in Queue(st.requests, bit) || x in Queue(st.delivered, bit)
    || exists id ::
         id in st.leases && st.leases[id].InFlight? && st.leases[id].bit == bit && x in st.leases[id].sections
  }

  /** No request is lost, unless a delivery passed over it. */
  lemma NeverLost(st: St, bit: BitIndex, x: Section)
    requires Inv(st) && x in Queue(st.requested, bit)
    ensures Kept(st, bit, x) || x in Queue(st.lost, bit)
  {
    assert Conserved(st, bit, x);
    CountIn(Queue(st.requested, bit), x);
    CountIn(Queue(st.requests, bit), x);
    CountIn(Queue(st.delivered, bit), x);
    CountIn(Queue(st.lost, bit), x);
    hide Count;
    if Flying(st.leases, bit, x, st.nextId) > 0 {
      var id := FlyingSomewhere(st.leases, bit, x, st.nextId);
    }
  }

  // ---- the loop's cases ----

  type Bitset = seq<nat>

  class Distributor {
    var requests: Queues
    var unallocs: set<BitIndex>
    var listening: bool
    var allocs: int
    ghost var st: St

    constructor ()
      ensures Valid() && st == NOTHING
    {
      requests, unallocs, listening, allocs := map[], {}, false, 0;
      st := NOTHING;
    }

    /** The invariant holds, allocations are counted, and retrievers are listened for while bits are unallocated. */
    ghost predicate Valid()
      reads this
    {
      Shape() && Inv(st) && (listening <==> unallocs != {})
    }

    ghost predicate Shape()
      reads this
    {
      st.requests == requests && st.unallocs == unallocs && allocs == |st.leases|
    }

    /** A bit with requests goes to a waiting retriever, or is put down for the next one. */
    method Assign(bit: BitIndex) returns (taken: bool)
      requires Shape() && Almost(st, {bit}) && (listening <==> unallocs != {})
      modifies this
      ensures Valid() && requests == old(requests) && st == Assigned(old(st), bit, taken)
    {
      hide Almost;
      var waiting: bool := *;
      if waiting {
        LeasedInv(st, bit);
        NewLease(st, bit);
        allocs := allocs + 1;
        st := Leased(st, bit);
      } else {
        UnallocatedInv(st, bit);
        listening := true;
        unallocs := unallocs + {bit};
        st := st.(unallocs := unallocs);
      }
      return waiting;
    }

    /** A request arrives and is queued in order. */
    method OnRequest(bit: BitIndex, section: Section) returns (taken: bool)
      requires Valid() && section < MAX_SECTION
      modifies this
      ensures Valid() && st == AfterRequest(old(st), bit, section, taken)
    {
      var queue := Queue(requests, bit);
      SortedQueue(st, bit);
      hide Almost, Count, Inserted;
      var queue' := Enqueue(queue, section);
      AskedInv(st, bit, section, queue');
      requests := requests[bit := queue'];
      st := Asked(st, bit, section, queue');
      taken := false;
      if |queue| == 0 {
        taken := Assign(bit);
      }
    }

    /** A retriever arrives and gets the unallocated bit with the lowest section. */
    method OnRetriever() returns (bit: BitIndex)
      requires Valid() && listening
      modifies this
      ensures Valid() && st == AfterArrival(old(st), bit) && IsLowest(old(st), bit)
    {
      bit := Lowest();
      ReopenedInv(st, bit);
      hide Almost;
      unallocs := unallocs - {bit};
      if unallocs == {} {
        listening := false;
      }
      st := st.(unallocs := unallocs);
      LeasedInv(st, bit);
      NewLease(st, bit);
      allocs := allocs + 1;
      st := Leased(st, bit);
    }

    method Lowest() returns (bit: BitIndex)
      requires Valid() && unallocs != {}
      ensures IsLowest(st, bit)
    {
      hide Almost;
      bit := 0;
      var best := MAX_SECTION;
      var todo := unallocs;
      while todo != {}
        invariant todo <= unallocs
        invariant best < MAX_SECTION <==> todo != unallocs
        invariant best < MAX_SECTION ==>
          bit in unallocs && Queue(requests, bit) != [] && best == Queue(requests, bit)[0]
        invariant best <= MAX_SECTION
        invariant forall b :: b in unallocs - todo && Queue(requests, b) != [] ==> best <= Queue(requests, b)[0]
        decreases todo
      {
        var idx :| idx in todo;
        WaitingBit(st, idx);
        if requests[idx][0] < best {
          bit, best := idx, requests[idx][0];
        }
        todo := todo - {idx};
      }
    }

    /** A retriever fetches up to `want` sections of its bit. */
    method OnRetrieval(ghost id: nat, bit: BitIndex, want: nat) returns (task: seq<Section>, taken: bool)
      requires Valid() && id in st.leases && st.leases[id] == Holding(bit)
      modifies this
      ensures Valid() && st == AfterFetch(old(st), id, bit, want, taken) && task == Task(old(st), bit, want)
    {
      hide Almost;
      var queue := Queue(requests, bit);
      taken := false;
      if want >= |queue| {
        task := queue;
        assert queue[..|queue|] == queue && queue[|queue|..] == [];
        FetchedInv(st, id, bit, queue, []);
        st := Fetched(st, id, bit, queue, []);
        requests := requests - {bit};
        SameCount(old(st.leases), id, InFlight(bit, task));
      } else {
        task := queue[..want];
        FetchedInv(st, id, bit, task, queue[want..]);
        st := Fetched(st, id, bit, task, queue[want..]);
        requests := requests[bit := queue[want..]];
        SameCount(old(st.leases), id, InFlight(bit, task));
        taken := Assign(bit);
      }
    }

    /**
     A retriever delivers: sections without data go back to the queue. The loop runs over the data, so
     sections behind the last piece of data are neither delivered nor asked for again.
     */
    method OnDelivery(ghost id: nat, bit: BitIndex, sections: seq<Section>, bitsets: seq<Bitset>) returns (taken: bool)
      requires Valid() && id in st.leases && st.leases[id] == InFlight(bit, sections) && |bitsets| <= |sections|
      modifies this
      ensures Valid() && st == AfterDelivery(old(st), id, bit, sections, bitsets, taken)
    {
      hide Resolved, Almost, Count, Accounts, Filled, Missing, RequeueAll;
      ghost var gone := sections[|bitsets|..];
      SortedQueue(st, bit);
      var got, missing, queue := Resolve(Queue(requests, bit), sections, bitsets);
      Accounted(st, id, bit, queue, got, missing, gone, sections);
      DeliveredInv(st, id, bit, queue, got, missing, gone);
      OneLess(st.leases, id);
      allocs := allocs - 1;
      if |missing| > 0 {
        requests := requests[bit := queue];
      }
      st := Delivered(st, id, bit, queue, got, gone);
      taken := false;
      if |missing| > 0 && |queue| == |missing| {
        taken := Assign(bit);
      }
    }
  }

  /** What a delivery makes of a queue. */
  ghost predicate Resolved(queue0: seq<Section>, sections: seq<Section>, got: seq<Section>, missing: seq<Section>,
                           gone: seq<Section>, queue: seq<Section>) {
    && Sorted(queue) && |queue| == |queue0| + |missing|
    && (forall x :: Count(sections, x) == Count(got, x) + Count(missing, x) + Count(gone, x))
    && (forall x :: Count(queue, x) == Count(queue0, x) + Count(missing, x))
  }

  lemma Accounted(st: St, id: nat, bit: BitIndex, queue: seq<Section>, got: seq<Section>, missing: seq<Section>,
                  gone: seq<Section>, sections: seq<Section>)
    requires id in st.leases && st.leases[id] == InFlight(bit, sections)
    requires Resolved(Queue(st.requests, bit), sections, got, missing, gone, queue)
    ensures Accounts(st, id, bit, queue, got, missing, gone)
  {
    hide Count;
  }

  method Resolve(queue0: seq<Section>, sections: seq<Section>, bitsets: seq<Bitset>)
    returns (got: seq<Section>, missing: seq<Section>, queue: seq<Section>)
    requires Sorted(queue0) && |bitsets| <= |sections|
    ensures Resolved(queue0, sections, got, missing, sections[|bitsets|..], queue)
    ensures got == Filled(sections[..|bitsets|], bitsets) && missing == Missing(sections[..|bitsets|], bitsets)
    ensures queue == RequeueAll(queue0, missing) && (missing == [] ==> queue == queue0)
    ensures |queue| == |queue0| + |missing|
  {
    hide Count, Filled, Sorted, Missing, RequeueAll;
    got, missing := Split(sections[..|bitsets|], bitsets);
    Apart(sections, |bitsets|);
    queue := Requeue(queue0, missing);
  }

  /** The state before anything happens. */
  const NOTHING: St := St(map[], {}, map[], 0, map[], map[], map[])

  // ---- what each case makes of the state ----

  /** A bit goes to a waiting retriever or is put down as unallocated. */
  function Assigned(st: St, bit: BitIndex, taken: bool): St {
    if taken then Leased(st, bit) else st.(unallocs := st.unallocs + {bit})
  }

  function AfterRequest(st: St, bit: BitIndex, section: Section, taken: bool): St {
    var queue := Queue(st.requests, bit);
    var asked := Asked(st, bit, section, Inserted(queue, section));
    if queue == [] then Assigned(asked, bit, taken) else asked
  }

  function AfterArrival(st: St, bit: BitIndex): St {
    Leased(st.(unallocs := st.unallocs - {bit}), bit)
  }

  /** The unallocated bit is one with the lowest first section. */
  ghost predicate IsLowest(st: St, bit: BitIndex) {
    && bit in st.unallocs && Queue(st.requests, bit) != []
    && forall b :: b in st.unallocs && Queue(st.requests, b) != [] ==>
         Queue(st.requests, bit)[0] <= Queue(st.requests, b)[0]
  }

  /** The first sections of a bit, at most `want`. */
  function Task(st: St, bit: BitIndex, want: nat): seq<Section> {
    var queue := Queue(st.requests, bit); queue[..if want < |queue| then want else |queue|]
  }

  function AfterFetch(st: St, id: nat, bit: BitIndex, want: nat, taken: bool): St {
    var queue, task := Queue(st.requests, bit), Task(st, bit, want);
    var fetched := Fetched(st, id, bit, task, queue[|task|..]);
    if |task| == |queue| then fetched else Assigned(fetched, bit, taken)
  }

  function AfterDelivery(st: St, id: nat, bit: BitIndex, sections: seq<Section>, bitsets: seq<Bitset>, taken: bool): St
    requires |bitsets| <= |sections|
  {
    var queue, answered := Queue(st.requests, bit), sections[..|bitsets|];
    var missing := Missing(answered, bitsets);
    var delivered := Delivered(st, id, bit, RequeueAll(queue, missing), Filled(answered, bitsets),
                               sections[|bitsets|..]);
    if missing != [] && queue == [] then Assigned(delivered, bit, taken) else delivered
  }

  lemma Apart(s: seq<Section>, n: nat)
    requires n <= |s|
    ensures forall x :: Count(s, x) == Count(s[..n], x) + Count(s[n..], x)
  {
    assert s == s[..n] + s[n..];
    forall x
      ensures Count(s, x) == Count(s[..n], x) + Count(s[n..], x)
    {
      CountConcat(s[..n], s[n..], x);
    }
  }

  // ---- whole runs ----

  /**
   What can happen: a request, the arrival of a retriever, a retriever fetching, and a retriever delivering
   data for the sections it fetched, save the last `short` ones.
   */
  datatype Event =
    | Request(bit: BitIndex, section: Section)
    | Arrival
    | Fetch(id: nat, want: nat)
    | Delivery(id: nat, data: nat -> Bitset, short: nat)

  /** What is left open: whether a retriever is waiting, and which of the lowest bits it gets. */
  datatype Choice = Choice(taken: bool, bit: BitIndex)

  /** How many of n sections a delivery answers for. */
  function Answered(n: nat, short: nat): nat {
    if short < n then n - short else 0
  }

  function Data(data: nat -> Bitset, n: nat): (r: seq<Bitset>)
    ensures |r| == n
  {
    seq(n, i requires 0 <= i < n => data(i))
  }

  predicate HasFetched(st: St, id: nat) {
    id in st.leases && st.leases[id].InFlight?
  }

  /** One event, or nothing where it cannot happen. */
  function Step(st: St, e: Event, c: Choice): St {
    match e
    case Request(bit, section) => if section < MAX_SECTION then AfterRequest(st, bit, section, c.taken) else st
    case Arrival => if st.unallocs == {} then st else AfterArrival(st, c.bit)
    case Fetch(id, want) =>
      if id in st.leases && st.leases[id].Holding? then AfterFetch(st, id, st.leases[id].bit, want, c.taken) else st
    case Delivery(id, data, short) =>
      if HasFetched(st, id) then
        var sections := st.leases[id].sections;
        AfterDelivery(st, id, st.leases[id].bit, sections, Data(data, Answered(|sections|, short)), c.taken)
      else st
  }

  ghost predicate Legal(st: St, e: Event, c: Choice) {
    e.Arrival? && st.unallocs != {} ==> IsLowest(st, c.bit)
  }

  /** The state after a schedule, for given choices. */
  function Final(events: seq<Event>, choices: seq<Choice>): St
    requires |events| == |choices|
  {
    if events == [] then NOTHING
    else
      var n := |events| - 1; Step(Final(events[..n], choices[..n]), events[n], choices[n])
  }

  ghost predicate LegalRun(events: seq<Event>, choices: seq<Choice>) {
    |events| == |choices| && forall i :: 0 <= i < |events| ==> LegalAt(events, choices, i)
  }

  ghost predicate LegalAt(events: seq<Event>, choices: seq<Choice>, i: nat)
    requires i < |events| == |choices|
  {
    Legal(Final(events[..i], choices[..i]), events[i], choices[i])
  }

  /** The sections of a bit asked for in a schedule. */
  function Asks(events: seq<Event>, bit: BitIndex): seq<Section> {
    if events == [] then []
    else
      var last := events[|events| - 1];
      Asks(events[..|events| - 1], bit)
      + if last.Request? && last.bit == bit && last.section < MAX_SECTION then [last.section] else []
  }

  /** The sections of a bit that an event leaves behind: those at the end of a task that it does not answer for. */
  function LeftBehind(st: St, e: Event, bit: BitIndex): seq<Section> {
    if e.Delivery? && HasFetched(st, e.id) && st.leases[e.id].bit == bit then
      var sections := st.leases[e.id].sections; sections[Answered(|sections|, e.short)..]
    else []
  }

  function AllLeftBehind(events: seq<Event>, choices: seq<Choice>, bit: BitIndex): seq<Section>
    requires |events| == |choices|
  {
    if events == [] then []
    else
      var n := |events| - 1;
      AllLeftBehind(events[..n], choices[..n], bit) + LeftBehind(Final(events[..n], choices[..n]), events[n], bit)
  }

  lemma AssignedFields(st: St, bit: BitIndex, taken: bool)
    ensures Assigned(st, bit, taken).lost == st.lost && Assigned(st, bit, taken).requested == st.requested
  {
  }

  lemma RequestFields(st: St, bit: BitIndex, section: Section, taken: bool, b: BitIndex)
    ensures var st' := AfterRequest(st, bit, section, taken);
            st'.lost == st.lost
            && Queue(st'.requested, b) == Queue(st.requested, b) + if b == bit then [section] else []
  {
    hide Inserted, Assigned;
    AssignedFields(Asked(st, bit, section, Inserted(Queue(st.requests, bit), section)), bit, taken);
  }

  lemma FetchFields(st: St, id: nat, bit: BitIndex, want: nat, taken: bool)
    ensures var st' := AfterFetch(st, id, bit, want, taken); st'.lost == st.lost && st'.requested == st.requested
  {
  }

  lemma DeliveryFields(st: St, id: nat, bit: BitIndex, sections: seq<Section>, bitsets: seq<Bitset>, taken: bool,
                       b: BitIndex)
    requires |bitsets| <= |sections|
    ensures var st' := AfterDelivery(st, id, bit, sections, bitsets, taken);
            st'.requested == st.requested
            && Queue(st'.lost, b) == Queue(st.lost, b) + if b == bit then sections[|bitsets|..] else []
  {
    hide Inserted, RequeueAll, Filled, Missing;
  }

  lemma StepFields(st: St, e: Event, c: Choice, bit: BitIndex)
    ensures Queue(Step(st, e, c).lost, bit) == Queue(st.lost, bit) + LeftBehind(st, e, bit)
    ensures Queue(Step(st, e, c).requested, bit)
         == Queue(st.requested, bit)
            + if e.Request? && e.bit == bit && e.section < MAX_SECTION then [e.section] else []
  {
    hide AfterRequest, AfterFetch, AfterDelivery, Data, Queue;
    match e
    case Request(b, section) =>
      RequestFields(st, b, section, c.taken, bit);
    case Arrival =>
    case Fetch(id, want) =>
      if id in st.leases {
        FetchFields(st, id, st.leases[id].bit, want, c.taken);
      }
    case Delivery(id, data, short) =>
      if HasFetched(st, id) {
        var sections := st.leases[id].sections;
        var n := Answered(|sections|, short);
        DeliveryFields(st, id, st.leases[id].bit, sections, Data(data, n), c.taken, bit);
      }
  }

  /** What has been asked for is what the schedule asks for. */
  lemma {:induction false} FinalRequested(events: seq<Event>, choices: seq<Choice>, bit: BitIndex)
    requires |events| == |choices|
    ensures Queue(Final(events, choices).requested, bit) == Asks(events, bit)
  {
    hide Step;
    if events != [] {
      var n := |events| - 1;
      FinalRequested(events[..n], choices[..n], bit);
      StepFields(Final(events[..n], choices[..n]), events[n], choices[n], bit);
    }
  }

  /** What has been lost is what the deliveries left behind, one after another. */
  lemma {:induction false} FinalLost(events: seq<Event>, choices: seq<Choice>, bit: BitIndex)
    requires |events| == |choices|
    ensures Queue(Final(events, choices).lost, bit) == AllLeftBehind(events, choices, bit)
  {
    hide Step, LeftBehind;
    if events != [] {
      var n := |events| - 1;
      FinalLost(events[..n], choices[..n], bit);
      StepFields(Final(events[..n], choices[..n]), events[n], choices[n], bit);
    }
  }

  /** A delivery that does not answer for all that was fetched. */
  ghost predicate IsShort(st: St, e: Event) {
    e.Delivery? && HasFetched(st, e.id) && e.short > 0 && st.leases[e.id].sections != []
  }

  ghost predicate ShortAt(events: seq<Event>, choices: seq<Choice>, i: nat)
    requires i < |events| == |choices|
  {
    IsShort(Final(events[..i], choices[..i]), events[i])
  }

  lemma ShortLeaves(st: St, e: Event)
    ensures IsShort(st, e) <==> exists bit :: LeftBehind(st, e, bit) != []
  {
    if IsShort(st, e) {
      assert LeftBehind(st, e, st.leases[e.id].bit) != [];
    }
  }

  lemma LeftBehindLast(events: seq<Event>, choices: seq<Choice>, bit: BitIndex)
    requires |events| == |choices| > 0
    ensures var n := |events| - 1;
            AllLeftBehind(events, choices, bit)
            == AllLeftBehind(events[..n], choices[..n], bit)
               + LeftBehind(Final(events[..n], choices[..n]), events[n], bit)
  {
    hide LeftBehind, Final;
  }

  lemma ShortBefore(events: seq<Event>, choices: seq<Choice>, n: nat, i: nat)
    requires i < n <= |events| == |choices|
    ensures ShortAt(events[..n], choices[..n], i) == ShortAt(events, choices, i)
  {
    hide IsShort, Final;
    assert events[..n][..i] == events[..i] && choices[..n][..i] == choices[..i];
  }

  /** Where no delivery of a run is short, nothing is left behind. */
  lemma {:induction false} NoneShort(events: seq<Event>, choices: seq<Choice>, bit: BitIndex)
    requires |events| == |choices| && forall i :: 0 <= i < |events| ==> !ShortAt(events, choices, i)
    ensures AllLeftBehind(events, choices, bit) == []
  {
    if events != [] {
      hide LeftBehind, Final, IsShort, AllLeftBehind;
      var n := |events| - 1;
      forall i | 0 <= i < n
        ensures !ShortAt(events[..n], choices[..n], i)
      {
        ShortBefore(events, choices, n, i);
      }
      NoneShort(events[..n], choices[..n], bit);
      ShortLeaves(Final(events[..n], choices[..n]), events[n]);
      assert !ShortAt(events, choices, n);
      LeftBehindLast(events, choices, bit);
    }
  }

  /** A short delivery leaves something behind. */
  lemma {:induction false} SomeShort(events: seq<Event>, choices: seq<Choice>, i: nat) returns (bit: BitIndex)
    requires i < |events| == |choices| && ShortAt(events, choices, i)
    ensures AllLeftBehind(events, choices, bit) != []
    decreases |events|
  {
    hide LeftBehind, Final, IsShort, AllLeftBehind;
    var n := |events| - 1;
    if i == n {
      ShortLeaves(Final(events[..n], choices[..n]), events[n]);
      bit :| LeftBehind(Final(events[..n], choices[..n]), events[n], bit) != [];
    } else {
      ShortBefore(events, choices, n, i);
      bit := SomeShort(events[..n], choices[..n], i);
    }
    LeftBehindLast(events, choices, bit);
  }

  /** Nothing is lost in a run if and only if no delivery in it is short. */
  lemma NothingLostIff(events: seq<Event>, choices: seq<Choice>)
    requires |events| == |choices|
    ensures (forall bit :: Queue(Final(events, choices).lost, bit) == [])
       <==> forall i :: 0 <= i < |events| ==> !ShortAt(events, choices, i)
  {
    hide Final, AllLeftBehind, ShortAt, Queue;
    forall bit
      ensures Queue(Final(events, choices).lost, bit) == AllLeftBehind(events, choices, bit)
    {
      FinalLost(events, choices, bit);
    }
    if forall i :: 0 <= i < |events| ==> !ShortAt(events, choices, i) {
      forall bit
        ensures AllLeftBehind(events, choices, bit) == []
      {
        NoneShort(events, choices, bit);
      }
    } else {
      var i :| 0 <= i < |events| && ShortAt(events, choices, i);
      var bit := SomeShort(events, choices, i);
      assert Queue(Final(events, choices).lost, bit) != [];
    }
  }

  /** No delivery of the schedule leaves anything out. */
  predicate Complete(events: seq<Event>) {
    forall i :: 0 <= i < |events| ==> events[i].Delivery? ==> events[i].short == 0
  }

  lemma CompleteLosesNothing(events: seq<Event>, choices: seq<Choice>, bit: BitIndex)
    requires |events| == |choices| && Complete(events)
    ensures AllLeftBehind(events, choices, bit) == []
  {
    hide Final, AllLeftBehind;
    forall i | 0 <= i < |events|
      ensures !ShortAt(events, choices, i)
    {
      assert events[i].Delivery? ==> events[i].short == 0;
    }
    NoneShort(events, choices, bit);
  }

  /** The environment: retrievers by number, each with the bit it was given or the sections it fetched. */
  class Retrievers {
    const distributor: Distributor
    var leases: Leases
    var nextId: nat

    ghost predicate Valid()
      reads this, distributor
    {
      distributor.Valid() && distributor.st.leases == leases && distributor.st.nextId == nextId
    }

    constructor ()
      ensures Valid() && fresh(distributor) && distributor.st == NOTHING
    {
      distributor := new Distributor();
      leases, nextId := map[], 0;
    }

    method Give(bit: BitIndex)
      modifies this
      ensures leases == old(leases)[old(nextId) := Holding(bit)] && nextId == old(nextId) + 1
    {
      leases, nextId := leases[nextId := Holding(bit)], nextId + 1;
    }

    method Ask(bit: BitIndex, section: Section) returns (taken: bool)
      requires Valid() && section < MAX_SECTION
      modifies this, distributor
      ensures Valid() && distributor.st == AfterRequest(old(distributor.st), bit, section, taken)
    {
      hide Inv, Inserted;
      var first := Queue(distributor.requests, bit) == [];
      taken := distributor.OnRequest(bit, section);
      if first && taken {
        Give(bit);
      }
    }

    /** A retriever comes, when one is listened for. */
    method Arrive() returns (bit: BitIndex)
      requires Valid()
      modifies this, distributor
      ensures Valid()
      ensures distributor.st == if old(distributor.st.unallocs) == {} then old(distributor.st)
                                else AfterArrival(old(distributor.st), bit)
      ensures old(distributor.st.unallocs) != {} ==> IsLowest(old(distributor.st), bit)
    {
      hide Inv, IsLowest;
      bit := 0;
      if distributor.listening {
        bit := distributor.OnRetriever();
        Give(bit);
      }
    }

    /** A retriever that holds a bit fetches sections of it. */
    method FetchSome(id: nat, want: nat) returns (taken: bool)
      requires Valid() && id in leases && leases[id].Holding?
      modifies this, distributor
      ensures Valid() && distributor.st == AfterFetch(old(distributor.st), id, old(leases[id].bit), want, taken)
    {
      hide Inv;
      var bit := leases[id].bit;
      var queue := Queue(distributor.requests, bit);
      var task;
      task, taken := distributor.OnRetrieval(id, bit, want);
      leases := leases[id := InFlight(bit, task)];
      if |task| < |queue| && taken {
        Give(bit);
      }
    }

    /** A retriever that has fetched sections delivers. */
    method Deliver(id: nat, bitsets: seq<Bitset>) returns (taken: bool)
      requires Valid() && id in leases && leases[id].InFlight? && |bitsets| <= |leases[id].sections|
      modifies this, distributor
      ensures Valid()
      ensures distributor.st
           == AfterDelivery(old(distributor.st), id, old(leases[id].bit), old(leases[id].sections), bitsets, taken)
    {
      hide Inv, Filled, Missing, RequeueAll;
      var bit, sections := leases[id].bit, leases[id].sections;
      var first := Queue(distributor.requests, bit) == [];
      taken := distributor.OnDelivery(id, bit, sections, bitsets);
      leases := leases - {id};
      if first && taken && Missing(sections[..|bitsets|], bitsets) != [] {
        Give(bit);
      }
    }

    /** One event, or nothing where it cannot happen. */
    method Happen(e: Event) returns (ghost c: Choice)
      requires Valid()
      modifies this, distributor
      ensures Valid() && Legal(old(distributor.st), e, c) && distributor.st == Step(old(distributor.st), e, c)
    {
      hide Inv, IsLowest, AfterRequest, AfterArrival, AfterFetch, AfterDelivery;
      c := Choice(false, 0);
      match e
      case Request(bit, section) =>
        if section < MAX_SECTION {
          var taken := Ask(bit, section);
          c := Choice(taken, 0);
        }
      case Arrival =>
        var bit := Arrive();
        c := Choice(false, bit);
      case Fetch(id, want) =>
        if id in leases && leases[id].Holding? {
          var taken := FetchSome(id, want);
          c := Choice(taken, 0);
        }
      case Delivery(id, data, short) =>
        if id in leases && leases[id].InFlight? {
          var taken := Deliver(id, Data(data, Answered(|leases[id].sections|, short)));
          c := Choice(taken, 0);
        }
    }
  }

  /**
   Any schedule of events takes the distributor to the state that the cases one after another give, for some
   choice of waiting retrievers. Every section asked for is then queued, with a retriever or delivered, or it
   was left behind by a short delivery; and if every delivery answers for all it was given, none is lost.
   */
  method Run(events: seq<Event>) returns (r: Retrievers, ghost choices: seq<Choice>)
    ensures r.Valid() && LegalRun(events, choices) && r.distributor.st == Final(events, choices)
    ensures forall bit, x :: x in Asks(events, bit) ==>
      Kept(r.distributor.st, bit, x) || x in AllLeftBehind(events, choices, bit)
    ensures Complete(events) ==> forall bit, x :: x in Asks(events, bit) ==> Kept(r.distributor.st, bit, x)
  {
    r := new Retrievers();
    choices := [];
    var i := 0;
    while i < |events|
      invariant 0 <= i <= |events| && fresh(r) && fresh(r.distributor) && r.Valid()
      invariant LegalRun(events[..i], choices) && r.distributor.st == Final(events[..i], choices)
    {
      hide Inv, Step, Legal, LegalRun;
      ghost var c := r.Happen(events[i]);
      LegalMore(events, i, choices, c);
      choices := choices + [c];
      i := i + 1;
    }
    assert events[..i] == events;
    AllKept(events, choices);
  }

  lemma LegalMore(events: seq<Event>, i: nat, choices: seq<Choice>, c: Choice)
    requires i < |events| && LegalRun(events[..i], choices) && Legal(Final(events[..i], choices), events[i], c)
    ensures LegalRun(events[..i + 1], choices + [c])
    ensures Final(events[..i + 1], choices + [c]) == Step(Final(events[..i], choices), events[i], c)
  {
    var ev, ch := events[..i + 1], choices + [c];
    assert ev[..i] == events[..i] && ch[..i] == choices;
    hide Legal, Step;
    forall k | 0 <= k < |ev|
      ensures LegalAt(ev, ch, k)
    {
      if k < i {
        assert LegalAt(events[..i], choices, k);
        assert ev[..k] == events[..i][..k] && ch[..k] == choices[..k];
      }
    }
  }

  lemma AllKept(events: seq<Event>, choices: seq<Choice>)
    requires |events| == |choices| && Inv(Final(events, choices))
    ensures forall bit, x :: x in Asks(events, bit) ==>
      Kept(Final(events, choices), bit, x) || x in AllLeftBehind(events, choices, bit)
    ensures Complete(events) ==> forall bit, x :: x in Asks(events, bit) ==> Kept(Final(events, choices), bit, x)
  {
    hide Kept, Final, Asks, AllLeftBehind, Inv;
    forall bit, x | x in Asks(events, bit)
      ensures Kept(Final(events, choices), bit, x) || x in AllLeftBehind(events, choices, bit)
      ensures Complete(events) ==> Kept(Final(events, choices), bit, x)
    {
      FinalRequested(events, choices, bit);
      FinalLost(events, choices, bit);
      NeverLost(Final(events, choices), bit, x);
      if Complete(events) {
        CompleteLosesNothing(events, choices, bit);
      }
    }
  }

  lemma FirstRequest(bit: BitIndex, section: Section, taken: bool)
    ensures var asked := NOTHING.(requests := map[bit := [section]], requested := map[bit := [section]]);
            AfterRequest(NOTHING, bit, section, taken)
            == if taken then asked.(leases := map[0 := Holding(bit)], nextId := 1) else asked.(unallocs := {bit})
  {
    assert [section] + [] == [section] && [] + [section] == [section];
  }

  function OneAsked(bit: BitIndex, section: Section): St {
    NOTHING.(requests := map[bit := [section]], requested := map[bit := [section]],
             leases := map[0 := Holding(bit)], nextId := 1)
  }

  lemma FirstArrival(bit: BitIndex, section: Section, given: BitIndex)
    requires IsLowest(AfterRequest(NOTHING, bit, section, false), given)
    ensures AfterArrival(AfterRequest(NOTHING, bit, section, false), given) == OneAsked(bit, section)
  {
    FirstRequest(bit, section, false);
    hide AfterRequest;
    assert given == bit && {bit} - {bit} == {};
  }

  lemma FirstFetch(bit: BitIndex, section: Section, taken: bool)
    ensures Task(OneAsked(bit, section), bit, 1) == [section]
    ensures AfterFetch(OneAsked(bit, section), 0, bit, 1, taken)
         == OneAsked(bit, section).(requests := map[], leases := map[0 := InFlight(bit, [section])])
  {
    assert [section][..1] == [section];
    assert map[bit := [section]] - {bit} == map[];
    assert map[0 := Holding(bit)][0 := InFlight(bit, [section])] == map[0 := InFlight(bit, [section])];
  }

  lemma FirstDelivery(st: St, bit: BitIndex, section: Section, taken: bool)
    requires st == OneAsked(bit, section).(requests := map[], leases := map[0 := InFlight(bit, [section])])
    ensures AfterDelivery(st, 0, bit, [section], [], taken)
         == st.(leases := map[], delivered := map[bit := []], lost := map[bit := [section]])
  {
    assert [section][..0] == [] && [section][0..] == [section] && [] + [section] == [section];
    assert Queue(st.requests, bit) == [] && Queue(st.lost, bit) == [] && Queue(st.delivered, bit) == [];
    assert st.leases - {0} == map[];
    assert Missing([], []) == [] && Filled([], []) == [] && RequeueAll([], []) == [];
    var none: seq<Section> := [];
    assert none + none == none && none + [section] == [section];
  }

  /** One section is asked for, fetched, and left out of the delivery: it is nowhere any more. */
  method ShortDeliveryLoses(bit: BitIndex, section: Section) returns (d: Distributor)
    requires section < MAX_SECTION
    ensures d.Valid() && d.st.requested == map[bit := [section]]
    ensures d.st.lost == map[bit := [section]] && !Kept(d.st, bit, section)
  {
    hide Inv, AfterRequest, AfterArrival, AfterFetch, AfterDelivery, IsLowest;
    d := new Distributor();
    var taken := d.OnRequest(bit, section);
    FirstRequest(bit, section, taken);
    if !taken {
      var given := d.OnRetriever();
      FirstArrival(bit, section, given);
    }
    assert d.st == OneAsked(bit, section);
    var task, more := d.OnRetrieval(0, bit, 1);
    FirstFetch(bit, section, more);
    ghost var fetched := d.st;
    taken := d.OnDelivery(0, bit, task, []);
    FirstDelivery(fetched, bit, section, taken);
  }

  /** The sections that came with data. */
  function Filled(sections: seq<Section>, bitsets: seq<Bitset>): seq<Section>
    requires |sections| == |bitsets|
  {
    if sections == [] then []
    else
      var n := |sections| - 1;
      Filled(sections[..n], bitsets[..n]) + if bitsets[n] == [] then [] else [sections[n]]
  }

  /** The sections that came without. */
  function Missing(sections: seq<Section>, bitsets: seq<Bitset>): seq<Section>
    requires |sections| == |bitsets|
  {
    if sections == [] then []
    else
      var n := |sections| - 1;
      Missing(sections[..n], bitsets[..n]) + if bitsets[n] == [] then [sections[n]] else []
  }

  /** A queue with sections put back one after another. */
  function RequeueAll(queue: seq<Section>, missing: seq<Section>): seq<Section> {
    if missing == [] then queue
    else Inserted(RequeueAll(queue, missing[..|missing| - 1]), missing[|missing| - 1])
  }

  lemma FilledNone(sections: seq<Section>, bitsets: seq<Bitset>)
    requires |sections| == |bitsets|
    ensures Filled(sections[..0], bitsets[..0]) == [] && Missing(sections[..0], bitsets[..0]) == []
  {
  }

  lemma FilledStep(sections: seq<Section>, bitsets: seq<Bitset>, i: nat)
    requires |sections| == |bitsets| && i < |sections|
    ensures Filled(sections[..i + 1], bitsets[..i + 1])
         == Filled(sections[..i], bitsets[..i]) + if bitsets[i] == [] then [] else [sections[i]]
    ensures Missing(sections[..i + 1], bitsets[..i + 1])
         == Missing(sections[..i], bitsets[..i]) + if bitsets[i] == [] then [sections[i]] else []
  {
    assert sections[..i + 1][..i] == sections[..i] && bitsets[..i + 1][..i] == bitsets[..i];
  }

  method Split(sections: seq<Section>, bitsets: seq<Bitset>) returns (got: seq<Section>, missing: seq<Section>)
    requires |sections| == |bitsets|
    ensures got == Filled(sections, bitsets) && missing == Missing(sections, bitsets)
    ensures forall x :: Count(sections, x) == Count(got, x) + Count(missing, x)
  {
    got, missing := [], [];
    assert forall x :: Count([], x) == 0;
    hide Count, Filled, Missing;
    FilledNone(sections, bitsets);
    var i := 0;
    while i < |bitsets|
      invariant 0 <= i <= |bitsets|
      invariant got == Filled(sections[..i], bitsets[..i]) && missing == Missing(sections[..i], bitsets[..i])
      invariant forall x :: Count(sections[..i], x) == Count(got, x) + Count(missing, x)
    {
      assert sections[..i + 1] == sections[..i] + [sections[i]];
      CountAppend(sections[..i], sections[i]);
      CountAppend(got, sections[i]);
      CountAppend(missing, sections[i]);
      FilledStep(sections, bitsets, i);
      if |bitsets[i]| == 0 {
        missing := missing + [sections[i]];
      } else {
        got := got + [sections[i]];
      }
      i := i + 1;
    }
    assert sections[..i] == sections && bitsets[..i] == bitsets;
  }

  method Requeue(queue: seq<Section>, missing: seq<Section>) returns (r: seq<Section>)
    requires Sorted(queue)
    ensures Sorted(r) && |r| == |queue| + |missing|
    ensures forall x :: Count(r, x) == Count(queue, x) + Count(missing, x)
    ensures r == RequeueAll(queue, missing) && (missing == [] ==> r == queue)
  {
    r := queue;
    assert forall x :: Count([], x) == 0;
    assert RequeueAll(queue, missing[..0]) == queue;
    hide Count, Inserted;
    var i := 0;
    while i < |missing|
      invariant 0 <= i <= |missing| && Sorted(r) && |r| == |queue| + i && (i == 0 ==> r == queue)
      invariant forall x :: Count(r, x) == Count(queue, x) + Count(missing[..i], x)
      invariant r == RequeueAll(queue, missing[..i])
    {
      assert missing[..i + 1] == missing[..i] + [missing[i]];
      CountAppend(missing[..i], missing[i]);
      r := Enqueue(r, missing[i]);
      i := i + 1;
    }
    assert missing[..i] == missing;
  }

  lemma OneLess(l: Leases, id: nat)
    requires id in l
    ensures |l - {id}| == |l| - 1
  {
    assert (l - {id}).Keys == l.Keys - {id};
    assert |l| == |l.Keys| && |l - {id}| == |(l - {id}).Keys|;
  }

  lemma NewLease(st: St, bit: BitIndex)
    requires Almost(st, {bit})
    ensures st.nextId !in st.leases && |Leased(st, bit).leases| == |st.leases| + 1
  {
    var l, l' := st.leases, Leased(st, bit).leases;
    assert l'.Keys == l.Keys + {st.nextId};
    assert |l| == |l.Keys| && |l'| == |l'.Keys|;
  }

  lemma SortedQueue(st: St, bit: BitIndex)
    requires Inv(st)
    ensures Sorted(Queue(st.requests, bit))
  {
    assert QueueOk(st, bit);
  }

  lemma WaitingBit(st: St, bit: BitIndex)
    requires Inv(st) && bit in st.unallocs
    ensures bit in st.requests && st.requests[bit] != [] && st.requests[bit][0] < MAX_SECTION
  {
    assert BitOk(st.requests, st.unallocs, st.leases, bit) && QueueOk(st, bit);
    assert st.requests[bit][0] in st.requests[bit];
  }

  lemma SameCount(l: Leases, id: nat, lease: Lease)
    requires id in l
    ensures |l[id := lease]| == |l|
  {
    assert l[id := lease].Keys == l.Keys;
    assert |l| == |l.Keys| && |l[id := lease]| == |l[id := lease].Keys|;
  }
}
