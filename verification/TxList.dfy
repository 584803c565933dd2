/**
 An account's transaction list on top of the sorted map (blockmgr/txpool/txlist.go), and what any
 sequence of operations leaves in the map.
 */
module TxList {
  import opened Basics
  import opened NonceHeap
  import opened SortedMap

  /** No nonce between two nonces of m is missing. */
  ghost predicate Gapless(m: Items) {
    forall a, b, n :: a in m && b in m && a < n < b ==> n in m
  }

  class TxList {
    const strict: bool
    const txs: TxSortedMap

    constructor (strict: bool)
      ensures this.strict == strict && fresh(txs) && fresh(txs.index) && txs.Valid() && txs.items == map[]
    {
      this.strict := strict;
      txs := new TxSortedMap();
    }

    /** A transaction already listed is never overwritten. */
    method Add(tx: Tx) returns (added: bool)
      requires txs.Valid()
      modifies txs, txs.index
      ensures txs.Valid() && added == (tx.nonce !in old(txs.items))
      ensures forall n :: n in txs.items <==> n in old(txs.items) || n == tx.nonce
      ensures forall n :: n in old(txs.items) ==> txs.items[n] == old(txs.items)[n]
      ensures added ==> txs.items[tx.nonce] == tx
    {
      var present := txs.Get(tx.nonce);
      if present.Some? {
        return false;
      }
      txs.Put(tx);
      return true;
    }

    /** A listed transaction gives way to a dearer one with its nonce; the caller knows that there is one. */
    method ReplaceOldTx(tx: Tx) returns (replaced: bool, previous: Option<Tx>)
      requires txs.Valid() && tx.nonce in txs.items
      modifies txs, txs.index
      ensures txs.Valid() && replaced == (old(txs.items)[tx.nonce].gasPrice < tx.gasPrice)
      ensures previous == (if replaced then Some(old(txs.items)[tx.nonce]) else None)
      ensures txs.items == (if replaced then old(txs.items)[tx.nonce := tx] else old(txs.items))
    {
      var present := txs.Get(tx.nonce);
      if present.value.gasPrice >= tx.gasPrice {
        return false, None;
      }
      var found := txs.Remove(tx.nonce);
      if !found {
        assert false;
      }
      txs.Put(tx);
      return true, present;
    }

    /** Removes a transaction; a strict list loses everything above it too, and so stays without gaps. */
    method Remove(tx: Tx) returns (found: bool, invalids: seq<Tx>)
      requires txs.Valid()
      modifies txs, txs.index
      ensures txs.Valid() && found == (tx.nonce in old(txs.items))
      ensures !found ==> txs.items == old(txs.items) && invalids == []
      ensures found && !strict ==> txs.items == old(txs.items) - {tx.nonce} && invalids == []
      ensures found && strict ==> txs.items == map n | n in old(txs.items) && n < tx.nonce :: old(txs.items)[n]
      ensures found && strict ==> Picked(old(txs.items), (t: Tx) => t.nonce > tx.nonce, {}, invalids)
      ensures strict && Gapless(old(txs.items)) ==> Gapless(txs.items)
    {
      found := txs.Remove(tx.nonce);
      invalids := [];
      if found && strict {
        invalids := txs.Filter((t: Tx) => t.nonce > tx.nonce);
        AboveFiltered(old(txs.items), tx.nonce, invalids);
      }
    }
  }

  lemma AboveFiltered(m: Items, n: Nonce, invalids: seq<Tx>)
    requires Keyed(m) && Picked(m - {n}, (t: Tx) => t.nonce > n, {}, invalids)
    ensures Picked(m, (t: Tx) => t.nonce > n, {}, invalids)
    ensures Kept(m - {n}, (t: Tx) => t.nonce > n) == map x | x in m && x < n :: m[x]
  {
  }

  datatype Op =
    | Put(tx: Tx)
    | Forward(threshold: Nonce)
    | Filter(filter: Tx -> bool)
    | Cap(limit: nat)
    | Remove(nonce: Nonce)
    | Ready(start: Nonce)
    | Flatten

  /** What an operation makes of a plain map. */
  ghost function Step(m: Items, op: Op): (r: Items) {
    match op
    case Put(tx) => m[tx.nonce := tx]
    case Forward(threshold) => map n | n in m && n >= threshold :: m[n]
    case Filter(filter) => Kept(m, filter)
    case Cap(limit) => if |m| <= limit then m else Within(m, Sorted(m)[..limit])
    case Remove(nonce) => m - {nonce}
    case Ready(start) => Within(m, Sorted(m)[Due(Sorted(m), start)..])
    case Flatten => m
  }

  ghost function Contents(ops: seq<Op>): (m: Items) {
    if ops == [] then map[] else Step(Contents(ops[..|ops| - 1]), ops[|ops| - 1])
  }

  lemma CapIs(m: Items, m': Items, limit: nat, drops: seq<Tx>)
    requires Keyed(m) && Sorted(m) == Sorted(m') + Reversed(drops) && m' == Within(m, Sorted(m'))
    requires |m'| == if |m| <= limit then |m| else limit
    ensures m' == Step(m, Cap(limit))
  {
    hide Sorted, Within;
    if |m| <= limit {
      assert Sorted(m) == Sorted(m');
      PartSelf(m);
      PartOf(m, m);
    } else {
      assert Sorted(m') == Sorted(m)[..limit];
    }
  }

  lemma ReadyIs(m: Items, m': Items, start: Nonce, ready: seq<Tx>)
    requires Sorted(m) == ready + Sorted(m') && m' == Within(m, Sorted(m')) && |ready| == Due(Sorted(m), start)
    ensures m' == Step(m, Ready(start))
  {
    hide Sorted, Within, Due;
    assert Sorted(m') == Sorted(m)[|ready|..];
  }

  /** Performs one operation on the three-part structure, with the effect it has on a plain map. */
  method Perform(queue: TxSortedMap, op: Op)
    requires queue.Valid()
    modifies queue, queue.index
    ensures queue.Valid() && queue.items == Step(old(queue.items), op)
  {
    hide Sorted, Within, Due, Heap, Indexed, Kept;
    match op
    case Put(tx) =>
      queue.Put(tx);
    case Forward(threshold) =>
      var _ := queue.Forward(threshold);
    case Filter(filter) =>
      var _ := queue.Filter(filter);
    case Cap(limit) =>
      var drops := queue.Cap(limit);
      CapIs(old(queue.items), queue.items, limit, drops);
    case Remove(nonce) =>
      var _ := queue.Remove(nonce);
    case Ready(start) =>
      var ready := queue.Ready(start);
      ReadyIs(old(queue.items), queue.items, start, ready);
    case Flatten =>
      var _ := queue.Flatten();
  }

  /**
   After any sequence of operations on a new map, heap, map and cache agree, the contents are those of a
   plain map, and flattening gives that map sorted from scratch.
   */
  method Run(ops: seq<Op>) returns (result: TxSortedMap, txs: seq<Tx>)
    ensures fresh(result) && result.Valid() && result.items == Contents(ops)
    ensures txs == Sorted(Contents(ops))
  {
    result := new TxSortedMap();
    for i := 0 to |ops|
      invariant fresh(result) && fresh(result.index) && result.Valid() && result.items == Contents(ops[..i])
    {
      hide Step, Sorted, Indexed;
      Perform(result, ops[i]);
      assert ops[..i + 1][..i] == ops[..i];
    }
    assert ops[..|ops|] == ops;
    txs := result.Flatten();
  }
}
