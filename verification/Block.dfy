/**
 Executing a block of transactions (blockmgr/templatevalidator.go, chain/transactionvalidator.go,
 chain/gas_pool.go and the processors). The objects are proved to follow the value-level functions,
 and over whole blocks coins and gas are conserved.
 */
module Block {
  import opened Basics
  import opened Ledger
  import opened Credits
  import opened Maturity
  import opened Transactions
  import opened Store
  import opened Overlay
  import T = Transactions

  // ---- whole blocks, on values ----

  datatype BlockResult = BlockResult(
    st: State, pool: nat, kept: seq<Tx>, gasUsed: int, gasFee: int, stopped: bool)

  /** One turn of the loop: keep the transaction, skip it, or stop when it ran out of gas. */
  ghost function Turn(b: BlockResult, tx: Tx, height: nat, interval: nat): BlockResult {
    if b.stopped then b
    else
      var r := Route(b.st, b.pool, tx, height, interval);
      if r.err == NoError then
        BlockResult(r.st, r.pool, b.kept + [tx], b.gasUsed + r.gasUsed, b.gasFee + r.gasUsed * tx.gasPrice, false)
      else if r.err == OutOfGas then b.(stopped := true)
      else b
  }

  ghost function BlockRun(b: BlockResult, txs: seq<Tx>, height: nat, interval: nat): BlockResult {
    if txs == [] then b
    else Turn(BlockRun(b, txs[..|txs| - 1], height, interval), txs[|txs| - 1], height, interval)
  }

  function Start(st: State, pool: nat): BlockResult {
    BlockResult(st, pool, [], 0, 0, false)
  }

  ghost predicate Balanced(b: BlockResult, coins: int, gas: int) {
    Filled(b.st) && Coins(b.st) + b.gasFee == coins && b.pool + b.gasUsed == gas
  }

  lemma TurnBalanced(b: BlockResult, tx: Tx, height: nat, interval: nat, coins: int, gas: int)
    requires Settles(height, interval) && Balanced(b, coins, gas)
    ensures Balanced(Turn(b, tx, height, interval), coins, gas)
  {
    hide Coins, Process;
    if !b.stopped && Route(b.st, b.pool, tx, height, interval).err == NoError {
      RouteCoins(b.st, b.pool, tx, height, interval);
    }
  }

  /**
   Over any block, cut off anywhere: coins held plus fees collected are what was held before, and
   gas used plus gas left is the block's gas.
   */
  lemma {:induction false} BlockConserves(st: State, pool: nat, txs: seq<Tx>, height: nat, interval: nat)
    requires Settles(height, interval) && Filled(st)
    ensures Balanced(BlockRun(Start(st, pool), txs, height, interval), Coins(st), pool)
  {
    hide Coins;
    if txs != [] {
      BlockConserves(st, pool, txs[..|txs| - 1], height, interval);
      var b := BlockRun(Start(st, pool), txs[..|txs| - 1], height, interval);
      TurnBalanced(b, txs[|txs| - 1], height, interval, Coins(st), pool);
    }
  }

  /** Gas left plus gas used is the block's gas, whatever the ledger. */
  lemma {:induction false} BlockGas(st: State, pool: nat, txs: seq<Tx>, height: nat, interval: nat)
    ensures var b := BlockRun(Start(st, pool), txs, height, interval); b.pool + b.gasUsed == pool
  {
    hide Process;
    if txs != [] {
      BlockGas(st, pool, txs[..|txs| - 1], height, interval);
      var b, tx := BlockRun(Start(st, pool), txs[..|txs| - 1], height, interval), txs[|txs| - 1];
      if !b.stopped && Route(b.st, b.pool, tx, height, interval).err == NoError {
        var from, e := RouteShape(b.st, b.pool, tx, height, interval);
      }
    }
  }

  /** The kept transactions alone give the same block: those skipped left no trace, and none of the kept is skipped. */
  lemma {:induction false} BlockReplay(st: State, pool: nat, txs: seq<Tx>, height: nat, interval: nat)
    ensures var b := BlockRun(Start(st, pool), txs, height, interval);
            BlockRun(Start(st, pool), b.kept, height, interval) == b.(stopped := false)
  {
    if txs != [] {
      var front := txs[..|txs| - 1];
      BlockReplay(st, pool, front, height, interval);
      var b0, b := BlockRun(Start(st, pool), front, height, interval), BlockRun(Start(st, pool), txs, height, interval);
      if b.kept != b0.kept {
        assert b.kept[..|b.kept| - 1] == b0.kept;
      }
    }
  }

  // ---- the objects ----

  const MAX_UINT64: nat := 0xFFFF_FFFF_FFFF_FFFF

  class GasPool {
    var gas: nat

    constructor (gas: nat)
      ensures this.gas == gas
    {
      this.gas := gas;
    }

    /** The source panics when the pool would exceed 64 bits. */
    method AddGas(amount: nat)
      requires gas + amount <= MAX_UINT64
      modifies this
      ensures gas == old(gas) + amount
    {
      gas := gas + amount;
    }

    method SubGas(amount: nat) returns (err: Error)
      modifies this
      ensures err == if old(gas) < amount then ReachGasLimit else NoError
      ensures gas == if err == NoError then old(gas) - amount else old(gas)
    {
      if gas < amount {
        return ReachGasLimit;
      }
      gas := gas - amount;
      return NoError;
    }
  }

  /** ExecuteTransactionContext: one transaction on its way through. */
  class TxContext {
    const store: Store
    const gp: GasPool
    const tx: Tx
    const from: Addr
    const height: nat
    var gasRemained: nat
    var initialGas: nat

    constructor (store: Store, gp: GasPool, tx: Tx, from: Addr, height: nat)
      ensures this.store == store && this.gp == gp && this.tx == tx && this.from == from && this.height == height
      ensures gasRemained == 0 && initialGas == 0
    {
      this.store, this.gp, this.tx, this.from, this.height := store, gp, tx, from, height;
      gasRemained, initialGas := 0, 0;
    }

    method UseGas(amount: nat) returns (err: Error)
      modifies this
      ensures err == if old(gasRemained) < amount then OutOfGas else NoError
      ensures gasRemained == old(gasRemained) - (if err == NoError then amount else 0)
      ensures initialGas == old(initialGas)
    {
      if gasRemained < amount {
        return OutOfGas;
      }
      gasRemained := gasRemained - amount;
      return NoError;
    }

    method BuyGas() returns (err: Error)
      requires gasRemained == 0
      requires store.Valid()
      modifies this, store.db.dirties, gp
      ensures store.Valid()
      ensures var st := old(store.View());
              err == if GetBalance(st, from, height, store.interval) < tx.gas * tx.gasPrice then NotEnoughForGas
                     else if old(gp.gas) < tx.gas then ReachGasLimit else NoError
      ensures err != NoError ==> store.View() == old(store.View()) && gp.gas == old(gp.gas)
      ensures err == NoError ==>
        && store.View() == AddBalance(old(store.View()), from, height, store.interval, -(tx.gas * tx.gasPrice))
        && gp.gas == old(gp.gas) - tx.gas && gasRemained == initialGas == tx.gas
    {
      hide Store.View, Store.Valid;
      var mgval := tx.gas * tx.gasPrice;
      var balance := store.GetBalance(from, height);
      if balance < mgval {
        return NotEnoughForGas;
      }
      err := gp.SubGas(tx.gas);
      if err != NoError {
        return err;
      }
      gasRemained := gasRemained + tx.gas;
      initialGas := tx.gas;
      store.SubBalance(from, height, mgval);
    }

    method PreCheck() returns (err: Error)
      requires gasRemained == 0
      requires store.Valid()
      modifies this, store.db.dirties, gp
      ensures store.Valid()
      ensures err == T.PreCheck(old(store.View()), old(gp.gas), tx, from, height, store.interval)
      ensures err != NoError ==> store.View() == old(store.View()) && gp.gas == old(gp.gas)
      ensures err == NoError ==>
        && store.View() == AddBalance(old(store.View()), from, height, store.interval, -(tx.gas * tx.gasPrice))
        && gp.gas == old(gp.gas) - tx.gas && gasRemained == initialGas == tx.gas
    {
      hide Store.View, Store.Valid;
      var nonce := store.GetNonce(from);
      if nonce < tx.nonce {
        return NonceTooHigh;
      } else if nonce > tx.nonce {
        return NonceTooLow;
      }
      err := BuyGas();
    }

    method RefundCoin()
      requires gp.gas + gasRemained <= MAX_UINT64
      requires store.Valid()
      modifies store.db.dirties, gp
      ensures store.Valid()
      ensures store.View() == AddBalance(old(store.View()), from, height, store.interval, gasRemained * tx.gasPrice)
      ensures gp.gas == old(gp.gas) + gasRemained
    {
      hide Store.View, Store.Valid;
      var remaining := gasRemained * tx.gasPrice;
      store.AddBalance(from, height, remaining);
      gp.AddGas(gasRemained);
    }

    method Transfer() returns (err: Error)
      requires tx.kind == T.Transfer
      requires store.Valid()
      modifies store.db.dirties
      ensures store.Valid()
      ensures Executed(store.View(), gasRemained, err)
           == Process(old(store.View()), gasRemained, tx, from, height, store.interval)
    {
      hide Store.View, Store.Valid, GetBalance, PutBalance;
      var originBalance := store.GetBalance(from, height);
      var leftBalance := originBalance - tx.amount;
      if leftBalance < 0 {
        return NotEnoughBalance;
      }
      store.PutBalance(from, height, leftBalance);
      var toBalance := store.GetBalance(tx.to, height);
      store.PutBalance(tx.to, height, toBalance + tx.amount);
      store.PutNonce(from, NextNonce(tx.nonce));
      return NoError;
    }

    method Stake() returns (err: Error)
      requires tx.kind == VoteTx
      requires store.Valid()
      modifies store.db.dirties
      ensures store.Valid()
      ensures Executed(store.View(), gasRemained, err)
           == Process(old(store.View()), gasRemained, tx, from, height, store.interval)
    {
      hide Store.View, Store.Valid;
      var originBalance := store.GetBalance(from, height);
      var leftBalance := originBalance - tx.amount;
      if leftBalance < 0 {
        return NotEnoughBalance;
      }
      store.PutBalance(from, height, leftBalance);
      err := store.VoteCredit(from, tx.to, tx.amount, height);
      if err != NoError {
        return err;
      }
      store.PutNonce(from, NextNonce(tx.nonce));
    }

    method CancelStake() returns (err: Error)
      requires tx.kind == CancelVoteTx
      requires store.Valid()
      modifies store.db.dirties
      ensures store.Valid()
      ensures Executed(store.View(), gasRemained, err)
           == Process(old(store.View()), gasRemained, tx, from, height, store.interval)
    {
      hide Store.View, Store.Valid;
      var principal;
      err, principal := store.CancelVoteCredit(from, tx.to, tx.amount, height);
      if err != NoError {
        return err;
      }
      store.PutNonce(from, NextNonce(tx.nonce));
    }

    method Register() returns (err: Error)
      requires tx.kind == CandidateTx
      requires store.Valid()
      modifies store.db.dirties
      ensures store.Valid()
      ensures Executed(store.View(), gasRemained, err)
           == Process(old(store.View()), gasRemained, tx, from, height, store.interval)
    {
      hide Store.View, Store.Valid;
      var originBalance := store.GetBalance(from, height);
      if originBalance < tx.amount {
        return NotEnoughBalance;
      }
      var leftBalance := originBalance - tx.amount;
      store.PutBalance(from, height, leftBalance);
      if tx.candidateData.None? {
        return BadCandidateData;
      }
      err := store.CandidateCredit(from, tx.amount, tx.candidateData, height);
      if err != NoError {
        return err;
      }
      store.PutNonce(from, NextNonce(tx.nonce));
    }

    method Unregister() returns (err: Error)
      requires tx.kind == CancelCandidateTx
      requires store.Valid()
      modifies store.db.dirties
      ensures store.Valid()
      ensures Executed(store.View(), gasRemained, err)
           == Process(old(store.View()), gasRemained, tx, from, height, store.interval)
    {
      hide Store.View, Store.Valid;
      var principal;
      err, principal := store.CancelCandidateCredit(from, tx.amount, height);
      if err != NoError {
        return err;
      }
      store.PutNonce(from, NextNonce(tx.nonce));
    }

    static method CheckAlias(alias: Alias) returns (err: Error)
      ensures err == if GoodAlias(alias) then NoError else BadAlias
    {
      if |alias| < 5 {
        return BadAlias;
      }
      if |alias| > 20 {
        return BadAlias;
      }
      var i := 0;
      while i < |alias|
        invariant 0 <= i <= |alias|
        invariant forall j :: 0 <= j < i ==> AliasChar(alias[j])
      {
        if !AliasChar(alias[i]) {
          return BadAlias;
        }
        i := i + 1;
      }
      return NoError;
    }

    method NameAlias() returns (err: Error)
      requires tx.kind == T.SetAlias
      requires store.Valid()
      modifies this, store.db.dirties
      ensures store.Valid()
      ensures Executed(store.View(), gasRemained, err)
           == Process(old(store.View()), old(gasRemained), tx, from, height, store.interval)
      ensures initialGas == old(initialGas)
    {
      hide Store.View, Store.Valid, GetBalance, PutBalance;
      err := CheckAlias(tx.alias);
      if err != NoError {
        return err;
      }
      err := store.AliasSet(from, tx.alias);
      if err != NoError {
        return err;
      }
      err := UseGas(ALIAS_GAS * |tx.alias|);
      if err != NoError {
        return err;
      }
      var drepFee := AliasFee(|tx.alias|);
      var originBalance := store.GetBalance(from, height);
      var leftBalance := originBalance - drepFee;
      if leftBalance < 0 {
        return NotEnoughBalance;
      }
      store.PutBalance(from, height, leftBalance);
      var zeroAddressBalance := store.GetBalance(HOLE_ADDRESS, height);
      store.PutBalance(HOLE_ADDRESS, height, zeroAddressBalance + drepFee);
      store.PutNonce(from, NextNonce(tx.nonce));
      return NoError;
    }

    /** The processor the transaction's kind selects. */
    method ExecuteTransaction() returns (err: Error)
      requires store.Valid()
      modifies this, store.db.dirties
      ensures store.Valid()
      ensures Executed(store.View(), gasRemained, err)
           == Process(old(store.View()), old(gasRemained), tx, from, height, store.interval)
      ensures initialGas == old(initialGas)
    {
      hide Store.View, Store.Valid;
      match tx.kind
      case Transfer => err := Transfer();
      case VoteTx => err := Stake();
      case CancelVoteTx => err := CancelStake();
      case CandidateTx => err := Register();
      case CancelCandidateTx => err := Unregister();
      case SetAlias => err := NameAlias();
      case OtherKind => err := UnsupportedType;
    }
  }

  method RouteTransaction(store: Store, gp: GasPool, tx: Tx, height: nat) returns (err: Error, gasUsed: nat)
    requires gp.gas <= MAX_UINT64
    requires store.Valid()
    modifies store.db.dirties, gp
    ensures store.Valid()
    ensures Routed(store.View(), gp.gas, err, gasUsed)
         == Route(old(store.View()), old(gp.gas), tx, height, store.interval)
    ensures err == NoError ==> gp.gas <= old(gp.gas)
  {
    hide Store.View, Store.Valid, Process;
    if tx.sender.None? {
      return UnknownSender, 0;
    }
    var context := new TxContext(store, gp, tx, tx.sender.value, height);
    err := context.PreCheck();
    if err != NoError {
      return err, 0;
    }
    if tx.intrinsicGas.None? {
      return IntrinsicGasFailed, 0;
    }
    err := context.UseGas(tx.intrinsicGas.value);
    if err != NoError {
      return err, 0;
    }
    ghost var bought, remained := store.View(), context.gasRemained;
    RemainedBound(bought, remained, tx, context.from, height, store.interval);
    err := context.ExecuteTransaction();
    if err != NoError {
      return err, 0;
    }
    context.RefundCoin();
    return NoError, context.initialGas - context.gasRemained;
  }

  /** BlockExecuteContext: the store, the gas pool and what the block has gathered so far. */
  class BlockContext {
    const store: Store
    var gp: GasPool
    var gasUsed: int
    var gasFee: int
    const height: nat

    constructor (store: Store, gp: GasPool, height: nat)
      ensures this.store == store && this.gp == gp && this.height == height && gasUsed == 0 && gasFee == 0
    {
      this.store, this.gp, this.height := store, gp, height;
      gasUsed, gasFee := 0, 0;
    }

    /**
     One transaction of the loop: it is kept, or the store and the gas pool are put back to the copies
     made before it.
     */
    method TakeTurn(t: Tx, snap: SyncMap<Slot, Record>, backGp: nat) returns (err: Error)
      requires store.Valid() && gp.gas <= MAX_UINT64 && backGp == gp.gas && snap != store.db.dirties
      requires Readable(snap.entries, store.db.trie, store.refuses)
      requires Shown(snap.entries, store.db.trie) == store.View()
      modifies this, store.db, store.db.dirties, gp
      ensures store.Valid() && store.db.dirties in {old(store.db.dirties), snap}
      ensures (gp == old(gp) || fresh(gp)) && gp.gas <= old(gp.gas)
      ensures var r := Route(old(store.View()), old(gp.gas), t, height, store.interval);
              && err == r.err
              && (err == NoError ==>
                    && store.View() == r.st && gp.gas == r.pool
                    && gasUsed == old(gasUsed) + r.gasUsed && gasFee == old(gasFee) + r.gasUsed * t.gasPrice)
              && (err != NoError ==>
                    && store.View() == old(store.View()) && gp.gas == old(gp.gas)
                    && gasUsed == old(gasUsed) && gasFee == old(gasFee))
    {
      assert Sound(snap.entries, store.db.trie);
      hide Route, Readable, Sound, Shown;
      var used;
      err, used := RouteTransaction(store, gp, t, height);
      if err == NoError {
        gasUsed := gasUsed + used;
        gasFee := gasFee + used * t.gasPrice;
      } else {
        store.RevertState(snap);
        gp := new GasPool(backGp);
      }
    }

    /**
     The selecting loop: transactions in order, each undone when it fails, until the list ends,
     a transaction runs out of gas, or the time is up after `cut` transactions.
     */
    method SelectTxs(txs: seq<Tx>, cut: nat) returns (finalTxs: seq<Tx>)
      requires store.Valid() && gp.gas <= MAX_UINT64
      modifies this, store.db, store.db.dirties, gp
      ensures store.Valid()
      ensures var b := BlockRun(Start(old(store.View()), old(gp.gas)),
                                if cut < |txs| then txs[..cut] else txs, height, store.interval);
              && store.View() == b.st && gp.gas == b.pool && finalTxs == b.kept
              && gasUsed == old(gasUsed) + b.gasUsed && gasFee == old(gasFee) + b.gasFee
    {
      hide Route, Store.View, Store.Valid, Store.Loose, Sound, Readable, Shown, BlockRun, Turn;
      finalTxs := [];
      ghost var start := Start(store.View(), gp.gas);
      ghost var limit := gp.gas;
      ghost var todo := if cut < |txs| then txs[..cut] else txs;
      var i := 0;
      NoneRun(start, txs, height, store.interval);
      while i < |txs|
        invariant 0 <= i <= |todo| && store.Valid()
        invariant store.db.dirties == old(store.db.dirties) || fresh(store.db.dirties)
        invariant (gp == old(gp) || fresh(gp)) && gp.gas <= limit
        invariant Now(finalTxs, old(gasUsed), old(gasFee)) == BlockRun(start, txs[..i], height, store.interval)
      {
        store.ValidIsLoose();
        var snap := store.CopyState();
        var backGp := gp.gas;
        if i == cut {
          break;
        }
        ghost var now := Now(finalTxs, old(gasUsed), old(gasFee));
        RunOn(start, txs, i, height, store.interval);
        TurnIs(now, txs[i], height, store.interval);
        var err := TakeTurn(txs[i], snap, backGp);
        if err == NoError {
          finalTxs := finalTxs + [txs[i]];
        } else if err == OutOfGas {
          assert todo[..i + 1] == txs[..i + 1];
          StopsHere(start, todo, i + 1, height, store.interval);
          return;
        }
        i := i + 1;
      }
      assert txs[..i] == todo;
    }

    /**
     The template executor. However many transactions it comes to, coins held plus fees collected and gas
     left plus gas used stay what they were, and the transactions kept would give the same block alone.
     */
    method ExecuteBlock(txs: seq<Tx>, cut: nat) returns (finalTxs: seq<Tx>)
      requires store.Valid() && gp.gas <= MAX_UINT64
      modifies this, store.db, store.db.dirties, gp
      ensures store.Valid()
      ensures var b := BlockRun(Start(old(store.View()), old(gp.gas)),
                                if cut < |txs| then txs[..cut] else txs, height, store.interval);
              && store.View() == b.st && gp.gas == b.pool && finalTxs == b.kept
              && gasUsed == old(gasUsed) + b.gasUsed && gasFee == old(gasFee) + b.gasFee
      ensures gp.gas + gasUsed == old(gp.gas + gasUsed)
      ensures Settles(height, store.interval) && Filled(old(store.View())) ==>
        Filled(store.View()) && Coins(store.View()) + gasFee == old(Coins(store.View()) + gasFee)
      ensures var b := BlockRun(Start(old(store.View()), old(gp.gas)), finalTxs, height, store.interval);
              store.View() == b.st && gp.gas == b.pool && finalTxs == b.kept
    {
      hide Route, Store.View, Store.Valid, BlockRun, Turn, Coins, Filled;
      finalTxs := SelectTxs(txs, cut);
      ghost var done := if cut < |txs| then txs[..cut] else txs;
      BlockGas(old(store.View()), old(gp.gas), done, height, store.interval);
      BlockReplay(old(store.View()), old(gp.gas), done, height, store.interval);
      if Settles(height, store.interval) && Filled(old(store.View())) {
        BlockConserves(old(store.View()), old(gp.gas), done, height, store.interval);
      }
    }

    /** What the block has come to, counted from given totals. */
    ghost function Now(kept: seq<Tx>, usedBefore: int, feeBefore: int): BlockResult
      reads this, store.db, store.db.dirties, gp
    {
      BlockResult(store.View(), gp.gas, kept, gasUsed - usedBefore, gasFee - feeBefore, false)
    }
  }

  lemma NoneRun(b: BlockResult, txs: seq<Tx>, height: nat, interval: nat)
    ensures BlockRun(b, txs[..0], height, interval) == b
  {
    hide Turn;
  }

  lemma RunOn(b: BlockResult, txs: seq<Tx>, i: nat, height: nat, interval: nat)
    requires i < |txs|
    ensures BlockRun(b, txs[..i + 1], height, interval)
      == Turn(BlockRun(b, txs[..i], height, interval), txs[i], height, interval)
  {
    hide Turn;
    assert txs[..i + 1][..i] == txs[..i];
  }

  lemma TurnIs(b: BlockResult, tx: Tx, height: nat, interval: nat)
    requires !b.stopped
    ensures var r := Route(b.st, b.pool, tx, height, interval);
            Turn(b, tx, height, interval)
            == if r.err == NoError then
                 BlockResult(r.st, r.pool, b.kept + [tx], b.gasUsed + r.gasUsed, b.gasFee + r.gasUsed * tx.gasPrice,
                             false)
               else b.(stopped := r.err == OutOfGas)
  {
    hide Route;
  }

  /** Once stopped, the rest of the list changes nothing. */
  lemma {:induction false} StopsHere(b: BlockResult, txs: seq<Tx>, i: nat, height: nat, interval: nat)
    requires i <= |txs| && BlockRun(b, txs[..i], height, interval).stopped
    ensures BlockRun(b, txs, height, interval) == BlockRun(b, txs[..i], height, interval)
  {
    if i < |txs| {
      assert txs[..|txs| - 1][..i] == txs[..i];
      StopsHere(b, txs[..|txs| - 1], i, height, interval);
    } else {
      assert txs[..i] == txs;
    }
  }
}
