/**
 Executing one transaction and one block of transactions, on values
 (chain/transactionvalidator.go, the transaction processors in chain/, and
 blockmgr/templatevalidator.go).
 */
module Transactions {
  import opened Basics
  import opened Ledger
  import opened Credits
  import opened Maturity

  datatype Kind = Transfer | VoteTx | CancelVoteTx | CandidateTx | CancelCandidateTx | SetAlias | OtherKind

  /**
   A transaction as the executor sees it: the sender if the signature gives one, the intrinsic gas
   if it can be computed, the registration data if it parses.
   */
  datatype Tx = Tx(
    kind: Kind,
    sender: Option<Addr>,
    to: Addr,
    nonce: nat,
    amount: int,
    gas: nat,
    gasPrice: int,
    intrinsicGas: Option<nat>,
    alias: Alias,
    candidateData: Option<seq<nat>>)

  const HOLE_ADDRESS: Addr := 0
  const ALIAS_GAS: nat := 68
  const COIN: int := 1000000000000000000

  /** The processors' results: the state, the gas the transaction has left, the error. */
  datatype Executed = Executed(st: State, gasRemained: nat, err: Error)

  /** The state and pool a routed transaction leaves, its error and the gas it used. */
  datatype Routed = Routed(st: State, pool: nat, err: Error, gasUsed: nat)

  // ---- aliases ----

  predicate AliasChar(c: nat) {
    48 <= c <= 57 || 65 <= c <= 90 || 97 <= c <= 122
  }

  /** CheckAlias: five to twenty letters and digits. */
  predicate GoodAlias(alias: Alias) {
    5 <= |alias| <= 20 && forall i :: 0 <= i < |alias| ==> AliasChar(alias[i])
  }

  /** The price of a short alias, halving with every letter. */
  function AliasFee(n: nat): int {
    if n == 5 then 160000 * COIN
    else if n == 6 then 80000 * COIN
    else if n == 7 then 40000 * COIN
    else if n == 8 then 20000 * COIN
    else if n == 9 then 10000 * COIN
    else if n == 10 then 5000 * COIN
    else if n == 11 then 2500 * COIN
    else 0
  }

  function SetAliasOf(st: State, a: Addr, alias: Alias): State {
    PutAccount(st, a, AccountOf(st, a).(alias := alias)).(aliases := st.aliases[alias := a])
  }

  // ---- the processors ----

  /** Moves an amount from one balance to another, read and written one after the other. */
  function Move(st: State, from: Addr, to: Addr, amount: int, height: nat, interval: nat): State {
    var st1 := PutBalance(st, from, height, interval, GetBalance(st, from, height, interval) - amount);
    PutBalance(st1, to, height, interval, GetBalance(st1, to, height, interval) + amount)
  }

  function NextNonce(nonce: nat): nat {
    (nonce + 1) % 0x1_0000_0000_0000_0000
  }

  function Process(st: State, remained: nat, tx: Tx, from: Addr, height: nat, interval: nat): Executed {
    var balance := GetBalance(st, from, height, interval);
    match tx.kind
    case Transfer =>
      if balance < tx.amount then Executed(st, remained, NotEnoughBalance)
      else Executed(PutNonce(Move(st, from, tx.to, tx.amount, height, interval), from, NextNonce(tx.nonce)),
                    remained, NoError)
    case VoteTx =>
      if balance < tx.amount then Executed(st, remained, NotEnoughBalance)
      else
        var st1 := PutBalance(st, from, height, interval, balance - tx.amount);
        var r := VoteCredit(st1, from, tx.to, tx.amount, height);
        if r.err != NoError then Executed(r.st, remained, r.err)
        else Executed(PutNonce(r.st, from, NextNonce(tx.nonce)), remained, NoError)
    case CancelVoteTx =>
      var r := CancelVoteCredit(st, from, tx.to, tx.amount, height);
      if r.err != NoError then Executed(r.st, remained, r.err)
      else Executed(PutNonce(r.st, from, NextNonce(tx.nonce)), remained, NoError)
    case CandidateTx =>
      if balance < tx.amount then Executed(st, remained, NotEnoughBalance)
      else
        var st1 := PutBalance(st, from, height, interval, balance - tx.amount);
        if tx.candidateData.None? then Executed(st1, remained, BadCandidateData)
        else
          var r := CandidateCredit(st1, from, tx.amount, tx.candidateData, height);
          Executed(PutNonce(r.st, from, NextNonce(tx.nonce)), remained, NoError)
    case CancelCandidateTx =>
      var r := CancelCandidateCredit(st, from, tx.amount, height);
      if r.err != NoError then Executed(r.st, remained, r.err)
      else Executed(PutNonce(r.st, from, NextNonce(tx.nonce)), remained, NoError)
    case SetAlias =>
      if !GoodAlias(tx.alias) then Executed(st, remained, BadAlias)
      else if tx.alias in st.aliases then Executed(st, remained, UsedAlias)
      else
        var st1 := SetAliasOf(st, from, tx.alias);
        var aliasGas := ALIAS_GAS * |tx.alias|;
        if remained < aliasGas then Executed(st1, remained, OutOfGas)
        else
          var fee := AliasFee(|tx.alias|);
          if GetBalance(st1, from, height, interval) < fee then Executed(st1, remained - aliasGas, NotEnoughBalance)
          else
            Executed(PutNonce(Move(st1, from, HOLE_ADDRESS, fee, height, interval), from, NextNonce(tx.nonce)),
                     remained - aliasGas, NoError)
    case OtherKind => Executed(st, remained, UnsupportedType)
  }

  /** PreCheck: the nonce, the balance for gas, the gas left in the block. */
  function PreCheck(st: State, pool: nat, tx: Tx, from: Addr, height: nat, interval: nat): Error {
    var nonce := AccountOf(st, from).nonce;
    if nonce < tx.nonce then NonceTooHigh
    else if nonce > tx.nonce then NonceTooLow
    else if GetBalance(st, from, height, interval) < tx.gas * tx.gasPrice then NotEnoughForGas
    else if pool < tx.gas then ReachGasLimit
    else NoError
  }

  /** The refund: unused gas goes back to the sender and to the pool. */
  function Settle(x: Executed, pool: nat, tx: Tx, from: Addr, height: nat, interval: nat): Routed {
    if x.err != NoError then Routed(x.st, pool, x.err, 0)
    else
      Routed(AddBalance(x.st, from, height, interval, x.gasRemained * tx.gasPrice),
             pool + x.gasRemained, NoError, if x.gasRemained <= tx.gas then tx.gas - x.gasRemained else 0)
  }

  /** After the gas is bought: the intrinsic gas, the processor and the refund. */
  ghost function Run(bought: State, pool: nat, tx: Tx, from: Addr, height: nat, interval: nat): Routed {
    if tx.intrinsicGas.None? then Routed(bought, pool, IntrinsicGasFailed, 0)
    else if tx.gas < tx.intrinsicGas.value then Routed(bought, pool, OutOfGas, 0)
    else
      Settle(Process(bought, tx.gas - tx.intrinsicGas.value, tx, from, height, interval), pool, tx, from, height,
             interval)
  }

  ghost function Route(st: State, pool: nat, tx: Tx, height: nat, interval: nat): Routed {
    if tx.sender.None? then Routed(st, pool, UnknownSender, 0)
    else
      var from := tx.sender.value;
      var err := PreCheck(st, pool, tx, from, height, interval);
      if err != NoError then Routed(st, pool, err, 0)
      else
        Run(AddBalance(st, from, height, interval, -(tx.gas * tx.gasPrice)), pool - tx.gas, tx, from, height, interval)
  }

  /** A processor never gives gas back. */
  lemma RemainedBound(st: State, remained: nat, tx: Tx, from: Addr, height: nat, interval: nat)
    ensures Process(st, remained, tx, from, height, interval).gasRemained <= remained
  {
  }

  /** A transaction that goes through has bought its gas, run its processor and been refunded. */
  lemma RouteShape(st: State, pool: nat, tx: Tx, height: nat, interval: nat) returns (from: Addr, e: Executed)
    requires Route(st, pool, tx, height, interval).err == NoError
    ensures tx.sender == Some(from) && tx.gas <= pool && tx.intrinsicGas.Some? && tx.intrinsicGas.value <= tx.gas
    ensures var bought := AddBalance(st, from, height, interval, -(tx.gas * tx.gasPrice));
            e == Process(bought, tx.gas - tx.intrinsicGas.value, tx, from, height, interval)
    ensures e.err == NoError && e.gasRemained <= tx.gas
    ensures Route(st, pool, tx, height, interval) == Settle(e, pool - tx.gas, tx, from, height, interval)
  {
    hide Process;
    from := tx.sender.value;
    var bought := AddBalance(st, from, height, interval, -(tx.gas * tx.gasPrice));
    e := Process(bought, tx.gas - tx.intrinsicGas.value, tx, from, height, interval);
    RemainedBound(bought, tx.gas - tx.intrinsicGas.value, tx, from, height, interval);
  }

  // ---- conservation by one transaction ----

  lemma PutBalanceExact(st: State, a: Addr, height: nat, interval: nat, balance: int)
    requires Settles(height, interval) && Filled(st)
    ensures var st' := PutBalance(st, a, height, interval, balance);
            Filled(st') && Coins(st') == Coins(st) - GetBalance(st, a, height, interval) + balance
  {
    hide Coins;
    PutBalanceCoins(st, a, height, interval, balance);
    if height == 0 {
      NothingMatureAtZero(StakeOf(st, a).cc, interval);
    }
  }

  lemma MoveCoins(st: State, from: Addr, to: Addr, amount: int, height: nat, interval: nat)
    requires Settles(height, interval) && Filled(st)
    ensures var st' := Move(st, from, to, amount, height, interval); Filled(st') && Coins(st') == Coins(st)
  {
    hide Coins;
    var left := GetBalance(st, from, height, interval) - amount;
    PutBalanceExact(st, from, height, interval, left);
    var st1 := PutBalance(st, from, height, interval, left);
    PutBalanceExact(st1, to, height, interval, GetBalance(st1, to, height, interval) + amount);
  }

  lemma PutNonceKeeps(st: State, a: Addr, nonce: nat)
    requires Filled(st)
    ensures Filled(PutNonce(st, a, nonce)) && Coins(PutNonce(st, a, nonce)) == Coins(st)
  {
    hide Coins;
    PutNonceCoins(st, a, nonce);
  }

  lemma AddBalanceKeeps(st: State, a: Addr, height: nat, interval: nat, amount: int)
    requires Filled(st)
    ensures var st' := AddBalance(st, a, height, interval, amount);
            Filled(st') && Coins(st') == Coins(st) + amount
  {
    hide Coins;
    AddBalanceCoins(st, a, height, interval, amount);
  }

  lemma VoteTxCoins(st: State, remained: nat, tx: Tx, from: Addr, height: nat, interval: nat)
    requires Settles(height, interval) && Filled(st) && (tx.kind == VoteTx || tx.kind == CandidateTx)
    ensures var r := Process(st, remained, tx, from, height, interval);
            r.err == NoError ==> Filled(r.st) && Coins(r.st) == Coins(st)
  {
    hide Coins;
    var left := GetBalance(st, from, height, interval) - tx.amount;
    PutBalanceExact(st, from, height, interval, left);
    var st1 := PutBalance(st, from, height, interval, left);
    if tx.kind == VoteTx {
      VoteCreditCoins(st1, from, tx.to, tx.amount, height);
      PutNonceKeeps(VoteCredit(st1, from, tx.to, tx.amount, height).st, from, NextNonce(tx.nonce));
    } else {
      CandidateCreditCoins(st1, from, tx.amount, tx.candidateData, height);
      PutNonceKeeps(CandidateCredit(st1, from, tx.amount, tx.candidateData, height).st, from, NextNonce(tx.nonce));
    }
  }

  lemma CancelTxCoins(st: State, remained: nat, tx: Tx, from: Addr, height: nat, interval: nat)
    requires Filled(st) && (tx.kind == CancelVoteTx || tx.kind == CancelCandidateTx)
    ensures var r := Process(st, remained, tx, from, height, interval);
            r.err == NoError ==> Filled(r.st) && Coins(r.st) == Coins(st)
  {
    hide Coins;
    if tx.kind == CancelVoteTx {
      CancelVoteCreditCoins(st, from, tx.to, tx.amount, height);
      PutNonceKeeps(CancelVoteCredit(st, from, tx.to, tx.amount, height).st, from, NextNonce(tx.nonce));
    } else {
      CancelCandidateCreditCoins(st, from, tx.amount, height);
      PutNonceKeeps(CancelCandidateCredit(st, from, tx.amount, height).st, from, NextNonce(tx.nonce));
    }
  }

  lemma MoveTxCoins(st: State, remained: nat, tx: Tx, from: Addr, height: nat, interval: nat)
    requires Settles(height, interval) && Filled(st) && (tx.kind == Transfer || tx.kind == SetAlias)
    ensures var r := Process(st, remained, tx, from, height, interval);
            r.err == NoError ==> Filled(r.st) && Coins(r.st) == Coins(st)
  {
    hide Coins;
    if tx.kind == Transfer {
      MoveCoins(st, from, tx.to, tx.amount, height, interval);
      PutNonceKeeps(Move(st, from, tx.to, tx.amount, height, interval), from, NextNonce(tx.nonce));
    } else {
      var named := PutAccount(st, from, AccountOf(st, from).(alias := tx.alias));
      PutAccountCoins(st, from, AccountOf(st, from).(alias := tx.alias));
      var st1, fee := SetAliasOf(st, from, tx.alias), AliasFee(|tx.alias|);
      CoinsElsewhere(st1, named);
      MoveCoins(st1, from, HOLE_ADDRESS, fee, height, interval);
      PutNonceKeeps(Move(st1, from, HOLE_ADDRESS, fee, height, interval), from, NextNonce(tx.nonce));
    }
  }

  /** No processor makes or loses coins. */
  lemma ExecuteCoins(st: State, remained: nat, tx: Tx, from: Addr, height: nat, interval: nat)
    requires Settles(height, interval) && Filled(st)
    ensures var r := Process(st, remained, tx, from, height, interval);
            r.err == NoError ==> Filled(r.st) && Coins(r.st) == Coins(st)
  {
    hide Coins;
    match tx.kind
    case Transfer => MoveTxCoins(st, remained, tx, from, height, interval);
    case SetAlias => MoveTxCoins(st, remained, tx, from, height, interval);
    case VoteTx => VoteTxCoins(st, remained, tx, from, height, interval);
    case CandidateTx => VoteTxCoins(st, remained, tx, from, height, interval);
    case CancelVoteTx => CancelTxCoins(st, remained, tx, from, height, interval);
    case CancelCandidateTx => CancelTxCoins(st, remained, tx, from, height, interval);
    case OtherKind =>
  }

  /** The transaction went through: coins and pool are down by exactly the gas it used. */
  ghost predicate Charged(r: Routed, coins: int, pool: int, tx: Tx) {
    && Filled(r.st)
    && r.gasUsed <= tx.gas
    && Coins(r.st) + r.gasUsed * tx.gasPrice == coins
    && r.pool + r.gasUsed == pool
  }

  lemma SettleCoins(x: Executed, coins: int, pool: nat, tx: Tx, from: Addr, height: nat, interval: nat)
    requires x.err == NoError && Filled(x.st) && Coins(x.st) == coins - tx.gas * tx.gasPrice
    requires x.gasRemained <= tx.gas
    ensures Charged(Settle(x, pool, tx, from, height, interval), coins, pool + tx.gas, tx)
  {
    hide Coins;
    AddBalanceKeeps(x.st, from, height, interval, x.gasRemained * tx.gasPrice);
    assert (tx.gas - x.gasRemained) * tx.gasPrice == tx.gas * tx.gasPrice - x.gasRemained * tx.gasPrice;
  }

  /** A transaction that goes through takes exactly its fee out of circulation, and its gas out of the pool. */
  lemma RouteCoins(st: State, pool: nat, tx: Tx, height: nat, interval: nat)
    requires Settles(height, interval) && Filled(st)
    requires Route(st, pool, tx, height, interval).err == NoError
    ensures Charged(Route(st, pool, tx, height, interval), Coins(st), pool, tx)
  {
    hide Coins, Process;
    var from, e := RouteShape(st, pool, tx, height, interval);
    var cost := tx.gas * tx.gasPrice;
    var bought := AddBalance(st, from, height, interval, -cost);
    AddBalanceKeeps(st, from, height, interval, -cost);
    ExecuteCoins(bought, tx.gas - tx.intrinsicGas.value, tx, from, height, interval);
    SettleCoins(e, Coins(st), pool - tx.gas, tx, from, height, interval);
  }
}
