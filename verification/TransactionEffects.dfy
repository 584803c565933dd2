/**
 What a transaction that goes through does to the holdings of every address, told without the
 order of reads and writes and without the lazy upkeep of matured credits.
 */
module TransactionEffects {
  import opened Ledger
  import opened Credits
  import opened Maturity
  import opened Transactions

  /** A holding after paying (or, when negative, receiving) an amount. */
  function Pay(h: Holding, amount: int): Holding {
    h.(balance := h.balance - amount)
  }

  /** The effect of the processor alone on the holding h of address x. */
  function Effect(tx: Tx, from: Addr, x: Addr, h: Holding, height: nat, interval: nat): Holding {
    var sender := x == from;
    var moved :=
      match tx.kind
      case Transfer => Pay(h, (if sender then tx.amount else 0) - (if x == tx.to then tx.amount else 0))
      case VoteTx =>
        if sender then Pay(h, tx.amount)
        else if x == tx.to then h.(rc := AddCredit(h.rc, from, HeightValue(height, tx.amount)))
        else h
      case CancelVoteTx =>
        if sender then Cancelled(h, height, interval, tx.amount)
        else if x == tx.to then Cut(h, from, tx.amount)
        else h
      case CandidateTx =>
        if sender && tx.candidateData.Some?
        then Pay(h, tx.amount).(rc := AddCredit(h.rc, from, HeightValue(height, tx.amount)),
                                data := tx.candidateData.value)
        else h
      case CancelCandidateTx =>
        if sender then Cancelled(Cut(h, from, tx.amount), height, interval, tx.amount) else h
      case SetAlias =>
        var fee := AliasFee(|tx.alias|);
        var h1 := Pay(h, (if sender then fee else 0) - (if x == HOLE_ADDRESS then fee else 0));
        if sender then h1.(alias := tx.alias) else h1
      case OtherKind => h;
    if sender then moved.(nonce := NextNonce(tx.nonce)) else moved
  }

  lemma MoveHolding(st: State, from: Addr, to: Addr, amount: int, height: nat, interval: nat, x: Addr)
    requires Settles(height, interval)
    ensures HoldingOf(Move(st, from, to, amount, height, interval), x, height, interval)
         == Pay(HoldingOf(st, x, height, interval), (if x == from then amount else 0) - (if x == to then amount else 0))
  {
    hide HoldingOf;
    var left := GetBalance(st, from, height, interval) - amount;
    var st1 := PutBalance(st, from, height, interval, left);
    PutBalanceHolding(st, from, height, interval, left, x);
    PutBalanceHolding(st, from, height, interval, left, to);
    HoldingIs(st, from, height, interval);
    HoldingIs(st1, to, height, interval);
    PutBalanceHolding(st1, to, height, interval, GetBalance(st1, to, height, interval) + amount, x);
  }

  lemma AliasHolding(st: State, from: Addr, alias: Alias, height: nat, interval: nat, x: Addr)
    ensures var h := HoldingOf(st, x, height, interval);
            HoldingOf(SetAliasOf(st, from, alias), x, height, interval) == if x == from then h.(alias := alias) else h
  {
    hide HoldingOf;
    HoldingIs(st, x, height, interval);
    HoldingIs(SetAliasOf(st, from, alias), x, height, interval);
  }

  lemma MoveTxHolding(st: State, remained: nat, tx: Tx, from: Addr, height: nat, interval: nat, x: Addr)
    requires Settles(height, interval) && (tx.kind == Transfer || tx.kind == SetAlias)
    ensures var r := Process(st, remained, tx, from, height, interval);
            r.err == NoError ==>
              HoldingOf(r.st, x, height, interval)
              == Effect(tx, from, x, HoldingOf(st, x, height, interval), height, interval)
  {
    hide HoldingOf;
    if tx.kind == Transfer {
      MoveHolding(st, from, tx.to, tx.amount, height, interval, x);
      PutNonceHolding(Move(st, from, tx.to, tx.amount, height, interval), from, NextNonce(tx.nonce), height,
                      interval, x);
    } else {
      var st1, fee := SetAliasOf(st, from, tx.alias), AliasFee(|tx.alias|);
      AliasHolding(st, from, tx.alias, height, interval, x);
      MoveHolding(st1, from, HOLE_ADDRESS, fee, height, interval, x);
      PutNonceHolding(Move(st1, from, HOLE_ADDRESS, fee, height, interval), from, NextNonce(tx.nonce), height,
                      interval, x);
    }
  }

  lemma VoteTxHolding(st: State, remained: nat, tx: Tx, from: Addr, height: nat, interval: nat, x: Addr)
    requires Settles(height, interval) && (tx.kind == VoteTx || tx.kind == CandidateTx)
    ensures var r := Process(st, remained, tx, from, height, interval);
            r.err == NoError ==>
              HoldingOf(r.st, x, height, interval)
              == Effect(tx, from, x, HoldingOf(st, x, height, interval), height, interval)
  {
    hide HoldingOf;
    var left := GetBalance(st, from, height, interval) - tx.amount;
    var st1 := PutBalance(st, from, height, interval, left);
    PutBalanceHolding(st, from, height, interval, left, x);
    HoldingIs(st, from, height, interval);
    if tx.kind == VoteTx {
      VoteHolding(st1, from, tx.to, tx.amount, height, interval, x);
      PutNonceHolding(VoteCredit(st1, from, tx.to, tx.amount, height).st, from, NextNonce(tx.nonce), height,
                      interval, x);
    } else {
      CandidateHolding(st1, from, tx.amount, tx.candidateData, height, interval, x);
      var st2 := CandidateCredit(st1, from, tx.amount, tx.candidateData, height).st;
      PutNonceHolding(st2, from, NextNonce(tx.nonce), height, interval, x);
    }
  }

  lemma CancelTxHolding(st: State, remained: nat, tx: Tx, from: Addr, height: nat, interval: nat, x: Addr)
    requires tx.kind == CancelVoteTx || tx.kind == CancelCandidateTx
    ensures var r := Process(st, remained, tx, from, height, interval);
            r.err == NoError ==>
              HoldingOf(r.st, x, height, interval)
              == Effect(tx, from, x, HoldingOf(st, x, height, interval), height, interval)
  {
    hide HoldingOf;
    if tx.kind == CancelVoteTx {
      HoldingIs(st, tx.to, height, interval);
      CancelVoteHolding(st, from, tx.to, tx.amount, height, interval, x);
      var st1 := CancelVoteCredit(st, from, tx.to, tx.amount, height).st;
      PutNonceHolding(st1, from, NextNonce(tx.nonce), height, interval, x);
    } else {
      HoldingIs(st, from, height, interval);
      CancelCandidateHolding(st, from, tx.amount, height, interval, x);
      var st1 := CancelCandidateCredit(st, from, tx.amount, height).st;
      PutNonceHolding(st1, from, NextNonce(tx.nonce), height, interval, x);
    }
  }

  lemma ExecuteHolding(st: State, remained: nat, tx: Tx, from: Addr, height: nat, interval: nat, x: Addr)
    requires Settles(height, interval)
    ensures var r := Process(st, remained, tx, from, height, interval);
            r.err == NoError ==>
              HoldingOf(r.st, x, height, interval)
              == Effect(tx, from, x, HoldingOf(st, x, height, interval), height, interval)
  {
    hide HoldingOf;
    match tx.kind
    case Transfer => MoveTxHolding(st, remained, tx, from, height, interval, x);
    case SetAlias => MoveTxHolding(st, remained, tx, from, height, interval, x);
    case VoteTx => VoteTxHolding(st, remained, tx, from, height, interval, x);
    case CandidateTx => VoteTxHolding(st, remained, tx, from, height, interval, x);
    case CancelVoteTx => CancelTxHolding(st, remained, tx, from, height, interval, x);
    case CancelCandidateTx => CancelTxHolding(st, remained, tx, from, height, interval, x);
    case OtherKind =>
  }

  /** The sender pays for the gas used; otherwise every address sees the processor's effect and nothing more. */
  lemma RouteHolding(st: State, pool: nat, tx: Tx, height: nat, interval: nat, x: Addr)
    requires Settles(height, interval)
    requires Route(st, pool, tx, height, interval).err == NoError
    ensures tx.sender.Some?
    ensures var r, from := Route(st, pool, tx, height, interval), tx.sender.value;
            HoldingOf(r.st, x, height, interval)
            == Pay(Effect(tx, from, x, HoldingOf(st, x, height, interval), height, interval),
                   if x == from then r.gasUsed * tx.gasPrice else 0)
  {
    hide HoldingOf, Process;
    var from, e := RouteShape(st, pool, tx, height, interval);
    var cost := tx.gas * tx.gasPrice;
    var bought := AddBalance(st, from, height, interval, -cost);
    AddBalanceHolding(st, from, height, interval, -cost, x);
    ExecuteHolding(bought, tx.gas - tx.intrinsicGas.value, tx, from, height, interval, x);
    SettleHolding(e, pool - tx.gas, tx, from, height, interval, x);
    var h, bill := HoldingOf(st, x, height, interval), if x == from then cost else 0;
    assert HoldingOf(bought, x, height, interval) == Pay(h, bill);
    EffectPay(tx, from, x, h, height, interval, bill);
    PayPay(Effect(tx, from, x, h, height, interval), bill,
           if x == from then Settle(e, pool - tx.gas, tx, from, height, interval).gasUsed * tx.gasPrice - cost else 0);
  }

  lemma PayPay(h: Holding, a: int, b: int)
    ensures Pay(Pay(h, a), b) == Pay(h, a + b)
  {
  }

  lemma SettleHolding(e: Executed, pool: nat, tx: Tx, from: Addr, height: nat, interval: nat, x: Addr)
    requires e.err == NoError && e.gasRemained <= tx.gas
    ensures var r := Settle(e, pool, tx, from, height, interval);
            HoldingOf(r.st, x, height, interval)
            == Pay(HoldingOf(e.st, x, height, interval),
                   if x == from then r.gasUsed * tx.gasPrice - tx.gas * tx.gasPrice else 0)
  {
    hide HoldingOf;
    AddBalanceHolding(e.st, from, height, interval, e.gasRemained * tx.gasPrice, x);
    assert (tx.gas - e.gasRemained) * tx.gasPrice == tx.gas * tx.gasPrice - e.gasRemained * tx.gasPrice;
  }

  /** Paying first or last is the same: no effect depends on the balance. */
  lemma EffectPay(tx: Tx, from: Addr, x: Addr, h: Holding, height: nat, interval: nat, amount: int)
    ensures Effect(tx, from, x, Pay(h, amount), height, interval)
         == Pay(Effect(tx, from, x, h, height, interval), amount)
  {
    match tx.kind
    case Transfer =>
    case VoteTx =>
    case CancelVoteTx =>
    case CandidateTx =>
    case CancelCandidateTx => CutPay(h, from, tx.amount, amount);
    case SetAlias =>
    case OtherKind =>
  }

  lemma CutPay(h: Holding, from: Addr, c: int, amount: int)
    ensures Cut(Pay(h, amount), from, c) == Pay(Cut(h, from, c), amount)
  {
  }
}
