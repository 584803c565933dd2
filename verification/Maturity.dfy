/**
 Cancelled credits come back to the balance lazily: a balance is read together with the credits
 that have matured, and the record is only cleaned up when the balance is next written.
 Here that is proved to be invisible: what an address holds, seen at a height, behaves as in a
 ledger that pays every cancelled credit out once, at the height it matures.
 */
module Maturity {
  import opened Basics
  import opened Ledger
  import opened Credits

  /** What an address holds at a height. */
  datatype Holding = Holding(
    balance: int,
    rc: seq<ReceivedCredit>,
    waiting: seq<CancelCredit>,
    data: seq<nat>,
    nonce: nat,
    alias: Alias)

  ghost function HoldingOf(st: State, a: Addr, height: nat, interval: nat): Holding {
    var s, acc := StakeOf(st, a), AccountOf(st, a);
    Holding(GetBalance(st, a, height, interval), s.rc, Waiting(s.cc, height, interval), s.data, acc.nonce, acc.alias)
  }

  lemma HoldingIs(st: State, a: Addr, height: nat, interval: nat)
    ensures var s, acc := StakeOf(st, a), AccountOf(st, a);
            HoldingOf(st, a, height, interval)
            == Holding(GetBalance(st, a, height, interval), s.rc, Waiting(s.cc, height, interval), s.data, acc.nonce,
                       acc.alias)
  {
  }

  /** Time passing: credits that mature by the new height move to the balance. */
  function Advance(h: Holding, height: nat, interval: nat): Holding {
    h.(balance := h.balance + Matured(h.waiting, height, interval), waiting := Waiting(h.waiting, height, interval))
  }

  // ---- lists of cancelled credits ----

  lemma {:induction false} WaitingLater(cc: seq<CancelCredit>, h: nat, h': nat, interval: nat)
    requires h <= h'
    ensures Waiting(Waiting(cc, h, interval), h', interval) == Waiting(cc, h', interval)
    ensures Matured(cc, h, interval) + Matured(Waiting(cc, h, interval), h', interval) == Matured(cc, h', interval)
  {
    if cc != [] {
      var rest, last := cc[..|cc| - 1], cc[|cc| - 1];
      WaitingLater(rest, h, h', interval);
      var w := Waiting(rest, h, interval);
      assert (w + [last])[..|w|] == w;
      assert w + [] == w;
      assert Waiting(rest, h', interval) + [] == Waiting(rest, h', interval);
    }
  }

  lemma {:induction false} NothingMatureAtZero(cc: seq<CancelCredit>, interval: nat)
    requires interval > 0
    ensures Matured(cc, 0, interval) == 0 && Waiting(cc, 0, interval) == cc
  {
    if cc != [] {
      NothingMatureAtZero(cc[..|cc| - 1], interval);
    }
  }

  lemma WaitingAppend(cc: seq<CancelCredit>, c: CancelCredit, height: nat, interval: nat)
    ensures Waiting(cc + [c], height, interval)
         == if IsMature(c, height, interval) then Waiting(cc, height, interval) else Waiting(cc, height, interval) + [c]
    ensures Matured(cc + [c], height, interval)
         == Matured(cc, height, interval) + if IsMature(c, height, interval) then Sum(c.values) else 0
  {
    assert (cc + [c])[..|cc|] == cc;
    assert Waiting(cc, height, interval) + [] == Waiting(cc, height, interval);
  }

  /** Recording an amount at this height pays it out at once or lets it wait. */
  ghost predicate CancelMatures(cc: seq<CancelCredit>, height: nat, interval: nat, amount: int) {
    && Matured(AddCancel(cc, height, amount), height, interval)
       == Matured(cc, height, interval) + (if interval == 0 then amount else 0)
    && Waiting(AddCancel(cc, height, amount), height, interval)
       == if interval == 0 then Waiting(cc, height, interval)
         else AddCancel(Waiting(cc, height, interval), height, amount)
  }

  /** A credit cancelled now waits, unless there is no waiting time at all. */
  lemma {:induction false} AddCancelMaturity(cc: seq<CancelCredit>, height: nat, interval: nat, amount: int)
    ensures CancelMatures(cc, height, interval, amount)
  {
    if FindCc(cc, height) < 0 {
      AddCancelNew(cc, height, interval, amount);
    } else {
      var rest, last := cc[..|cc| - 1], cc[|cc| - 1];
      assert cc == rest + [last];
      FindCcFront(rest, last, height);
      if FindCc(rest, height) < 0 {
        AddCancelLast(rest, last, height, interval, amount);
      } else {
        AddCancelMaturity(rest, height, interval, amount);
        AddCancelBefore(rest, last, height, interval, amount);
      }
    }
  }

  lemma AddCancelBefore(rest: seq<CancelCredit>, last: CancelCredit, height: nat, interval: nat, amount: int)
    requires FindCc(rest, height) >= 0 && CancelMatures(rest, height, interval, amount)
    ensures CancelMatures(rest + [last], height, interval, amount)
  {
    AddCancelFront(rest, last, height, amount);
    WaitingAppend(rest, last, height, interval);
    WaitingAppend(AddCancel(rest, height, amount), last, height, interval);
    if interval > 0 {
      WaitingFind(rest, height, interval);
      AddCancelFront(Waiting(rest, height, interval), last, height, amount);
    }
  }

  lemma FindCcFront(rest: seq<CancelCredit>, last: CancelCredit, height: nat)
    ensures FindCc(rest + [last], height)
         == if FindCc(rest, height) >= 0 then FindCc(rest, height) else if last.height == height then |rest| else -1
  {
    var cc, i, j := rest + [last], FindCc(rest, height), FindCc(rest + [last], height);
    assert forall k :: 0 <= k < |rest| ==> cc[k] == rest[k];
    assert cc[|rest|] == last;
  }

  lemma AddCancelFront(rest: seq<CancelCredit>, last: CancelCredit, height: nat, amount: int)
    requires FindCc(rest, height) >= 0
    ensures AddCancel(rest + [last], height, amount) == AddCancel(rest, height, amount) + [last]
  {
    FindCcFront(rest, last, height);
  }

  /** With a waiting time, credits cancelled now are among those waiting. */
  lemma {:induction false} WaitingFind(cc: seq<CancelCredit>, height: nat, interval: nat)
    requires interval > 0
    ensures FindCc(cc, height) >= 0 <==> FindCc(Waiting(cc, height, interval), height) >= 0
  {
    if cc != [] {
      var rest, last := cc[..|cc| - 1], cc[|cc| - 1];
      assert cc == rest + [last];
      WaitingFind(rest, height, interval);
      FindCcFront(rest, last, height);
      FindCcFront(Waiting(rest, height, interval), last, height);
      WaitingAppend(rest, last, height, interval);
    }
  }

  lemma AddCancelAtEnd(rest: seq<CancelCredit>, last: CancelCredit, height: nat, amount: int)
    requires FindCc(rest, height) < 0 && last.height == height
    ensures AddCancel(rest + [last], height, amount) == rest + [last.(values := last.values + [amount])]
  {
    FindCcFront(rest, last, height);
  }

  lemma AddCancelLast(rest: seq<CancelCredit>, last: CancelCredit, height: nat, interval: nat, amount: int)
    requires FindCc(rest, height) < 0 && last.height == height
    ensures CancelMatures(rest + [last], height, interval, amount)
  {
    AddCancelAtEnd(rest, last, height, amount);
    WaitingAppend(rest, last, height, interval);
    WaitingAppend(rest, last.(values := last.values + [amount]), height, interval);
    SumAppend(last.values, amount);
    if interval > 0 {
      WaitingFind(rest, height, interval);
      AddCancelAtEnd(Waiting(rest, height, interval), last, height, amount);
    }
  }

  lemma AddCancelNew(cc: seq<CancelCredit>, height: nat, interval: nat, amount: int)
    requires FindCc(cc, height) < 0
    ensures CancelMatures(cc, height, interval, amount)
  {
    var c := CancelCredit(height, [amount]);
    WaitingAppend(cc, c, height, interval);
    assert [] + [amount] == [amount];
    SumAppend([], amount);
    if interval > 0 {
      WaitingFind(cc, height, interval);
    }
  }

  // ---- what each store operation does to every holding ----

  /**
   Whether writing a balance clears what was added to it. Only at height zero with no waiting
   time at all does PutBalance leave matured credits behind.
   */
  predicate Settles(height: nat, interval: nat) {
    height > 0 || interval > 0
  }

  lemma AdvanceHolding(st: State, a: Addr, h: nat, h': nat, interval: nat)
    requires h <= h'
    ensures HoldingOf(st, a, h', interval) == Advance(HoldingOf(st, a, h, interval), h', interval)
  {
    hide HoldingOf;
    HoldingIs(st, a, h, interval);
    HoldingIs(st, a, h', interval);
    WaitingLater(StakeOf(st, a).cc, h, h', interval);
  }

  lemma PutBalanceHolding(st: State, a: Addr, height: nat, interval: nat, balance: int, x: Addr)
    requires Settles(height, interval)
    ensures HoldingOf(PutBalance(st, a, height, interval, balance), x, height, interval)
         == if x == a then HoldingOf(st, a, height, interval).(balance := balance)
           else HoldingOf(st, x, height, interval)
  {
    hide HoldingOf;
    HoldingIs(st, x, height, interval);
    HoldingIs(PutBalance(st, a, height, interval, balance), x, height, interval);
    var cc, st' := StakeOf(st, a).cc, PutBalance(st, a, height, interval, balance);
    if height == 0 {
      NothingMatureAtZero(cc, interval);
    } else {
      WaitingLater(cc, height, height, interval);
    }
    if x == a {
      assert StakeOf(st', a).rc == StakeOf(st, a).rc && AccountOf(st', a).balance == balance;
      assert Matured(StakeOf(st', a).cc, height, interval) == 0;
    } else {
      assert StakeOf(st', x) == StakeOf(st, x) && AccountOf(st', x) == AccountOf(st, x);
    }
  }

  /** Without that condition the claim fails: a credit cancelled at height 0 with no waiting time is paid twice. */
  lemma PutBalanceNeedsHeight()
    ensures exists st: State ::
      GetBalance(PutBalance(st, 1, 0, 0, GetBalance(st, 1, 0, 0)), 1, 0, 0) != GetBalance(st, 1, 0, 0)
  {
    var st := State(map[], map[1 := Stake([], [CancelCredit(0, [5])], [])], [], map[]);
    var cc := [CancelCredit(0, [5])];
    assert StakeOf(st, 1).cc == cc;
    assert cc[..0] == [] && Sum([5]) == Sum([5][..0]) + 5 && [5][..0] == [];
    assert Matured(cc, 0, 0) == 5;
    PutBalanceAtZero(st, 1, 0, GetBalance(st, 1, 0, 0));
    assert GetBalance(PutBalance(st, 1, 0, 0, GetBalance(st, 1, 0, 0)), 1, 0, 0) == 10;
  }

  /** A balance reads back as written except when credits that count as matured stay behind at height 0. */
  lemma PutBalanceReadsBack(st: State, a: Addr, height: nat, interval: nat, balance: int)
    ensures GetBalance(PutBalance(st, a, height, interval, balance), a, height, interval) == balance
         <==> height > 0 || Matured(StakeOf(st, a).cc, 0, interval) == 0
  {
    if height == 0 {
      PutBalanceAtZero(st, a, interval, balance);
    } else {
      HoldingIs(PutBalance(st, a, height, interval, balance), a, height, interval);
      PutBalanceHolding(st, a, height, interval, balance, a);
    }
  }

  /** So written balances can be relied on exactly at a positive height or with a waiting time. */
  lemma SettlesExactly(height: nat, interval: nat)
    ensures Settles(height, interval) <==>
            forall st: State, a: Addr, balance: int ::
              GetBalance(PutBalance(st, a, height, interval, balance), a, height, interval) == balance
  {
    if Settles(height, interval) {
      forall st: State, a: Addr, balance: int
        ensures GetBalance(PutBalance(st, a, height, interval, balance), a, height, interval) == balance
      {
        hide GetBalance, PutBalance;
        PutBalanceReadsBack(st, a, height, interval, balance);
        NothingMatureAtZero(StakeOf(st, a).cc, if interval > 0 then interval else 1);
      }
    } else {
      PutBalanceNeedsHeight();
    }
  }

  lemma AddBalanceHolding(st: State, a: Addr, height: nat, interval: nat, amount: int, x: Addr)
    ensures HoldingOf(AddBalance(st, a, height, interval, amount), x, height, interval)
         == var h := HoldingOf(st, x, height, interval); if x == a then h.(balance := h.balance + amount) else h
  {
    hide HoldingOf;
    HoldingIs(st, x, height, interval);
    HoldingIs(AddBalance(st, a, height, interval, amount), x, height, interval);
    WaitingLater(StakeOf(st, a).cc, height, height, interval);
  }

  lemma PutNonceHolding(st: State, a: Addr, nonce: nat, height: nat, interval: nat, x: Addr)
    ensures HoldingOf(PutNonce(st, a, nonce), x, height, interval)
         == var h := HoldingOf(st, x, height, interval); if x == a then h.(nonce := nonce) else h
  {
    hide HoldingOf;
    HoldingIs(st, x, height, interval);
    HoldingIs(PutNonce(st, a, nonce), x, height, interval);
  }

  /** A holding after an amount is cancelled at this height. */
  function Cancelled(h: Holding, height: nat, interval: nat, amount: int): Holding {
    if interval == 0 then h.(balance := h.balance + amount)
    else h.(waiting := AddCancel(h.waiting, height, amount))
  }

  lemma RecordHolding(st: State, a: Addr, height: nat, interval: nat, amount: int, x: Addr)
    ensures var s := StakeOf(st, a);
            var h := HoldingOf(st, x, height, interval);
            HoldingOf(PutStake(st, a, s.(cc := AddCancel(s.cc, height, amount))), x, height, interval)
            == if x == a then Cancelled(h, height, interval, amount) else h
  {
    hide HoldingOf;
    var s := StakeOf(st, a);
    HoldingIs(st, x, height, interval);
    HoldingIs(PutStake(st, a, s.(cc := AddCancel(s.cc, height, amount))), x, height, interval);
    AddCancelMaturity(StakeOf(st, a).cc, height, interval, amount);
  }

  lemma VoteHolding(st: State, from: Addr, to: Addr, amount: int, height: nat, interval: nat, x: Addr)
    ensures var h := HoldingOf(st, x, height, interval);
            HoldingOf(VoteCredit(st, from, to, amount, height).st, x, height, interval)
            == if from != to && x == to then h.(rc := AddCredit(h.rc, from, HeightValue(height, amount))) else h
  {
    hide HoldingOf;
    HoldingIs(st, x, height, interval);
    HoldingIs(VoteCredit(st, from, to, amount, height).st, x, height, interval);
  }

  lemma CandidateHolding(st: State, a: Addr, amount: int, data: Option<seq<nat>>, height: nat, interval: nat, x: Addr)
    ensures var h := HoldingOf(st, x, height, interval);
            HoldingOf(CandidateCredit(st, a, amount, data, height).st, x, height, interval)
            == if data.Some? && x == a
               then h.(rc := AddCredit(h.rc, a, HeightValue(height, amount)), data := data.value) else h
  {
    hide HoldingOf;
    HoldingIs(st, x, height, interval);
    HoldingIs(CandidateCredit(st, a, amount, data, height).st, x, height, interval);
  }

  /** Whether the received credits allow taking the amount back. */
  predicate Covers(rc: seq<ReceivedCredit>, from: Addr, amount: int) {
    var i := FindRc(rc, from);
    i >= 0 && CreditSum(rc[i].values) >= amount
  }

  function Cut(h: Holding, from: Addr, amount: int): Holding {
    if Covers(h.rc, from, amount) then h.(rc := CutRc(h.rc, FindRc(h.rc, from), amount)) else h
  }

  lemma CutHolding(st: State, from: Addr, to: Addr, amount: int, height: nat, interval: nat, x: Addr)
    requires Covers(StakeOf(st, to).rc, from, amount)
    ensures var s := StakeOf(st, to);
            var h := HoldingOf(st, x, height, interval);
            HoldingOf(PutStake(st, to, s.(rc := CutRc(s.rc, FindRc(s.rc, from), amount))), x, height, interval)
            == if x == to then Cut(h, from, amount) else h
  {
    hide HoldingOf;
    var s := StakeOf(st, to);
    HoldingIs(st, x, height, interval);
    HoldingIs(PutStake(st, to, s.(rc := CutRc(s.rc, FindRc(s.rc, from), amount))), x, height, interval);
  }

  lemma CancelVoteHolding(st: State, from: Addr, to: Addr, amount: int, height: nat, interval: nat, x: Addr)
    ensures var h := HoldingOf(st, x, height, interval);
            HoldingOf(CancelVoteCredit(st, from, to, amount, height).st, x, height, interval)
            == if from == to || amount <= 0 || !Covers(HoldingOf(st, to, height, interval).rc, from, amount) then h
               else if x == to then Cut(h, from, amount)
               else if x == from then Cancelled(h, height, interval, amount)
               else h
  {
    hide HoldingOf;
    HoldingIs(st, to, height, interval);
    if from != to && amount > 0 && Covers(StakeOf(st, to).rc, from, amount) {
      var s := StakeOf(st, to);
      var st1 := PutStake(st, to, s.(rc := CutRc(s.rc, FindRc(s.rc, from), amount)));
      CutHolding(st, from, to, amount, height, interval, x);
      RecordHolding(st1, from, height, interval, amount, x);
    }
  }

  lemma HoldingElsewhere(st: State, st': State, height: nat, interval: nat, x: Addr)
    requires st.accounts == st'.accounts && st.stakes == st'.stakes
    ensures HoldingOf(st, x, height, interval) == HoldingOf(st', x, height, interval)
  {
    hide HoldingOf;
    HoldingIs(st, x, height, interval);
    HoldingIs(st', x, height, interval);
  }

  lemma CancelCandidateHolding(st: State, a: Addr, amount: int, height: nat, interval: nat, x: Addr)
    ensures var h := HoldingOf(st, x, height, interval);
            HoldingOf(CancelCandidateCredit(st, a, amount, height).st, x, height, interval)
            == if x == a && Covers(h.rc, a, amount) then Cancelled(Cut(h, a, amount), height, interval, amount) else h
  {
    hide HoldingOf;
    HoldingIs(st, a, height, interval);
    if Covers(StakeOf(st, a).rc, a, amount) {
      var s := StakeOf(st, a);
      var st1 := PutStake(st, a, s.(rc := CutRc(s.rc, FindRc(s.rc, a), amount)));
      CutHolding(st, a, a, amount, height, interval, x);
      RecordHolding(st1, a, height, interval, amount, x);
      var s1 := StakeOf(st1, a);
      HoldingElsewhere(CancelCandidateCredit(st, a, amount, height).st,
                       PutStake(st1, a, s1.(cc := AddCancel(s1.cc, height, amount))), height, interval, x);
    }
  }

  // ---- the eager ledger ----

  const EMPTY := Holding(0, [], [], [], 0, [])

  /** A ledger that has no matured credits in waiting: they were paid when their height came. */
  type Eager = map<Addr, Holding>

  function Of(e: Eager, a: Addr): Holding {
    if a in e then e[a] else EMPTY
  }

  function AdvanceAll(e: Eager, height: nat, interval: nat): Eager {
    map a | a in e :: Advance(e[a], height, interval)
  }

  datatype Op =
    | Put(a: Addr, balance: int)
    | Add(a: Addr, amount: int)
    | SetNonce(a: Addr, nonce: nat)
    | Vote(from: Addr, to: Addr, amount: int)
    | Candidate(a: Addr, amount: int, data: Option<seq<nat>>)
    | CancelVote(from: Addr, to: Addr, amount: int)
    | CancelCandidate(a: Addr, amount: int)

  /** One operation on the store as it is. */
  function LazyStep(st: State, op: Op, height: nat, interval: nat): State {
    match op
    case Put(a, balance) => PutBalance(st, a, height, interval, balance)
    case Add(a, amount) => AddBalance(st, a, height, interval, amount)
    case SetNonce(a, nonce) => PutNonce(st, a, nonce)
    case Vote(from, to, amount) => VoteCredit(st, from, to, amount, height).st
    case Candidate(a, amount, data) => CandidateCredit(st, a, amount, data, height).st
    case CancelVote(from, to, amount) => CancelVoteCredit(st, from, to, amount, height).st
    case CancelCandidate(a, amount) => CancelCandidateCredit(st, a, amount, height).st
  }

  /** The same operation on the eager ledger, whose holdings are those at this height. */
  function EagerStep(e: Eager, op: Op, height: nat, interval: nat): Eager {
    match op
    case Put(a, balance) => e[a := Of(e, a).(balance := balance)]
    case Add(a, amount) => e[a := Of(e, a).(balance := Of(e, a).balance + amount)]
    case SetNonce(a, nonce) => e[a := Of(e, a).(nonce := nonce)]
    case Vote(from, to, amount) =>
      if from == to then e
      else e[to := Of(e, to).(rc := AddCredit(Of(e, to).rc, from, HeightValue(height, amount)))]
    case Candidate(a, amount, data) =>
      if data.None? then e
      else e[a := Of(e, a).(rc := AddCredit(Of(e, a).rc, a, HeightValue(height, amount)), data := data.value)]
    case CancelVote(from, to, amount) =>
      if from == to || amount <= 0 || !Covers(Of(e, to).rc, from, amount) then e
      else e[to := Cut(Of(e, to), from, amount)][from := Cancelled(Of(e, from), height, interval, amount)]
    case CancelCandidate(a, amount) =>
      if !Covers(Of(e, a).rc, a, amount) then e
      else e[a := Cancelled(Cut(Of(e, a), a, amount), height, interval, amount)]
  }

  ghost predicate Represents(st: State, e: Eager, height: nat, interval: nat) {
    forall a :: HoldingOf(st, a, height, interval) == Of(e, a)
  }

  /** Time passing changes nothing in the store and pays the matured credits in the eager ledger. */
  lemma AdvanceRepresents(st: State, e: Eager, h: nat, h': nat, interval: nat)
    requires Represents(st, e, h, interval) && h <= h'
    ensures Represents(st, AdvanceAll(e, h', interval), h', interval)
  {
    hide HoldingOf;
    forall a: Addr
      ensures HoldingOf(st, a, h', interval) == Of(AdvanceAll(e, h', interval), a)
    {
      assert HoldingOf(st, a, h, interval) == Of(e, a);
      AdvanceHolding(st, a, h, h', interval);
    }
  }

  lemma StepHolding(st: State, e: Eager, op: Op, height: nat, interval: nat, x: Addr)
    requires Represents(st, e, height, interval) && Settles(height, interval)
    ensures HoldingOf(LazyStep(st, op, height, interval), x, height, interval)
         == Of(EagerStep(e, op, height, interval), x)
  {
    hide HoldingOf;
    assert HoldingOf(st, x, height, interval) == Of(e, x);
    match op
    case Put(a, balance) => PutBalanceHolding(st, a, height, interval, balance, x);
    case Add(a, amount) => AddBalanceHolding(st, a, height, interval, amount, x);
    case SetNonce(a, nonce) => PutNonceHolding(st, a, nonce, height, interval, x);
    case Vote(from, to, amount) => VoteHolding(st, from, to, amount, height, interval, x);
    case Candidate(a, amount, data) => CandidateHolding(st, a, amount, data, height, interval, x);
    case CancelVote(from, to, amount) =>
      assert HoldingOf(st, to, height, interval) == Of(e, to);
      CancelVoteHolding(st, from, to, amount, height, interval, x);
    case CancelCandidate(a, amount) =>
      assert HoldingOf(st, a, height, interval) == Of(e, a);
      CancelCandidateHolding(st, a, amount, height, interval, x);
  }

  /** One operation keeps the store and the eager ledger in agreement at its height. */
  lemma StepRepresents(st: State, e: Eager, op: Op, height: nat, interval: nat)
    requires Represents(st, e, height, interval) && Settles(height, interval)
    ensures Represents(LazyStep(st, op, height, interval), EagerStep(e, op, height, interval), height, interval)
  {
    hide HoldingOf;
    forall x: Addr
      ensures HoldingOf(LazyStep(st, op, height, interval), x, height, interval)
           == Of(EagerStep(e, op, height, interval), x)
    {
      StepHolding(st, e, op, height, interval, x);
    }
  }

  // ---- whole runs ----

  datatype Timed = Timed(op: Op, height: nat)

  /** Heights never go down, and start no lower than the given height. */
  ghost predicate InOrder(run: seq<Timed>, start: nat, interval: nat) {
    && (forall i :: 0 <= i < |run| ==> start <= run[i].height && Settles(run[i].height, interval))
    && (forall i, j :: 0 <= i < j < |run| ==> run[i].height <= run[j].height)
  }

  function LazyRun(st: State, run: seq<Timed>, interval: nat): State {
    if run == [] then st
    else
      var last := run[|run| - 1];
      LazyStep(LazyRun(st, run[..|run| - 1], interval), last.op, last.height, interval)
  }

  function EagerRun(e: Eager, run: seq<Timed>, interval: nat): Eager {
    if run == [] then e
    else
      var last := run[|run| - 1];
      EagerStep(AdvanceAll(EagerRun(e, run[..|run| - 1], interval), last.height, interval), last.op, last.height,
                interval)
  }

  function LastHeight(run: seq<Timed>, start: nat): nat {
    if run == [] then start else run[|run| - 1].height
  }

  lemma {:induction false} RunRepresents(st: State, e: Eager, run: seq<Timed>, start: nat, interval: nat)
    requires Represents(st, e, start, interval) && InOrder(run, start, interval)
    ensures Represents(LazyRun(st, run, interval), EagerRun(e, run, interval), LastHeight(run, start), interval)
  {
    hide HoldingOf;
    if run != [] {
      var front, last := run[..|run| - 1], run[|run| - 1];
      RunRepresents(st, e, front, start, interval);
      var st', e' := LazyRun(st, front, interval), EagerRun(e, front, interval);
      AdvanceRepresents(st', e', LastHeight(front, start), last.height, interval);
      StepRepresents(st', AdvanceAll(e', last.height, interval), last.op, last.height, interval);
    }
  }

  /**
   After any run at non-decreasing heights, the balance read at any later height is the balance of
   the ledger that paid each cancelled credit out when its height came.
   */
  lemma LazyBalanceIsEager(run: seq<Timed>, interval: nat, a: Addr, height: nat)
    requires InOrder(run, 0, interval) && LastHeight(run, 0) <= height
    ensures var st, e := LazyRun(State(map[], map[], [], map[]), run, interval), EagerRun(map[], run, interval);
            GetBalance(st, a, height, interval) == Of(AdvanceAll(e, height, interval), a).balance
  {
    hide HoldingOf;
    var st0 := State(map[], map[], [], map[]);
    forall x: Addr
      ensures HoldingOf(st0, x, 0, interval) == Of(map[], x)
    {
      HoldingIs(st0, x, 0, interval);
    }
    RunRepresents(st0, map[], run, 0, interval);
    var st, e := LazyRun(st0, run, interval), EagerRun(map[], run, interval);
    AdvanceRepresents(st, e, LastHeight(run, 0), height, interval);
    HoldingIs(st, a, height, interval);
    assert HoldingOf(st, a, height, interval) == Of(AdvanceAll(e, height, interval), a);
  }
}
