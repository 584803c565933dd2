/**
 Pledging coins and cancelling pledges (chain/store/stakestore.go): VoteCredit, CandidateCredit,
 cancelCredit and its two callers, on values. Each says which coins moved where.
 */
module Credits {
  import opened Basics
  import opened Ledger

  datatype Error =
    | NoError
    | SameAddress | NotPositive | NoSuchCredit | CreditNotEnough
    | BadCandidateData
    | BadAlias | UsedAlias
    | NotEnoughBalance | NotEnoughForGas
    | NonceTooHigh | NonceTooLow
    | ReachGasLimit | OutOfGas | IntrinsicGasFailed
    | UnknownSender | UnsupportedType

  /** The state an operation leaves behind, and its error. */
  datatype Result = Result(st: State, err: Error)

  /** The index of the first credit received from an address, or -1. */
  function FindRc(rc: seq<ReceivedCredit>, a: Addr): (i: int)
    ensures -1 <= i < |rc|
    ensures i >= 0 ==> rc[i].addr == a
    ensures forall j :: 0 <= j < (if i < 0 then |rc| else i) ==> rc[j].addr != a
  {
    if rc == [] then -1
    else if rc[0].addr == a then 0
    else
      var i := FindRc(rc[1..], a);
      assert forall j :: 0 < j < |rc| ==> rc[j] == rc[1..][j - 1];
      if i < 0 then -1 else i + 1
  }

  function FindCc(cc: seq<CancelCredit>, height: nat): (i: int)
    ensures -1 <= i < |cc|
    ensures i >= 0 ==> cc[i].height == height
    ensures forall j :: 0 <= j < (if i < 0 then |cc| else i) ==> cc[j].height != height
  {
    if cc == [] then -1
    else if cc[0].height == height then 0
    else
      var i := FindCc(cc[1..], height);
      assert forall j :: 0 < j < |cc| ==> cc[j] == cc[1..][j - 1];
      if i < 0 then -1 else i + 1
  }

  /** A credit added to what the address already gave. */
  function AddCredit(rc: seq<ReceivedCredit>, a: Addr, hv: HeightValue): seq<ReceivedCredit> {
    var i := FindRc(rc, a);
    if i >= 0 then rc[i := rc[i].(values := rc[i].values + [hv])]
    else rc + [ReceivedCredit(a, [hv])]
  }

  /** A cancelled amount recorded under its height. */
  function AddCancel(cc: seq<CancelCredit>, height: nat, amount: int): seq<CancelCredit> {
    var i := FindCc(cc, height);
    if i >= 0 then cc[i := cc[i].(values := cc[i].values + [amount])]
    else cc + [CancelCredit(height, [amount])]
  }

  lemma SumAppend(values: seq<int>, v: int)
    ensures Sum(values + [v]) == Sum(values) + v
  {
    assert (values + [v])[..|values|] == values;
  }

  lemma RcSumSet(rc: seq<ReceivedCredit>, i: nat, r: ReceivedCredit)
    requires i < |rc|
    ensures RcSum(rc[i := r]) == RcSum(rc) - CreditSum(rc[i].values) + CreditSum(r.values)
  {
    RcSumSplit(rc, i);
    RcSumSplit(rc[i := r], i);
    assert rc[i := r][..i] == rc[..i] && rc[i := r][i + 1..] == rc[i + 1..];
  }

  lemma AddCreditSum(rc: seq<ReceivedCredit>, a: Addr, hv: HeightValue)
    ensures RcSum(AddCredit(rc, a, hv)) == RcSum(rc) + hv.value
  {
    var i := FindRc(rc, a);
    if i >= 0 {
      CreditSumConcat(rc[i].values, [hv]);
      RcSumSet(rc, i, rc[i].(values := rc[i].values + [hv]));
    } else {
      var one := [ReceivedCredit(a, [hv])];
      RcSumConcat(rc, one);
      assert one[1..] == [] && [hv][1..] == [];
      assert CreditSum([hv]) == hv.value;
    }
  }

  lemma AddCancelSum(cc: seq<CancelCredit>, height: nat, amount: int)
    ensures CcSum(AddCancel(cc, height, amount)) == CcSum(cc) + amount
  {
    var i := FindCc(cc, height);
    if i >= 0 {
      SumAppend(cc[i].values, amount);
      CcSumUpdate(cc, i, cc[i].(values := cc[i].values + [amount]));
    } else {
      SumAppend([], amount);
      assert [] + [amount] == [amount];
      assert (cc + [CancelCredit(height, [amount])])[..|cc|] == cc;
    }
  }

  // ---- taking credits back, oldest first ----

  /** What is left of a list of credits after taking an amount from its front. */
  function Left(values: seq<HeightValue>, amount: int): seq<HeightValue> {
    if values == [] then []
    else if amount >= values[0].value then
      if amount == values[0].value then values[1..] else Left(values[1..], amount - values[0].value)
    else [HeightValue(values[0].height, values[0].value - amount)] + values[1..]
  }

  /** What was taken: whole credits from the front, then a part of the next one. */
  function Taken(values: seq<HeightValue>, amount: int): seq<HeightValue> {
    if values == [] then []
    else if amount >= values[0].value then
      [values[0]] + if amount == values[0].value then [] else Taken(values[1..], amount - values[0].value)
    else [HeightValue(values[0].height, amount)]
  }

  lemma FrontStep(values: seq<HeightValue>, amount: int)
    requires values != []
    ensures CreditSum(values) == values[0].value + CreditSum(values[1..])
    ensures amount == values[0].value ==> Left(values, amount) == values[1..] && Taken(values, amount) == [values[0]]
    ensures amount > values[0].value ==>
      && Left(values, amount) == Left(values[1..], amount - values[0].value)
      && Taken(values, amount) == [values[0]] + Taken(values[1..], amount - values[0].value)
    ensures amount < values[0].value ==>
      && Left(values, amount) == [HeightValue(values[0].height, values[0].value - amount)] + values[1..]
      && Taken(values, amount) == [HeightValue(values[0].height, amount)]
  {
  }

  lemma FrontDone(amount: int)
    ensures Left([], amount) == [] && Taken([], amount) == [] && CreditSum([]) == 0
  {
  }

  /** Exactly the amount is taken and exactly the rest is left. */
  lemma {:induction false} TakenAndLeft(values: seq<HeightValue>, amount: int)
    requires values != [] && CreditSum(values) >= amount
    ensures CreditSum(Taken(values, amount)) == amount
    ensures CreditSum(Left(values, amount)) == CreditSum(values) - amount
  {
    var v := values[0].value;
    if amount > v {
      assert values[1..] != [];
      TakenAndLeft(values[1..], amount - v);
      assert ([values[0]] + Taken(values[1..], amount - v))[1..] == Taken(values[1..], amount - v);
    } else if amount == v {
      assert ([values[0]] + [])[1..] == [];
    } else {
      assert ([HeightValue(values[0].height, v - amount)] + values[1..])[1..] == values[1..];
    }
  }

  /** Up to k the credits are taken, from k on they are left; only credit k may be divided. */
  ghost predicate CutAt(values: seq<HeightValue>, taken: seq<HeightValue>, left: seq<HeightValue>, k: nat)
    requires k < |values|
  {
    || (taken == values[..k + 1] && left == values[k + 1..])
    || (&& |taken| == k + 1 && taken[..k] == values[..k] && left != [] && left[1..] == values[k + 1..]
        && taken[k].height == values[k].height == left[0].height
        && taken[k].value < values[k].value && taken[k].value + left[0].value == values[k].value)
  }

  lemma CutAtLater(values: seq<HeightValue>, taken: seq<HeightValue>, left: seq<HeightValue>, k: nat)
    requires k + 1 < |values| && CutAt(values[1..], taken, left, k)
    ensures CutAt(values, [values[0]] + taken, left, k + 1)
  {
    var rest, taken' := values[1..], [values[0]] + taken;
    assert values[k + 1] == rest[k] && values[k + 2..] == rest[k + 1..];
    if taken == rest[..k + 1] && left == rest[k + 1..] {
      assert taken' == values[..k + 2];
    } else {
      assert taken'[..k + 1] == [values[0]] + taken[..k] == values[..k + 1];
    }
  }

  /** Oldest first: credits are taken whole from the front, and at most one is divided. */
  lemma {:induction false} OldestFirst(values: seq<HeightValue>, amount: int) returns (k: nat)
    requires values != [] && CreditSum(values) >= amount
    ensures k < |values| && CutAt(values, Taken(values, amount), Left(values, amount), k)
  {
    hide Taken, Left, CreditSum;
    FrontStep(values, amount);
    var v := values[0].value;
    if amount > v {
      FrontDone(amount - v);
      k := OldestFirst(values[1..], amount - v);
      CutAtLater(values, Taken(values[1..], amount - v), Left(values, amount), k);
      k := k + 1;
    } else {
      k := 0;
    }
  }

  /** The received credits after one address takes an amount back; an emptied entry disappears. */
  function CutRc(rc: seq<ReceivedCredit>, i: nat, amount: int): seq<ReceivedCredit>
    requires i < |rc|
  {
    var left := Left(rc[i].values, amount);
    if left == [] then rc[..i] + rc[i + 1..] else rc[i := rc[i].(values := left)]
  }

  lemma CutRcSum(rc: seq<ReceivedCredit>, i: nat, amount: int)
    requires i < |rc| && rc[i].values != [] && CreditSum(rc[i].values) >= amount
    ensures RcSum(CutRc(rc, i, amount)) == RcSum(rc) - amount
  {
    TakenAndLeft(rc[i].values, amount);
    var left := Left(rc[i].values, amount);
    RcSumSplit(rc, i);
    if left == [] {
      RcSumConcat(rc[..i], rc[i + 1..]);
    } else {
      RcSumSet(rc, i, rc[i].(values := left));
    }
  }

  // ---- the store operations ----

  /** No entry of received credits is empty. */
  ghost predicate RcFilled(rc: seq<ReceivedCredit>) {
    forall i :: 0 <= i < |rc| ==> rc[i].values != []
  }

  ghost predicate Filled(st: State) {
    forall a :: a in st.stakes ==> RcFilled(st.stakes[a].rc)
  }

  function VoteCredit(st: State, from: Addr, to: Addr, amount: int, height: nat): Result {
    if from == to then Result(st, SameAddress)
    else
      var s := StakeOf(st, to);
      Result(PutStake(st, to, s.(rc := AddCredit(s.rc, from, HeightValue(height, amount)))), NoError)
  }

  function AddCandidate(candidates: seq<Addr>, a: Addr): seq<Addr> {
    if a in candidates then candidates else candidates + [a]
  }

  function DropCandidate(candidates: seq<Addr>, a: Addr): seq<Addr> {
    if candidates == [] then []
    else if candidates[0] == a then DropCandidate(candidates[1..], a)
    else [candidates[0]] + DropCandidate(candidates[1..], a)
  }

  /** Pledging to oneself; the data is what parsing the registration gave, if it could be parsed. */
  function CandidateCredit(st: State, a: Addr, amount: int, data: Option<seq<nat>>, height: nat): Result {
    var s := StakeOf(st, a);
    var i := FindRc(s.rc, a);
    var total := amount + if i >= 0 then CreditSum(s.rc[i].values) else 0;
    var st' := if total >= PLEDGE_LIMIT then st.(candidates := AddCandidate(st.candidates, a)) else st;
    if data.None? then Result(st', BadCandidateData)
    else
      Result(PutStake(st', a, s.(rc := AddCredit(s.rc, a, HeightValue(height, amount)), data := data.value)), NoError)
  }

  /** What cancelCredit finds: the error, or the position of the credit to cut. */
  function CancelCheck(st: State, from: Addr, to: Addr, amount: int): Error {
    var rc := StakeOf(st, to).rc;
    var i := FindRc(rc, from);
    if i < 0 then NoSuchCredit
    else if CreditSum(rc[i].values) >= amount then NoError
    else CreditNotEnough
  }

  function CancelVoteCredit(st: State, from: Addr, to: Addr, amount: int, height: nat): Result {
    if from == to then Result(st, SameAddress)
    else if amount <= 0 then Result(st, NotPositive)
    else
      var err := CancelCheck(st, from, to, amount);
      if err != NoError then Result(st, err)
      else
        var s := StakeOf(st, to);
        var st1 := PutStake(st, to, s.(rc := CutRc(s.rc, FindRc(s.rc, from), amount)));
        var s1 := StakeOf(st1, from);
        Result(PutStake(st1, from, s1.(cc := AddCancel(s1.cc, height, amount))), NoError)
  }

  function CancelCandidateCredit(st: State, a: Addr, amount: int, height: nat): Result {
    var err := CancelCheck(st, a, a, amount);
    if err != NoError then Result(st, err)
    else
      var s := StakeOf(st, a);
      var i := FindRc(s.rc, a);
      var left := CreditSum(s.rc[i].values) - amount;
      var st1 := if left < PLEDGE_LIMIT then st.(candidates := DropCandidate(st.candidates, a)) else st;
      Result(PutStake(st1, a, s.(rc := CutRc(s.rc, i, amount), cc := AddCancel(s.cc, height, amount))), NoError)
  }

  // ---- conservation, operation by operation ----

  lemma VoteCreditCoins(st: State, from: Addr, to: Addr, amount: int, height: nat)
    requires Filled(st)
    ensures var r := VoteCredit(st, from, to, amount, height);
            Filled(r.st) && Coins(r.st) == Coins(st) + (if r.err == NoError then amount else 0)
  {
    hide Coins;
    var s := StakeOf(st, to);
    AddCreditSum(s.rc, from, HeightValue(height, amount));
    PutStakeCoins(st, to, s.(rc := AddCredit(s.rc, from, HeightValue(height, amount))));
  }

  lemma CandidateCreditCoins(st: State, a: Addr, amount: int, data: Option<seq<nat>>, height: nat)
    requires Filled(st)
    ensures var r := CandidateCredit(st, a, amount, data, height);
            Filled(r.st) && Coins(r.st) == Coins(st) + (if r.err == NoError then amount else 0)
  {
    hide Coins;
    var s := StakeOf(st, a);
    AddCreditSum(s.rc, a, HeightValue(height, amount));
    var r := CandidateCredit(st, a, amount, data, height);
    if data.Some? {
      var s' := s.(rc := AddCredit(s.rc, a, HeightValue(height, amount)), data := data.value);
      PutStakeCoins(st, a, s');
      CoinsElsewhere(r.st, PutStake(st, a, s'));
    } else {
      CoinsElsewhere(r.st, st);
    }
  }

  lemma CutRcFilled(rc: seq<ReceivedCredit>, i: nat, amount: int)
    requires i < |rc| && RcFilled(rc)
    ensures RcFilled(CutRc(rc, i, amount))
  {
  }

  lemma PutStakeFilled(st: State, a: Addr, s: Stake)
    requires Filled(st) && RcFilled(s.rc)
    ensures Filled(PutStake(st, a, s))
  {
  }

  /** Cancelling moves the amount from received to cancelled credits; nothing is gained or lost. */
  lemma CancelVoteCreditCoins(st: State, from: Addr, to: Addr, amount: int, height: nat)
    requires Filled(st)
    ensures var r := CancelVoteCredit(st, from, to, amount, height); Filled(r.st) && Coins(r.st) == Coins(st)
  {
    hide Coins;
    if from != to && amount > 0 && CancelCheck(st, from, to, amount) == NoError {
      var s := StakeOf(st, to);
      var i := FindRc(s.rc, from);
      CutRcSum(s.rc, i, amount);
      CutRcFilled(s.rc, i, amount);
      var s' := s.(rc := CutRc(s.rc, i, amount));
      var st1 := PutStake(st, to, s');
      PutStakeCoins(st, to, s');
      PutStakeFilled(st, to, s');
      var s1 := StakeOf(st1, from);
      AddCancelSum(s1.cc, height, amount);
      var s1' := s1.(cc := AddCancel(s1.cc, height, amount));
      PutStakeCoins(st1, from, s1');
      PutStakeFilled(st1, from, s1');
      assert CancelVoteCredit(st, from, to, amount, height).st == PutStake(st1, from, s1');
    }
  }

  lemma CancelCandidateCreditCoins(st: State, a: Addr, amount: int, height: nat)
    requires Filled(st)
    ensures var r := CancelCandidateCredit(st, a, amount, height); Filled(r.st) && Coins(r.st) == Coins(st)
  {
    hide Coins;
    if CancelCheck(st, a, a, amount) == NoError {
      var s := StakeOf(st, a);
      var i := FindRc(s.rc, a);
      CutRcSum(s.rc, i, amount);
      CutRcFilled(s.rc, i, amount);
      AddCancelSum(s.cc, height, amount);
      var s' := s.(rc := CutRc(s.rc, i, amount), cc := AddCancel(s.cc, height, amount));
      PutStakeCoins(st, a, s');
      CoinsElsewhere(CancelCandidateCredit(st, a, amount, height).st, PutStake(st, a, s'));
    }
  }
}
