/**
 The coins of the chain as values: account balances, received credits (RC) and cancelled
 credits awaiting maturity (CC), and what each store operation does to them
 (chain/store/stakestore.go, chain/store/store.go, chain/store/accountstore.go).
 */
module Ledger {
  type Addr = nat
  type Alias = seq<nat>

  datatype HeightValue = HeightValue(height: nat, value: int)
  datatype ReceivedCredit = ReceivedCredit(addr: Addr, values: seq<HeightValue>)
  datatype CancelCredit = CancelCredit(height: nat, values: seq<int>)
  datatype Stake = Stake(rc: seq<ReceivedCredit>, cc: seq<CancelCredit>, data: seq<nat>)
  datatype Account = Account(balance: int, nonce: nat, alias: Alias)

  datatype State = State(
    accounts: map<Addr, Account>,
    stakes: map<Addr, Stake>,
    candidates: seq<Addr>,
    aliases: map<Alias, Addr>)

  const NO_STAKE := Stake([], [], [])
  const NO_ACCOUNT := Account(0, 0, [])

  /** 50000000 coins of 10^18 units each. */
  const PLEDGE_LIMIT: int := 50000000 * 1000000000000000000

  function StakeOf(st: State, a: Addr): Stake {
    if a in st.stakes then st.stakes[a] else NO_STAKE
  }

  function AccountOf(st: State, a: Addr): Account {
    if a in st.accounts then st.accounts[a] else NO_ACCOUNT
  }

  function PutStake(st: State, a: Addr, s: Stake): State {
    st.(stakes := st.stakes[a := s])
  }

  function PutAccount(st: State, a: Addr, acc: Account): State {
    st.(accounts := st.accounts[a := acc])
  }

  // ---- sums ----

  function Sum(values: seq<int>): int {
    if values == [] then 0 else Sum(values[..|values| - 1]) + values[|values| - 1]
  }

  function CreditSum(values: seq<HeightValue>): int {
    if values == [] then 0 else values[0].value + CreditSum(values[1..])
  }

  function RcSum(rc: seq<ReceivedCredit>): int {
    if rc == [] then 0 else CreditSum(rc[0].values) + RcSum(rc[1..])
  }

  function CcSum(cc: seq<CancelCredit>): int {
    if cc == [] then 0 else CcSum(cc[..|cc| - 1]) + Sum(cc[|cc| - 1].values)
  }

  function StakeSum(s: Stake): int {
    RcSum(s.rc) + CcSum(s.cc)
  }

  lemma {:induction false} CreditSumConcat(a: seq<HeightValue>, b: seq<HeightValue>)
    ensures CreditSum(a + b) == CreditSum(a) + CreditSum(b)
  {
    if a == [] {
      assert a + b == b;
    } else {
      assert (a + b)[1..] == a[1..] + b;
      CreditSumConcat(a[1..], b);
    }
  }

  lemma {:induction false} RcSumConcat(a: seq<ReceivedCredit>, b: seq<ReceivedCredit>)
    ensures RcSum(a + b) == RcSum(a) + RcSum(b)
  {
    if a == [] {
      assert a + b == b;
    } else {
      assert (a + b)[1..] == a[1..] + b;
      RcSumConcat(a[1..], b);
    }
  }

  lemma RcSumSplit(rc: seq<ReceivedCredit>, i: nat)
    requires i < |rc|
    ensures RcSum(rc) == RcSum(rc[..i]) + CreditSum(rc[i].values) + RcSum(rc[i + 1..])
  {
    assert rc == rc[..i] + rc[i..];
    RcSumConcat(rc[..i], rc[i..]);
    assert rc[i..][1..] == rc[i + 1..];
  }

  lemma {:induction false} CcSumUpdate(cc: seq<CancelCredit>, i: nat, c: CancelCredit)
    requires i < |cc|
    ensures CcSum(cc[i := c]) == CcSum(cc) - Sum(cc[i].values) + Sum(c.values)
  {
    var last := |cc| - 1;
    if i == last {
      assert cc[i := c][..last] == cc[..last];
    } else {
      CcSumUpdate(cc[..last], i, c);
      assert cc[i := c][..last] == cc[..last][i := c];
    }
  }

  // ---- sums over all addresses ----

  ghost function Total(m: map<Addr, int>): int
    decreases |m|
  {
    if m == map[] then 0
    else
      var a :| a in m;
      m[a] + Total(m - {a})
  }

  lemma {:induction false} TotalWithout(m: map<Addr, int>, a: Addr)
    requires a in m
    ensures Total(m) == m[a] + Total(m - {a})
    decreases |m|
  {
    var b :| b in m && Total(m) == m[b] + Total(m - {b});
    if b != a {
      TotalWithout(m - {b}, a);
      TotalWithout(m - {a}, b);
      assert m - {a} - {b} == m - {b} - {a};
    }
  }

  lemma TotalUpdate(m: map<Addr, int>, a: Addr, v: int)
    ensures Total(m[a := v]) == Total(m) - (if a in m then m[a] else 0) + v
  {
    TotalWithout(m[a := v], a);
    assert m[a := v] - {a} == m - {a};
    if a in m {
      TotalWithout(m, a);
    } else {
      assert m - {a} == m;
    }
  }

  ghost function Balances(accounts: map<Addr, Account>): map<Addr, int> {
    map a | a in accounts :: accounts[a].balance
  }

  ghost function Pledged(stakes: map<Addr, Stake>): map<Addr, int> {
    map a | a in stakes :: StakeSum(stakes[a])
  }

  /** All coins there are: balances, received credits and cancelled credits of every address. */
  ghost function Coins(st: State): int {
    Total(Balances(st.accounts)) + Total(Pledged(st.stakes))
  }

  lemma CoinsIs(st: State)
    ensures Coins(st) == Total(Balances(st.accounts)) + Total(Pledged(st.stakes))
  {
  }

  lemma PutAccountCoins(st: State, a: Addr, acc: Account)
    ensures Coins(PutAccount(st, a, acc)) == Coins(st) - AccountOf(st, a).balance + acc.balance
  {
    hide Coins;
    CoinsIs(st);
    CoinsIs(PutAccount(st, a, acc));
    TotalUpdate(Balances(st.accounts), a, acc.balance);
    assert Balances(st.accounts[a := acc]) == Balances(st.accounts)[a := acc.balance];
  }

  lemma PutStakeCoins(st: State, a: Addr, s: Stake)
    ensures Coins(PutStake(st, a, s)) == Coins(st) - StakeSum(StakeOf(st, a)) + StakeSum(s)
  {
    hide Coins;
    CoinsIs(st);
    CoinsIs(PutStake(st, a, s));
    TotalUpdate(Pledged(st.stakes), a, StakeSum(s));
    assert Pledged(st.stakes[a := s]) == Pledged(st.stakes)[a := StakeSum(s)];
  }

  /** Coins are counted on accounts and stakes only. */
  lemma CoinsElsewhere(st: State, st': State)
    requires st.accounts == st'.accounts && st.stakes == st'.stakes
    ensures Coins(st) == Coins(st')
  {
    hide Coins;
    CoinsIs(st);
    CoinsIs(st');
  }

  // ---- maturity of cancelled credits ----

  predicate IsMature(c: CancelCredit, height: nat, interval: nat) {
    height >= c.height + interval
  }

  /** Heights are 64-bit unsigned integers, whose sums wrap around. */
  const HEIGHTS: nat := 0x1_0000_0000_0000_0000

  predicate IsMatureInWord(c: CancelCredit, height: nat, interval: nat) {
    height >= (c.height + interval) % HEIGHTS
  }

  /**
   The test on 64-bit heights is the one on numbers exactly when the credit matures below 2^64. Beyond
   that the sum wraps around, and the credit is mature from the moment it is cancelled.
   */
  lemma MatureInWord(c: CancelCredit, height: nat, interval: nat)
    requires c.height <= height < HEIGHTS && interval < HEIGHTS
    ensures IsMatureInWord(c, height, interval) == IsMature(c, height, interval) <==> c.height + interval < HEIGHTS
    ensures c.height + interval >= HEIGHTS ==> IsMatureInWord(c, height, interval)
  {
    if c.height + interval >= HEIGHTS {
      assert (c.height + interval) % HEIGHTS == c.height + interval - HEIGHTS;
    }
  }

  /** A credit cancelled at height 1 that should wait 2^64 - 1 blocks is paid back in the same block. */
  lemma MaturesAtOnce(values: seq<int>)
    ensures var c := CancelCredit(1, values);
            IsMatureInWord(c, 1, HEIGHTS - 1) && !IsMature(c, 1, HEIGHTS - 1)
  {
  }

  /** The sum of the cancelled credits whose waiting time is over. */
  function Matured(cc: seq<CancelCredit>, height: nat, interval: nat): int {
    if cc == [] then 0
    else
      var last := cc[|cc| - 1];
      Matured(cc[..|cc| - 1], height, interval) + if IsMature(last, height, interval) then Sum(last.values) else 0
  }

  /** The cancelled credits still waiting, in order. */
  function Waiting(cc: seq<CancelCredit>, height: nat, interval: nat): (r: seq<CancelCredit>)
    ensures |r| <= |cc|
  {
    if cc == [] then []
    else
      var last := cc[|cc| - 1];
      Waiting(cc[..|cc| - 1], height, interval) + if IsMature(last, height, interval) then [] else [last]
  }

  /** Maturing moves coins, it does not make any. */
  lemma {:induction false} MaturedPlusWaiting(cc: seq<CancelCredit>, height: nat, interval: nat)
    ensures CcSum(cc) == Matured(cc, height, interval) + CcSum(Waiting(cc, height, interval))
  {
    if cc != [] {
      var rest, last := cc[..|cc| - 1], cc[|cc| - 1];
      MaturedPlusWaiting(rest, height, interval);
      var w := Waiting(rest, height, interval);
      assert (w + [last])[..|w|] == w;
      assert w + [] == w;
    }
  }

  // ---- balance operations (Store.GetBalance, PutBalance, AddBalance, SubBalance) ----

  /** The balance an account can spend at a height: what it has and what has matured. */
  function GetBalance(st: State, a: Addr, height: nat, interval: nat): int {
    Matured(StakeOf(st, a).cc, height, interval) + AccountOf(st, a).balance
  }

  /** Takes the matured credits out of the stake record. */
  function TakeMatured(st: State, a: Addr, height: nat, interval: nat): State {
    if a in st.stakes
    then PutStake(st, a, st.stakes[a].(cc := Waiting(st.stakes[a].cc, height, interval)))
    else st
  }

  function SetBalance(st: State, a: Addr, balance: int): State {
    PutAccount(st, a, AccountOf(st, a).(balance := balance))
  }

  function PutBalance(st: State, a: Addr, height: nat, interval: nat, balance: int): State {
    if height != 0 then SetBalance(TakeMatured(st, a, height, interval), a, balance)
    else SetBalance(st, a, balance)
  }

  function AddBalance(st: State, a: Addr, height: nat, interval: nat, amount: int): State {
    SetBalance(TakeMatured(st, a, height, interval), a, GetBalance(st, a, height, interval) + amount)
  }

  function PutNonce(st: State, a: Addr, nonce: nat): State {
    PutAccount(st, a, AccountOf(st, a).(nonce := nonce))
  }

  lemma TakeMaturedCoins(st: State, a: Addr, height: nat, interval: nat)
    ensures Coins(TakeMatured(st, a, height, interval))
         == Coins(st) - Matured(StakeOf(st, a).cc, height, interval)
  {
    hide Coins;
    MaturedPlusWaiting(StakeOf(st, a).cc, height, interval);
    if a in st.stakes {
      PutStakeCoins(st, a, st.stakes[a].(cc := Waiting(st.stakes[a].cc, height, interval)));
    }
  }

  /**
   Writing a balance changes the coins by exactly the change in the spendable balance. At height zero the
   matured credits are not taken out, and the change is that of the account's own balance.
   */
  lemma PutBalanceCoins(st: State, a: Addr, height: nat, interval: nat, balance: int)
    ensures Coins(PutBalance(st, a, height, interval, balance)) - Coins(st)
         == balance - if height > 0 then GetBalance(st, a, height, interval) else AccountOf(st, a).balance
  {
    hide Coins;
    if height == 0 {
      PutAccountCoins(st, a, AccountOf(st, a).(balance := balance));
      return;
    }
    TakeMaturedCoins(st, a, height, interval);
    var st' := TakeMatured(st, a, height, interval);
    PutAccountCoins(st', a, AccountOf(st', a).(balance := balance));
  }

  /** At height zero the matured credits stay behind, so the written balance comes on top of them. */
  lemma PutBalanceAtZero(st: State, a: Addr, interval: nat, balance: int)
    ensures GetBalance(PutBalance(st, a, 0, interval, balance), a, 0, interval)
         == balance + Matured(StakeOf(st, a).cc, 0, interval)
  {
  }

  lemma AddBalanceCoins(st: State, a: Addr, height: nat, interval: nat, amount: int)
    ensures Coins(AddBalance(st, a, height, interval, amount)) == Coins(st) + amount
  {
    hide Coins;
    TakeMaturedCoins(st, a, height, interval);
    var st' := TakeMatured(st, a, height, interval);
    PutAccountCoins(st', a, AccountOf(st', a).(balance := GetBalance(st, a, height, interval) + amount));
  }

  lemma PutNonceCoins(st: State, a: Addr, nonce: nat)
    ensures Coins(PutNonce(st, a, nonce)) == Coins(st)
  {
    hide Coins;
    PutAccountCoins(st, a, AccountOf(st, a).(nonce := nonce));
  }
}
