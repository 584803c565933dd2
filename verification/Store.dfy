/**
 The account and stake stores as the object the chain writes to (chain/store/store.go,
 chain/store/stakestore.go, chain/store/accountstore.go), kept in the write overlay. Every method is
 proved to take the store where the value-level operation of the same name takes its state.
 */
module Store {
  import opened Basics
  import opened Ledger
  import opened Credits
  import opened Overlay
  import L = Ledger
  import C = Credits

  // ---- records in the overlay ----

  /** The keys of the state. Hashing keeps them apart. */
  datatype Slot =
    | AccountSlot(addr: Addr)
    | StakeSlot(addr: Addr)
    | CandidateSlot
    | AliasSlot(alias: Alias)

  /** A marshalled record, as one letter of a string: marshalling is injective and never gives the empty string. */
  datatype Record =
    | AccountRecord(account: Account)
    | StakeRecord(stake: Stake)
    | CandidateRecord(candidates: seq<Addr>)
    | AliasRecord(addr: Addr)

  type Entries = map<Slot, Entry<Record>>
  type Base = map<Slot, seq<Record>>

  // Unmarshalling fails on records of another kind, and on the empty string save perhaps for a list of candidates.

  function AccountIn(v: seq<Record>): Option<Account> {
    if |v| == 1 && v[0].AccountRecord? then Some(v[0].account) else None
  }

  function StakeIn(v: seq<Record>): Option<Stake> {
    if |v| == 1 && v[0].StakeRecord? then Some(v[0].stake) else None
  }

  function CandidatesIn(v: seq<Record>): seq<Addr> {
    if |v| == 1 && v[0].CandidateRecord? then v[0].candidates else []
  }

  function AliasIn(v: seq<Record>): Option<Addr> {
    if |v| == 1 && v[0].AliasRecord? then Some(v[0].addr) else None
  }

  ghost function AccountsShown(e: Entries, t: Base): (m: map<Addr, Account>)
    ensures forall a :: a in m <==> AccountIn(Visible(e, t, AccountSlot(a))).Some?
    ensures forall a :: a in m ==> m[a] == AccountIn(Visible(e, t, AccountSlot(a))).value
  {
    var m := map k | k in e.Keys + t.Keys && k.AccountSlot? && AccountIn(Visible(e, t, k)).Some?
               :: k.addr := AccountIn(Visible(e, t, k)).value;
    assert forall a :: AccountIn(Visible(e, t, AccountSlot(a))).Some? ==> AccountSlot(a) in e.Keys + t.Keys;
    m
  }

  ghost function StakesShown(e: Entries, t: Base): (m: map<Addr, Stake>)
    ensures forall a :: a in m <==> StakeIn(Visible(e, t, StakeSlot(a))).Some?
    ensures forall a :: a in m ==> m[a] == StakeIn(Visible(e, t, StakeSlot(a))).value
  {
    var m := map k | k in e.Keys + t.Keys && k.StakeSlot? && StakeIn(Visible(e, t, k)).Some?
               :: k.addr := StakeIn(Visible(e, t, k)).value;
    assert forall a :: StakeIn(Visible(e, t, StakeSlot(a))).Some? ==> StakeSlot(a) in e.Keys + t.Keys;
    m
  }

  ghost function AliasesShown(e: Entries, t: Base): (m: map<Alias, Addr>)
    ensures forall a :: a in m <==> AliasIn(Visible(e, t, AliasSlot(a))).Some?
    ensures forall a :: a in m ==> m[a] == AliasIn(Visible(e, t, AliasSlot(a))).value
  {
    var m := map k | k in e.Keys + t.Keys && k.AliasSlot? && AliasIn(Visible(e, t, k)).Some?
               :: k.alias := AliasIn(Visible(e, t, k)).value;
    assert forall a :: AliasIn(Visible(e, t, AliasSlot(a))).Some? ==> AliasSlot(a) in e.Keys + t.Keys;
    m
  }

  /** The ledger that a reader of the overlay finds. */
  ghost function Shown(e: Entries, t: Base): State {
    State(AccountsShown(e, t), StakesShown(e, t), CandidatesIn(Visible(e, t, CandidateSlot)), AliasesShown(e, t))
  }

  /** The overlays show the same under every key but one. */
  ghost predicate SameBut(e: Entries, t: Base, e': Entries, t': Base, k: Slot) {
    forall x :: x != k ==> Visible(e', t', x) == Visible(e, t, x)
  }

  lemma SameAccounts(e: Entries, t: Base, e': Entries, t': Base)
    requires forall a :: Visible(e', t', AccountSlot(a)) == Visible(e, t, AccountSlot(a))
    ensures AccountsShown(e', t') == AccountsShown(e, t)
  {
    hide AccountsShown, Visible;
    var m, m' := AccountsShown(e, t), AccountsShown(e', t');
    assert m' == m;
  }

  lemma SameStakes(e: Entries, t: Base, e': Entries, t': Base)
    requires forall a :: Visible(e', t', StakeSlot(a)) == Visible(e, t, StakeSlot(a))
    ensures StakesShown(e', t') == StakesShown(e, t)
  {
    hide StakesShown, Visible;
    var m, m' := StakesShown(e, t), StakesShown(e', t');
    assert m' == m;
  }

  lemma SameAliases(e: Entries, t: Base, e': Entries, t': Base)
    requires forall a :: Visible(e', t', AliasSlot(a)) == Visible(e, t, AliasSlot(a))
    ensures AliasesShown(e', t') == AliasesShown(e, t)
  {
    hide AliasesShown, Visible;
    var m, m' := AliasesShown(e, t), AliasesShown(e', t');
    assert m' == m;
  }

  lemma ShownSame(e: Entries, t: Base, e': Entries, t': Base)
    requires forall k :: Visible(e', t', k) == Visible(e, t, k)
    ensures Shown(e', t') == Shown(e, t)
  {
    hide AccountsShown, StakesShown, AliasesShown, Visible;
    SameAccounts(e, t, e', t');
    SameStakes(e, t, e', t');
    SameAliases(e, t, e', t');
  }

  lemma ShownAccount(e: Entries, t: Base, e': Entries, t': Base, a: Addr, acc: Account)
    requires SameBut(e, t, e', t', AccountSlot(a)) && Visible(e', t', AccountSlot(a)) == [AccountRecord(acc)]
    ensures Shown(e', t') == PutAccount(Shown(e, t), a, acc)
  {
    hide AccountsShown, StakesShown, AliasesShown, Visible;
    assert AccountsShown(e', t') == AccountsShown(e, t)[a := acc] by {
      hide Shown, StakeIn, AliasIn, CandidatesIn;
      var m, m' := AccountsShown(e, t), AccountsShown(e', t');
      assert m' == m[a := acc];
    }
    SameStakes(e, t, e', t');
    SameAliases(e, t, e', t');
  }

  lemma ShownStake(e: Entries, t: Base, e': Entries, t': Base, a: Addr, s: Stake)
    requires SameBut(e, t, e', t', StakeSlot(a)) && Visible(e', t', StakeSlot(a)) == [StakeRecord(s)]
    ensures Shown(e', t') == PutStake(Shown(e, t), a, s)
  {
    hide AccountsShown, StakesShown, AliasesShown, Visible;
    assert StakesShown(e', t') == StakesShown(e, t)[a := s] by {
      hide Shown, AccountIn, AliasIn, CandidatesIn;
      var m, m' := StakesShown(e, t), StakesShown(e', t');
      assert m' == m[a := s];
    }
    SameAccounts(e, t, e', t');
    SameAliases(e, t, e', t');
  }

  lemma ShownCandidates(e: Entries, t: Base, e': Entries, t': Base, list: seq<Addr>)
    requires SameBut(e, t, e', t', CandidateSlot) && Visible(e', t', CandidateSlot) == [CandidateRecord(list)]
    ensures Shown(e', t') == Shown(e, t).(candidates := list)
  {
    hide AccountsShown, StakesShown, AliasesShown, Visible;
    SameAccounts(e, t, e', t');
    SameStakes(e, t, e', t');
    SameAliases(e, t, e', t');
  }

  lemma ShownAlias(e: Entries, t: Base, e': Entries, t': Base, alias: Alias, a: Addr)
    requires SameBut(e, t, e', t', AliasSlot(alias)) && Visible(e', t', AliasSlot(alias)) == [AliasRecord(a)]
    ensures Shown(e', t') == var st := Shown(e, t); st.(aliases := st.aliases[alias := a])
  {
    hide AccountsShown, StakesShown, AliasesShown, Visible;
    assert AliasesShown(e', t') == AliasesShown(e, t)[alias := a] by {
      hide Shown, AccountIn, StakeIn, CandidatesIn;
      var m, m' := AliasesShown(e, t), AliasesShown(e', t');
      assert m' == m[alias := a];
    }
    SameAccounts(e, t, e', t');
    SameStakes(e, t, e', t');
  }

  /** No alias is cached or stored without its address, so that the ones found are the ones taken. */
  ghost predicate AliasesHeld(e: Entries, t: Base) {
    && (forall a :: AliasSlot(a) in e ==> AliasIn(Held(e[AliasSlot(a)])).Some?)
    && (forall a :: AliasSlot(a) in t ==> AliasIn(t[AliasSlot(a)]).Some?)
  }

  ghost predicate NoRepeat(list: seq<Addr>) {
    forall i, j :: 0 <= i < j < |list| ==> list[i] != list[j]
  }

  /** What every operation keeps: aliases are held, and no candidate is listed twice. */
  ghost predicate Sound(e: Entries, t: Base) {
    AliasesHeld(e, t) && NoRepeat(Shown(e, t).candidates)
  }

  /** A list that the codec can read: one that accepts the empty string, or a list that has been written. */
  ghost predicate Readable(e: Entries, t: Base, refuses: bool) {
    Sound(e, t) && (refuses ==> Visible(e, t, CandidateSlot) != [])
  }

  lemma SoundPut(e: Entries, t: Base, k: Slot, v: Slice<Record>)
    requires Sound(e, t)
    requires k.AliasSlot? ==> AliasIn(BytesOf(v)).Some?
    requires k.CandidateSlot? ==> NoRepeat(CandidatesIn(BytesOf(v)))
    ensures Sound(e[k := Cached(v)], t)
  {
  }

  lemma SoundCopied(e: Entries, t: Base, e': Entries)
    requires Sound(e, t) && e'.Keys == e.Keys && forall k :: k in e' ==> e'[k] == Copied(e[k])
    ensures Sound(e', t) && Shown(e', t) == Shown(e, t)
    ensures Visible(e', t, CandidateSlot) == Visible(e, t, CandidateSlot)
  {
    assert forall k :: k in e ==> Held(e'[k]) == Held(e[k]);
    ShownSame(e, t, e', t);
  }

  class Store {
    /** The write overlay over the state trie. */
    const db: TransactionStore<Slot, Record>
    /** Blocks between cancelling a credit and getting it back. */
    const interval: nat
    /** Whether the codec fails on the empty string where a list of candidates is expected. */
    const refuses: bool

    constructor (db: TransactionStore<Slot, Record>, interval: nat, refuses: bool)
      ensures this.db == db && this.interval == interval && this.refuses == refuses
    {
      this.db, this.interval, this.refuses := db, interval, refuses;
    }

    ghost function View(): State
      reads db, db.dirties
    {
      Shown(db.dirties.entries, db.trie)
    }

    ghost predicate Valid()
      reads db, db.dirties
    {
      Readable(db.dirties.entries, db.trie, refuses)
    }

    /** The same, for a list that may have become unreadable. */
    ghost predicate Loose()
      reads db, db.dirties
    {
      Sound(db.dirties.entries, db.trie)
    }

    /** The list of candidates is found as the empty string, and the codec fails on it. */
    ghost predicate Stuck()
      reads db, db.dirties
    {
      refuses && db.Exists(CandidateSlot) && db.Seen(CandidateSlot) == []
    }

    lemma ValidIsLoose()
      requires Valid()
      ensures Loose() && !Stuck()
    {
    }

    // ---- records ----

    /** Reading a record caches it, which nobody sees. */
    method GetStorage(a: Addr) returns (storage: Option<Account>)
      requires Valid()
      modifies db.dirties
      ensures Valid() && View() == old(View())
      ensures storage == if a in View().accounts then Some(View().accounts[a]) else None
    {
      var value := Read(AccountSlot(a));
      storage := AccountIn(BytesOf(value));
    }

    method PutStorage(a: Addr, storage: Account)
      requires Valid()
      modifies db.dirties
      ensures Valid() && View() == PutAccount(old(View()), a, storage)
    {
      Write(AccountSlot(a), [AccountRecord(storage)]);
      ShownAccount(old(db.dirties.entries), db.trie, db.dirties.entries, db.trie, a, storage);
    }

    method GetStakeStorage(a: Addr) returns (storage: Option<Stake>)
      requires Valid()
      modifies db.dirties
      ensures Valid() && View() == old(View())
      ensures storage == if a in View().stakes then Some(View().stakes[a]) else None
    {
      var value := Read(StakeSlot(a));
      storage := StakeIn(BytesOf(value));
    }

    method PutStakeStorage(a: Addr, storage: Stake)
      requires Valid()
      modifies db.dirties
      ensures Valid() && View() == PutStake(old(View()), a, storage)
    {
      Write(StakeSlot(a), [StakeRecord(storage)]);
      ShownStake(old(db.dirties.entries), db.trie, db.dirties.entries, db.trie, a, storage);
    }

    method GetCandidateAddrs() returns (ok: bool, addrs: seq<Addr>)
      requires Loose()
      modifies db.dirties
      ensures Loose() && View() == old(View()) && Stuck() == old(Stuck()) && (old(Valid()) ==> Valid())
      ensures ok == !Stuck() && addrs == View().candidates && (!ok ==> addrs == [])
      ensures CandidateSlot !in old(db.dirties.entries) && CandidateSlot !in db.trie ==>
        db.dirties.entries == old(db.dirties.entries)[CandidateSlot := Cached(NilSlice)]
    {
      var value := Read(CandidateSlot);
      if value.NilSlice? {
        return true, [];
      }
      if refuses && value.data == [] {
        return false, [];
      }
      return true, CandidatesIn(value.data);
    }

    method Read(k: Slot) returns (value: Slice<Record>)
      requires Loose() && !k.AliasSlot?
      modifies db.dirties
      ensures Loose() && View() == old(View()) && Stuck() == old(Stuck()) && (old(Valid()) ==> Valid())
      ensures BytesOf(value) == Visible(old(db.dirties.entries), db.trie, k) && (value.Slice? <==> old(db.Exists(k)))
      ensures k !in old(db.dirties.entries) ==> db.dirties.entries == old(db.dirties.entries)[k := Cached(value)]
    {
      value := db.Get(k);
      ReadSound(old(db.dirties.entries), db.dirties.entries, db.trie, k, value);
    }

    method Write(k: Slot, value: seq<Record>)
      requires Loose() && !k.AliasSlot? && (k.CandidateSlot? ==> value != [] && NoRepeat(CandidatesIn(value)))
      modifies db.dirties
      ensures Loose() && (old(Valid()) ==> Valid())
      ensures SameBut(old(db.dirties.entries), db.trie, db.dirties.entries, db.trie, k)
      ensures Visible(db.dirties.entries, db.trie, k) == value
    {
      SoundPut(db.dirties.entries, db.trie, k, Slice(value));
      db.Put(k, Slice(value));
    }

    // ---- accounts ----

    method SetBalance(a: Addr, balance: int)
      requires Valid()
      modifies db.dirties
      ensures Valid() && View() == L.SetBalance(old(View()), a, balance)
    {
      hide Store.View, Store.Valid;
      var storage := GetStorage(a);
      PutStorage(a, storage.GetOr(NO_ACCOUNT).(balance := balance));
    }

    method PutNonce(a: Addr, nonce: nat)
      requires Valid()
      modifies db.dirties
      ensures Valid() && View() == L.PutNonce(old(View()), a, nonce)
    {
      hide Store.View, Store.Valid;
      var storage := GetStorage(a);
      PutStorage(a, storage.GetOr(NO_ACCOUNT).(nonce := nonce));
    }

    method GetNonce(a: Addr) returns (nonce: nat)
      requires Valid()
      modifies db.dirties
      ensures Valid() && View() == old(View()) && nonce == AccountOf(View(), a).nonce
    {
      hide Store.View, Store.Valid;
      var storage := GetStorage(a);
      nonce := storage.GetOr(NO_ACCOUNT).nonce;
    }

    // ---- matured credits ----

    method GetCancelCreditForBalance(a: Addr, height: nat) returns (total: int)
      requires Valid()
      modifies db.dirties
      ensures Valid() && View() == old(View())
      ensures total == Matured(StakeOf(View(), a).cc, height, interval)
    {
      hide Store.View, Store.Valid;
      var stored := GetStakeStorage(a);
      if stored.None? {
        return 0;
      }
      var storage := stored.value;
      total := 0;
      var i := 0;
      while i < |storage.cc|
        invariant 0 <= i <= |storage.cc|
        invariant Valid() && View() == old(View())
        invariant total == Matured(storage.cc[..i], height, interval)
      {
        var cc := storage.cc[i];
        assert storage.cc[..i + 1][..i] == storage.cc[..i];
        if height >= cc.height + interval {
          var sum := SumLoop(cc.values);
          total := total + sum;
        }
        i := i + 1;
      }
      assert storage.cc[..i] == storage.cc;
    }

    static method SumLoop(values: seq<int>) returns (total: int)
      ensures total == Sum(values)
    {
      total := 0;
      var i := 0;
      while i < |values|
        invariant 0 <= i <= |values|
        invariant total == Sum(values[..i])
      {
        assert values[..i + 1][..i] == values[..i];
        total := total + values[i];
        i := i + 1;
      }
      assert values[..i] == values;
    }

    /** The loop of CancelCreditToBalance: sums the matured credits and moves the rest to the front of the list. */
    static method Compact(all: seq<CancelCredit>, height: nat, interval: nat)
      returns (total: int, waiting: seq<CancelCredit>)
      ensures total == Matured(all, height, interval) && waiting == Waiting(all, height, interval)
    {
      var cc := all;
      total := 0;
      var left, i := 0, 0;
      while i < |cc|
        invariant 0 <= left <= i <= |all| == |cc|
        invariant total == Matured(all[..i], height, interval)
        invariant cc[..left] == Waiting(all[..i], height, interval)
        invariant cc[i..] == all[i..]
      {
        var c := cc[i];
        assert c == cc[i..][0] == all[i];
        assert all[..i + 1][..i] == all[..i];
        if height >= c.height + interval {
          var sum := SumLoop(c.values);
          total := total + sum;
          assert Waiting(all[..i + 1], height, interval) == Waiting(all[..i], height, interval) + [];
        } else {
          ghost var was := cc;
          cc := cc[left := c];
          assert cc[..left + 1] == was[..left] + [c];
          left := left + 1;
        }
        assert cc[i + 1..] == all[i..][1..] == all[i + 1..];
        i := i + 1;
      }
      assert all[..i] == all;
      waiting := cc[..left];
    }

    method CancelCreditToBalance(a: Addr, height: nat) returns (total: int)
      requires Valid()
      modifies db.dirties
      ensures total == Matured(StakeOf(old(View()), a).cc, height, interval)
      ensures Valid() && View() == TakeMatured(old(View()), a, height, interval)
    {
      hide Store.View, Store.Valid;
      var stored := GetStakeStorage(a);
      if stored.None? {
        return 0;
      }
      var waiting;
      total, waiting := Compact(stored.value.cc, height, interval);
      PutStakeStorage(a, stored.value.(cc := waiting));
    }

    // ---- balances over matured credits ----

    method GetBalance(a: Addr, height: nat) returns (b: int)
      requires Valid()
      modifies db.dirties
      ensures Valid() && View() == old(View()) && b == L.GetBalance(View(), a, height, interval)
    {
      hide Store.View, Store.Valid;
      var credit := GetCancelCreditForBalance(a, height);
      var storage := GetStorage(a);
      b := credit + storage.GetOr(NO_ACCOUNT).balance;
    }

    method AddAccountBalance(a: Addr, amount: int)
      requires Valid()
      modifies db.dirties
      ensures Valid() && View() == L.SetBalance(old(View()), a, AccountOf(old(View()), a).balance + amount)
    {
      hide Store.View, Store.Valid;
      var storage := GetStorage(a);
      SetBalance(a, storage.GetOr(NO_ACCOUNT).balance + amount);
    }

    method PutBalance(a: Addr, height: nat, balance: int)
      requires Valid()
      modifies db.dirties
      ensures Valid() && View() == L.PutBalance(old(View()), a, height, interval, balance)
    {
      hide Store.View, Store.Valid;
      if height != 0 {
        var voteCredit := CancelCreditToBalance(a, height);
        AddAccountBalance(a, voteCredit);
      }
      SetBalance(a, balance);
    }

    method AddBalance(a: Addr, height: nat, amount: int)
      requires Valid()
      modifies db.dirties
      ensures Valid() && View() == L.AddBalance(old(View()), a, height, interval, amount)
    {
      hide Store.View, Store.Valid;
      var voteCredit := CancelCreditToBalance(a, height);
      AddAccountBalance(a, amount + voteCredit);
    }

    method SubBalance(a: Addr, height: nat, amount: int)
      requires Valid()
      modifies db.dirties
      ensures Valid() && View() == L.AddBalance(old(View()), a, height, interval, -amount)
    {
      hide Store.View, Store.Valid;
      var voteCredit := CancelCreditToBalance(a, height);
      AddAccountBalance(a, voteCredit);
      AddAccountBalance(a, -amount);
    }

    // ---- pledges ----

    /** The search loop over received credits that VoteCredit and CandidateCredit share. */
    static method Append(rc: seq<ReceivedCredit>, a: Addr, hv: HeightValue)
      returns (rc': seq<ReceivedCredit>, before: int)
      ensures rc' == AddCredit(rc, a, hv)
      ensures before == var i := FindRc(rc, a); if i >= 0 then CreditSum(rc[i].values) else 0
    {
      var index := 0;
      while index < |rc|
        invariant 0 <= index <= |rc|
        invariant forall j :: 0 <= j < index ==> rc[j].addr != a
      {
        if rc[index].addr == a {
          FindRcIs(rc, a, index);
          before := CreditLoop(rc[index].values);
          rc' := rc[index := rc[index].(values := rc[index].values + [hv])];
          return;
        }
        index := index + 1;
      }
      rc', before := rc + [ReceivedCredit(a, [hv])], 0;
    }

    static method CreditLoop(values: seq<HeightValue>) returns (total: int)
      ensures total == CreditSum(values)
    {
      total := 0;
      var i := 0;
      while i < |values|
        invariant 0 <= i <= |values|
        invariant total + CreditSum(values[i..]) == CreditSum(values)
      {
        assert values[i..][1..] == values[i + 1..];
        total := total + values[i].value;
        i := i + 1;
      }
    }

    method VoteCredit(from: Addr, to: Addr, amount: int, height: nat) returns (err: Error)
      requires Valid()
      modifies db.dirties
      ensures Valid() && Result(View(), err) == C.VoteCredit(old(View()), from, to, amount, height)
    {
      hide Store.View, Store.Valid;
      if from == to {
        return SameAddress;
      }
      var stored := GetStakeStorage(to);
      var storage := stored.GetOr(NO_STAKE);
      var rc, _ := Append(storage.rc, from, HeightValue(height, amount));
      PutStakeStorage(to, storage.(rc := rc));
      return NoError;
    }

    method PutCandidateAddrs(addrs: seq<Addr>)
      requires Loose() && NoRepeat(addrs)
      modifies db.dirties
      ensures Loose() && (old(Valid()) ==> Valid()) && View() == old(View()).(candidates := addrs)
    {
      Write(CandidateSlot, [CandidateRecord(addrs)]);
      ShownCandidates(old(db.dirties.entries), db.trie, db.dirties.entries, db.trie, addrs);
    }

    /** Adds the candidate, unless the list cannot be read; the callers do not look at the error. */
    method AddCandidateAddr(a: Addr)
      requires Loose()
      modifies db.dirties
      ensures Loose() && (old(Valid()) ==> Valid())
      ensures View() == if old(Stuck()) then old(View())
                        else old(View()).(candidates := AddCandidate(old(View()).candidates, a))
      ensures old(Stuck()) ==> Stuck()
    {
      hide Store.View, Store.Valid, Store.Loose, Store.Stuck;
      var ok, addrs := GetCandidateAddrs();
      if !ok {
        return;
      }
      CandidatesApart();
      var index := 0;
      while index < |addrs|
        invariant 0 <= index <= |addrs|
        invariant Loose() && (old(Valid()) ==> Valid()) && View() == old(View())
        invariant a !in addrs[..index]
      {
        if addrs[index] == a {
          return;
        }
        index := index + 1;
      }
      assert addrs[..index] == addrs;
      PutCandidateAddrs(addrs + [a]);
    }

    /** No candidate is listed twice. */
    lemma CandidatesApart()
      requires Loose()
      ensures NoRepeat(View().candidates)
    {
    }

    /** The loop runs over the list as it was while the entries behind the one found move up in place. */
    static method Cut(addrs: seq<Addr>, a: Addr) returns (left: seq<Addr>)
      requires NoRepeat(addrs)
      ensures left == DropCandidate(addrs, a) && NoRepeat(left)
    {
      var buf, n := addrs, |addrs|;
      ghost var p: nat := |addrs|;
      var index := 0;
      while index < |addrs|
        invariant 0 <= index <= |addrs| == |buf|
        invariant p <= |addrs|
        invariant p == |addrs| ==> buf == addrs && n == |addrs| && a !in addrs[..index]
        invariant p < |addrs| ==>
          p < index && n == |addrs| - 1 && addrs[p] == a && buf == addrs[..p] + addrs[p + 1..] + [addrs[n]]
      {
        if buf[index] == a {
          if p == |addrs| {
            p := index;
          } else {
            assert false;
          }
          buf := buf[..index] + buf[index + 1..n] + buf[n - 1..];
          n := n - 1;
        }
        index := index + 1;
      }
      left := buf[..n];
      Dropped(addrs, a, p);
    }

    method DelCandidateAddr(a: Addr)
      requires Loose()
      modifies db.dirties
      ensures Loose() && (old(Valid()) ==> Valid())
      ensures View() == old(View()).(candidates := DropCandidate(old(View()).candidates, a))
    {
      hide Store.View, Store.Valid, Store.Loose, Store.Stuck;
      var ok, addrs := GetCandidateAddrs();
      CandidatesApart();
      if !ok || |addrs| == 0 {
        return;
      }
      var left := Cut(addrs, a);
      PutCandidateAddrs(left);
    }

    method CandidateCredit(a: Addr, amount: int, data: Option<seq<nat>>, height: nat) returns (err: Error)
      requires Valid()
      modifies db.dirties
      ensures Valid() && Result(View(), err) == C.CandidateCredit(old(View()), a, amount, data, height)
    {
      hide Store.View, Store.Valid;
      var stored := GetStakeStorage(a);
      var storage := stored.GetOr(NO_STAKE);
      var rc, before := Append(storage.rc, a, HeightValue(height, amount));
      var totalBalance := amount + before;
      if totalBalance >= PLEDGE_LIMIT {
        ValidIsLoose();
        AddCandidateAddr(a);
      }
      if data.None? {
        return BadCandidateData;
      }
      PutStakeStorage(a, storage.(rc := rc, data := data.value));
      return NoError;
    }

    // ---- cancelling pledges ----

    /** The inner loop of cancelCredit: whole credits from the front, then part of one. */
    static method TakeFront(values: seq<HeightValue>, amount: int)
      returns (left: seq<HeightValue>, principal: seq<HeightValue>)
      requires CreditSum(values) >= amount
      ensures left == Left(values, amount) && principal == Taken(values, amount)
    {
      hide Left, Taken, CreditSum;
      principal := [];
      left := values;
      var tmp := amount;
      var i := 0;
      while i < |values|
        invariant 0 <= i <= |values|
        invariant left == values
        invariant tmp <= CreditSum(values[i..])
        invariant Left(values, amount) == Left(values[i..], tmp)
        invariant Taken(values, amount) == principal + Taken(values[i..], tmp)
        invariant i > 0 ==> tmp > 0
      {
        var hv := values[i];
        ghost var rest := values[i..];
        assert rest[0] == hv && rest[1..] == values[i + 1..];
        FrontStep(rest, tmp);
        if tmp >= hv.value {
          principal := principal + [hv];
          tmp := tmp - hv.value;
          if tmp == 0 {
            left := values[i + 1..];
            return;
          }
        } else {
          principal := principal + [HeightValue(hv.height, tmp)];
          left := [HeightValue(hv.height, hv.value - tmp)] + values[i + 1..];
          return;
        }
        i := i + 1;
      }
      assert values[i..] == [];
      FrontDone(tmp);
    }

    /** cancelCredit up to its callback: the credits of the pledge's holder, cut. */
    static method TakeBack(storage: Stake, from: Addr, amount: int)
      returns (err: Error, rc: seq<ReceivedCredit>, leftCredit: int, principal: seq<HeightValue>)
      ensures var i := FindRc(storage.rc, from);
              && err == (if i < 0 then NoSuchCredit
                         else if CreditSum(storage.rc[i].values) >= amount then NoError else CreditNotEnough)
              && (err == NoError ==>
                    && rc == CutRc(storage.rc, i, amount)
                    && leftCredit == CreditSum(storage.rc[i].values) - amount
                    && principal == Taken(storage.rc[i].values, amount))
    {
      rc, leftCredit, principal := storage.rc, 0, [];
      if |rc| == 0 {
        return NoSuchCredit, rc, 0, [];
      }
      var index := 0;
      while index < |rc|
        invariant 0 <= index <= |rc| && rc == storage.rc
        invariant forall j :: 0 <= j < index ==> rc[j].addr != from
      {
        if rc[index].addr == from {
          FindRcIs(rc, from, index);
          leftCredit := CreditLoop(rc[index].values);
          if leftCredit >= amount {
            leftCredit := leftCredit - amount;
            var left;
            left, principal := TakeFront(rc[index].values, amount);
            if |left| == 0 {
              rc := rc[..index] + rc[index + 1..];
            } else {
              rc := rc[index := rc[index].(values := left)];
            }
            return NoError, rc, leftCredit, principal;
          }
          return CreditNotEnough, rc, 0, [];
        }
        index := index + 1;
      }
      return NoSuchCredit, rc, 0, [];
    }

    /** cancelCredit after its callback: the amount under its height. */
    static method Record(cc: seq<CancelCredit>, height: nat, amount: int) returns (cc': seq<CancelCredit>)
      ensures cc' == AddCancel(cc, height, amount)
    {
      var index := 0;
      while index < |cc|
        invariant 0 <= index <= |cc|
        invariant forall j :: 0 <= j < index ==> cc[j].height != height
      {
        if cc[index].height == height {
          FindCcIs(cc, height, index);
          cc' := cc[index := cc[index].(values := cc[index].values + [amount])];
          return;
        }
        index := index + 1;
      }
      cc' := cc + [CancelCredit(height, [amount])];
    }

    method CancelVoteCredit(from: Addr, to: Addr, amount: int, height: nat)
      returns (err: Error, principal: seq<HeightValue>)
      requires Valid()
      modifies db.dirties
      ensures Valid() && Result(View(), err) == C.CancelVoteCredit(old(View()), from, to, amount, height)
      ensures err == NoError ==>
        var rc := StakeOf(old(View()), to).rc; principal == Taken(rc[FindRc(rc, from)].values, amount)
    {
      hide Store.View, Store.Valid;
      principal := [];
      if from == to {
        return SameAddress, [];
      }
      if amount <= 0 {
        return NotPositive, [];
      }
      var stored := GetStakeStorage(to);
      var storage := stored.GetOr(NO_STAKE);
      var rc, leftCredit;
      err, rc, leftCredit, principal := TakeBack(storage, from, amount);
      if err != NoError {
        return err, [];
      }
      PutStakeStorage(to, storage.(rc := rc));
      stored := GetStakeStorage(from);
      storage := stored.GetOr(NO_STAKE);
      var cc := Record(storage.cc, height, amount);
      PutStakeStorage(from, storage.(cc := cc));
    }

    method CancelCandidateCredit(a: Addr, amount: int, height: nat)
      returns (err: Error, principal: seq<HeightValue>)
      requires Valid()
      modifies db.dirties
      ensures Valid() && Result(View(), err) == C.CancelCandidateCredit(old(View()), a, amount, height)
      ensures err == NoError ==>
        var rc := StakeOf(old(View()), a).rc; principal == Taken(rc[FindRc(rc, a)].values, amount)
    {
      hide Store.View, Store.Valid;
      var stored := GetStakeStorage(a);
      var storage := stored.GetOr(NO_STAKE);
      var rc, leftCredit;
      err, rc, leftCredit, principal := TakeBack(storage, a, amount);
      if err != NoError {
        return err, [];
      }
      if leftCredit < PLEDGE_LIMIT {
        ValidIsLoose();
        DelCandidateAddr(a);
      }
      var cc := Record(storage.cc, height, amount);
      PutStakeStorage(a, storage.(rc := rc, cc := cc));
    }

    // ---- aliases and snapshots ----

    /** An alias is taken when a value is found under it, be it empty. Reading and writing it come together. */
    method AliasPut(alias: Alias, a: Addr) returns (free: bool)
      requires Valid()
      modifies db.dirties
      ensures Valid() && free == (alias !in old(View()).aliases)
      ensures View() == if free then old(View()).(aliases := old(View()).aliases[alias := a]) else old(View())
    {
      var k := AliasSlot(alias);
      var value := db.Get(k);
      ghost var e := old(db.dirties.entries);
      if value.Slice? {
        AliasTaken(e, db.dirties.entries, db.trie, alias, value);
        return false;
      }
      db.Put(k, Slice([AliasRecord(a)]));
      AliasFree(e, db.dirties.entries, db.trie, alias, a);
      return true;
    }

    method AliasSet(a: Addr, alias: Alias) returns (err: Error)
      requires Valid()
      modifies db.dirties
      ensures err == (if alias == [] then BadAlias else if alias in old(View()).aliases then UsedAlias else NoError)
      ensures Valid() && (err != NoError ==> View() == old(View()))
      ensures err == NoError ==>
        View() == PutAccount(old(View()), a, AccountOf(old(View()), a).(alias := alias)).(
                    aliases := old(View()).aliases[alias := a])
    {
      hide Store.View, Store.Valid;
      if alias != [] {
        var free := AliasPut(alias, a);
        if !free {
          return UsedAlias;
        }
      } else {
        return BadAlias;
      }
      var storage := GetStorage(a);
      PutStorage(a, storage.GetOr(NO_ACCOUNT).(alias := alias));
      return NoError;
    }

    /** A copy of the overlay's map; it shows the ledger as it is now. */
    method CopyState() returns (snap: SyncMap<Slot, Record>)
      requires Loose()
      ensures fresh(snap) && Sound(snap.entries, db.trie) && Shown(snap.entries, db.trie) == View()
      ensures Valid() ==> Readable(snap.entries, db.trie, refuses)
      ensures CandidateSlot in db.dirties.entries ==>
        CandidateSlot in snap.entries && snap.entries[CandidateSlot] == Copied(db.dirties.entries[CandidateSlot])
    {
      snap := db.CopyState();
      SoundCopied(db.dirties.entries, db.trie, snap.entries);
    }

    /** The copy becomes the overlay's map. */
    method RevertState(snap: SyncMap<Slot, Record>)
      requires Sound(snap.entries, db.trie)
      modifies db
      ensures db.dirties == snap && db.trie == old(db.trie)
      ensures Loose() && View() == Shown(snap.entries, db.trie)
      ensures Readable(snap.entries, db.trie, refuses) ==> Valid()
    {
      db.RevertState(snap);
    }
  }

  /**
   With a codec that fails on the empty string, a list that was never written is lost for good once it
   has been read before a revert: no candidate can be added to it.
   */
  method ListStuck(s: Store, a: Addr)
    requires s.Loose() && s.refuses && CandidateSlot !in s.db.dirties.entries && CandidateSlot !in s.db.trie
    modifies s.db, s.db.dirties
    ensures s.Loose() && s.Stuck() && s.View().candidates == []
  {
    var _, none := s.GetCandidateAddrs();
    var snap := s.CopyState();
    s.RevertState(snap);
    assert s.Stuck();
    s.AddCandidateAddr(a);
  }

  lemma ReadSound(e: Entries, e': Entries, t: Base, k: Slot, v: Slice<Record>)
    requires Sound(e, t) && !k.AliasSlot? && BytesOf(v) == Visible(e, t, k)
    requires e' == if k in e then e else e[k := Cached(v)]
    ensures Sound(e', t) && Shown(e', t) == Shown(e, t)
    ensures Visible(e', t, CandidateSlot) == Visible(e, t, CandidateSlot)
  {
    ShownSame(e, t, e', t);
  }

  lemma AliasTaken(e: Entries, e': Entries, t: Base, alias: Alias, v: Slice<Record>)
    requires Sound(e, t) && v.Slice? && BytesOf(v) == Visible(e, t, AliasSlot(alias))
    requires AliasSlot(alias) in e || AliasSlot(alias) in t
    requires e' == if AliasSlot(alias) in e then e else e[AliasSlot(alias) := Cached(v)]
    ensures Sound(e', t) && Shown(e', t) == Shown(e, t) && alias in Shown(e, t).aliases
  {
    ShownSame(e, t, e', t);
  }

  lemma AliasFree(e: Entries, e': Entries, t: Base, alias: Alias, a: Addr)
    requires Sound(e, t) && AliasSlot(alias) !in e && AliasSlot(alias) !in t
    requires forall k :: k != AliasSlot(alias) ==> Visible(e', t, k) == Visible(e, t, k)
    requires e' == e[AliasSlot(alias) := Cached(Slice([AliasRecord(a)]))]
    ensures alias !in Shown(e, t).aliases && Sound(e', t)
    ensures Shown(e', t) == Shown(e, t).(aliases := Shown(e, t).aliases[alias := a])
  {
    ShownAlias(e, t, e', t, alias, a);
    SoundPut(e, t, AliasSlot(alias), Slice([AliasRecord(a)]));
  }

  /** What is left of a list without repetition when the entry at p, if it is in the list, goes. */
  lemma {:induction false} Dropped(addrs: seq<Addr>, a: Addr, p: nat)
    requires NoRepeat(addrs) && p <= |addrs| && (if p < |addrs| then addrs[p] == a else a !in addrs)
    ensures DropCandidate(addrs, a) == if p < |addrs| then addrs[..p] + addrs[p + 1..] else addrs
    ensures NoRepeat(DropCandidate(addrs, a))
  {
    if addrs != [] {
      if p == 0 {
        Dropped(addrs[1..], a, |addrs| - 1);
      } else {
        Dropped(addrs[1..], a, p - 1);
      }
    }
  }

  lemma FindRcIs(rc: seq<ReceivedCredit>, a: Addr, i: nat)
    requires i < |rc| && rc[i].addr == a && forall j :: 0 <= j < i ==> rc[j].addr != a
    ensures FindRc(rc, a) == i
  {
  }

  lemma FindCcIs(cc: seq<CancelCredit>, height: nat, i: nat)
    requires i < |cc| && cc[i].height == height && forall j :: 0 <= j < i ==> cc[j].height != height
    ensures FindCc(cc, height) == i
  {
  }
}
