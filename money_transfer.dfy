/** The two-phase money transfer of src/money_transfer.rs: account balances,
    a program counter per transfer request, the three operations that move
    a request through "start_transfer", "complete_transfer" and "done", the
    consistency invariant, and the state's hash input, which visits both maps
    in ascending key order.  The source's test registers deposit and two
    requests from Alice to Bob with the engine; `CheckTransfers` does the
    same with the model of the engine. */
module MoneyTransfer {
  import opened Explore
  import opened Checker
  import opened Ordering

  /** Balances are Rust `i64` values and request ids `i64` keys; both are
      unbounded here. */
  datatype State = State(balances: map<string, int>, pc: map<int, string>)

  const Start: string := "start_transfer"
  const Complete: string := "complete_transfer"
  const Done: string := "done"

  /** The moves a request's program counter may make in one operation. */
  predicate Advances(before: string, after: string)
  {
    before == after || (before == Start && after == Complete) || (before == Complete && after == Done)
  }

  /** The sum of the balances of the listed accounts; a token that names no
      account adds nothing. */
  function SumOf(b: map<string, int>, keys: seq<Token>): int
  {
    if keys == [] then 0
    else (if keys[0].Text? && keys[0].text in b then b[keys[0].text] else 0) + SumOf(b, keys[1..])
  }

  /** `keys` lists every account of `b` exactly once, in some order; the sum
      of the balances over such a listing is the total held. */
  predicate ListsAccounts(keys: seq<Token>, b: map<string, int>)
  {
    Elements(keys) == BalanceKeys(b) && Distinct(keys)
  }

  // ---------------------------------------------------------------------
  // The operations

  /** `deposit`: add `amount` to an existing account. */
  function Deposit(s: State, account: string, amount: int): (r: State)
    requires account in s.balances
    ensures r.pc == s.pc && r.balances.Keys == s.balances.Keys
    ensures r.balances[account] == s.balances[account] + amount
    ensures forall a :: a in s.balances && a != account ==> r.balances[a] == s.balances[a]
  {
    s.(balances := s.balances[account := s.balances[account] + amount])
  }

  /** `start_transfer`: a request still at "start_transfer" moves on when
      `from` can cover `amount`; balances are not touched. */
  function StartTransfer(s: State, r: int, from: string, to: string, amount: int): (t: State)
    requires r in s.pc && (s.pc[r] == Start ==> from in s.balances)
    ensures t.balances == s.balances && t.pc.Keys == s.pc.Keys
    ensures forall x :: x in s.pc && x != r ==> t.pc[x] == s.pc[x]
    ensures forall x :: x in s.pc ==> Advances(s.pc[x], t.pc[x])
    ensures s.pc[r] != Start ==> t == s
    ensures s.pc[r] == Start ==> (t.pc[r] == Complete <==> s.balances[from] - amount >= 0)
  {
    if s.pc[r] != Start then s
    else if s.balances[from] - amount >= 0 then s.(pc := s.pc[r := Complete])
    else s
  }

  /** `complete_transfer`: a request at "complete_transfer" debits `from`,
      credits `to` and is done.  The funds are not checked again. */
  function CompleteTransfer(s: State, r: int, from: string, to: string, amount: int): (t: State)
    requires r in s.pc && (s.pc[r] == Complete ==> from in s.balances && to in s.balances)
    ensures t.balances.Keys == s.balances.Keys && t.pc.Keys == s.pc.Keys
    ensures forall x :: x in s.pc && x != r ==> t.pc[x] == s.pc[x]
    ensures forall x :: x in s.pc ==> Advances(s.pc[x], t.pc[x])
    ensures s.pc[r] != Complete ==> t == s
    ensures s.pc[r] == Complete ==>
      && t.pc[r] == Done
      && (from != to ==> t.balances[from] == s.balances[from] - amount && t.balances[to] == s.balances[to] + amount)
      && (from == to ==> t.balances == s.balances)
      && forall a :: a in s.balances && a != from && a != to ==> t.balances[a] == s.balances[a]
  {
    if s.pc[r] != Complete then s
    else
      var debited := s.balances[from := s.balances[from] - amount];
      var credited := debited[to := debited[to] + amount];
      State(credited, s.pc[r := Done])
  }

  /** `consistency`: no balance is negative. */
  predicate Consistency(s: State)
  {
    forall a :: a in s.balances ==> s.balances[a] >= 0
  }

  // ---------------------------------------------------------------------
  // The sum of balances

  /** Changing one existing balance changes a sum over a listing without
      repetitions by the difference when the account is listed. */
  lemma {:induction false} SumOfUpdate(b: map<string, int>, keys: seq<Token>, k: string, v: int)
    requires k in b && Distinct(keys)
    ensures SumOf(b[k := v], keys) == SumOf(b, keys) + (if Text(k) in keys then v - b[k] else 0)
    decreases |keys|
  {
    if keys != [] {
      SumOfUpdate(b, keys[1..], k, v);
      assert keys[0] == Text(k) ==> Text(k) !in keys[1..];
      assert Text(k) in keys <==> keys[0] == Text(k) || Text(k) in keys[1..];
    }
  }

  /** Changing one existing balance changes the total by the difference. */
  lemma TotalUpdate(b: map<string, int>, keys: seq<Token>, k: string, v: int)
    requires k in b && ListsAccounts(keys, b)
    ensures ListsAccounts(keys, b[k := v])
    ensures SumOf(b[k := v], keys) == SumOf(b, keys) - b[k] + v
  {
    assert b[k := v].Keys == b.Keys;
    assert BalanceKeys(b[k := v]) == BalanceKeys(b);
    assert Text(k) in Elements(keys);
    SumOfUpdate(b, keys, k, v);
  }

  /** `deposit` adds exactly `amount` to the total. */
  lemma DepositTotal(s: State, account: string, amount: int, keys: seq<Token>)
    requires account in s.balances && ListsAccounts(keys, s.balances)
    ensures SumOf(Deposit(s, account, amount).balances, keys) == SumOf(s.balances, keys) + amount
  {
    assert Deposit(s, account, amount).balances == s.balances[account := s.balances[account] + amount];
    TotalUpdate(s.balances, keys, account, s.balances[account] + amount);
  }

  /** `complete_transfer` moves money between accounts: the total is preserved. */
  lemma CompleteTransferTotal(s: State, r: int, from: string, to: string, amount: int, keys: seq<Token>)
    requires r in s.pc && (s.pc[r] == Complete ==> from in s.balances && to in s.balances)
    requires ListsAccounts(keys, s.balances)
    ensures SumOf(CompleteTransfer(s, r, from, to, amount).balances, keys) == SumOf(s.balances, keys)
  {
    var t := CompleteTransfer(s, r, from, to, amount);
    if s.pc[r] == Complete {
      var debited := s.balances[from := s.balances[from] - amount];
      assert t.balances == debited[to := debited[to] + amount];
      TotalUpdate(s.balances, keys, from, s.balances[from] - amount);
      TotalUpdate(debited, keys, to, debited[to] + amount);
    } else {
      assert t.balances == s.balances;
    }
  }

  /** `complete_transfer` alone does not preserve consistency: it debits
      without checking that the funds are still there. */
  lemma CompleteTransferOverdraws()
    ensures var s := State(map["Alice" := 0, "Bob" := 2], map[1 := Done, 2 := Complete]);
      Consistency(s) && !Consistency(CompleteTransfer(s, 2, "Alice", "Bob", 1))
  {
    var s := State(map["Alice" := 0, "Bob" := 2], map[1 := Done, 2 := Complete]);
    assert CompleteTransfer(s, 2, "Alice", "Bob", 1).balances["Alice"] == -1;
  }

  // ---------------------------------------------------------------------
  // The hash input

  function BalanceKeys(b: map<string, int>): set<Token>
  {
    set a | a in b :: Text(a)
  }

  function PcKeys(pc: map<int, string>): set<Token>
  {
    set r | r in pc :: Int(r)
  }

  /** Each listed account's name, then its balance. */
  function BalanceFeed(b: map<string, int>, keys: seq<Token>): seq<Token>
    requires forall i :: 0 <= i < |keys| ==> keys[i].Text? && keys[i].text in b
  {
    if keys == [] then [] else [keys[0], Int(b[keys[0].text])] + BalanceFeed(b, keys[1..])
  }

  /** Each listed request id, then its program counter. */
  function PcFeed(pc: map<int, string>, keys: seq<Token>): seq<Token>
    requires forall i :: 0 <= i < |keys| ==> keys[i].Int? && keys[i].value in pc
  {
    if keys == [] then [] else [keys[0], Text(pc[keys[0].value])] + PcFeed(pc, keys[1..])
  }

  lemma BalanceKeysListed(b: map<string, int>, keys: seq<Token>)
    requires Elements(keys) == BalanceKeys(b)
    ensures forall i :: 0 <= i < |keys| ==> keys[i].Text? && keys[i].text in b
  {
    assert forall i :: 0 <= i < |keys| ==> keys[i] in Elements(keys);
  }

  lemma PcKeysListed(pc: map<int, string>, keys: seq<Token>)
    requires Elements(keys) == PcKeys(pc)
    ensures forall i :: 0 <= i < |keys| ==> keys[i].Int? && keys[i].value in pc
  {
    assert forall i :: 0 <= i < |keys| ==> keys[i] in Elements(keys);
  }

  /** What the state's `Hash` implementation feeds the hasher: every
      balance entry in ascending account order, then every program-counter
      entry in ascending request order. */
  function HashInput(s: State): seq<Token>
  {
    var accounts := SortedKeys(BalanceKeys(s.balances));
    var requests := SortedKeys(PcKeys(s.pc));
    BalanceKeysListed(s.balances, accounts);
    PcKeysListed(s.pc, requests);
    BalanceFeed(s.balances, accounts) + PcFeed(s.pc, requests)
  }

  /** The keys of a map in the order its iterator yields them, which the
      model leaves open. */
  method CollectKeys(keys: set<Token>) returns (listed: seq<Token>)
    ensures Elements(listed) == keys && Distinct(listed)
  {
    listed := [];
    var rest := keys;
    while rest != {}
      invariant Elements(listed) + rest == keys && Elements(listed) !! rest && Distinct(listed)
      decreases |rest|
    {
      var k :| k in rest;
      listed := listed + [k];
      rest := rest - {k};
    }
  }

  /** The state's `Hash` implementation: collect each map's keys, sort
      them, and feed key and value for each; `fed` is everything written
      to the hasher, in order.  Whatever order the maps yield their keys
      in, sorting leaves the one ascending listing, so the same input results. */
  method FeedHasher(s: State) returns (fed: seq<Token>)
    ensures fed == HashInput(s)
  {
    var accounts := CollectKeys(BalanceKeys(s.balances));
    accounts := Sort(accounts);
    AscendingUnique(accounts, SortedKeys(BalanceKeys(s.balances)));
    BalanceKeysListed(s.balances, accounts);
    var balancePart := FeedBalances(s.balances, accounts);

    var requests := CollectKeys(PcKeys(s.pc));
    requests := Sort(requests);
    AscendingUnique(requests, SortedKeys(PcKeys(s.pc)));
    PcKeysListed(s.pc, requests);
    var pcPart := FeedPcs(s.pc, requests);
    fed := balancePart + pcPart;
  }

  /** The first loop of the `Hash` implementation: each listed account's
      name, then its balance. */
  method FeedBalances(b: map<string, int>, keys: seq<Token>) returns (fed: seq<Token>)
    requires forall i :: 0 <= i < |keys| ==> keys[i].Text? && keys[i].text in b
    ensures fed == BalanceFeed(b, keys)
  {
    fed := [];
    for i := 0 to |keys|
      invariant fed + BalanceFeed(b, keys[i..]) == BalanceFeed(b, keys)
    {
      fed := fed + [keys[i], Int(b[keys[i].text])];
      assert keys[i..][1..] == keys[i + 1..];
    }
    assert keys[|keys|..] == [];
  }

  /** The second loop of the `Hash` implementation: each listed request id,
      then its program counter. */
  method FeedPcs(pc: map<int, string>, keys: seq<Token>) returns (fed: seq<Token>)
    requires forall i :: 0 <= i < |keys| ==> keys[i].Int? && keys[i].value in pc
    ensures fed == PcFeed(pc, keys)
  {
    fed := [];
    for i := 0 to |keys|
      invariant fed + PcFeed(pc, keys[i..]) == PcFeed(pc, keys)
    {
      fed := fed + [keys[i], Text(pc[keys[i].value])];
      assert keys[i..][1..] == keys[i + 1..];
    }
    assert keys[|keys|..] == [];
  }

  // ---------------------------------------------------------------------
  // Recovering the state from its hash input

  function DecodeBalances(t: seq<Token>): (map<string, int>, seq<Token>)
    decreases |t|
  {
    if |t| >= 2 && t[0].Text? && t[1].Int? then
      var (b, rest) := DecodeBalances(t[2..]);
      (b[t[0].text := t[1].value], rest)
    else (map[], t)
  }

  function DecodePcs(t: seq<Token>): map<int, string>
    decreases |t|
  {
    if |t| >= 2 && t[0].Int? && t[1].Text? then DecodePcs(t[2..])[t[0].value := t[1].text] else map[]
  }

  /** Read a hash input back as a state. */
  function Decode(t: seq<Token>): State
  {
    var (b, rest) := DecodeBalances(t);
    State(b, DecodePcs(rest))
  }

  /** The entries of `b` for the listed accounts. */
  function ListedBalances(b: map<string, int>, keys: seq<Token>): (m: map<string, int>)
    requires forall i :: 0 <= i < |keys| ==> keys[i].Text? && keys[i].text in b
    ensures forall a :: a in m <==> Text(a) in keys
    ensures forall a :: a in m ==> m[a] == b[a]
  {
    if keys == [] then map[]
    else
      assert forall x :: x in keys <==> x == keys[0] || x in keys[1..];
      ListedBalances(b, keys[1..])[keys[0].text := b[keys[0].text]]
  }

  /** The entries of `pc` for the listed requests. */
  function ListedPcs(pc: map<int, string>, keys: seq<Token>): (m: map<int, string>)
    requires forall i :: 0 <= i < |keys| ==> keys[i].Int? && keys[i].value in pc
    ensures forall r :: r in m <==> Int(r) in keys
    ensures forall r :: r in m ==> m[r] == pc[r]
  {
    if keys == [] then map[]
    else
      assert forall x :: x in keys <==> x == keys[0] || x in keys[1..];
      ListedPcs(pc, keys[1..])[keys[0].value := pc[keys[0].value]]
  }

  /** Reading back a balance feed recovers the listed entries and stops at
      the first token that cannot start one. */
  lemma {:induction false} BalanceFeedDecodes(b: map<string, int>, keys: seq<Token>, rest: seq<Token>)
    requires forall i :: 0 <= i < |keys| ==> keys[i].Text? && keys[i].text in b
    requires rest == [] || rest[0].Int?
    ensures DecodeBalances(BalanceFeed(b, keys) + rest) == (ListedBalances(b, keys), rest)
    decreases |keys|
  {
    if keys == [] {
      assert BalanceFeed(b, keys) + rest == rest;
    } else {
      var k := keys[0];
      var tail := BalanceFeed(b, keys[1..]) + rest;
      BalanceFeedDecodes(b, keys[1..], rest);
      assert BalanceFeed(b, keys) + rest == [k, Int(b[k.text])] + tail;
      DecodeBalancesEntry(k.text, b[k.text], tail);
    }
  }

  /** One balance entry in front of a feed adds that entry to what is read. */
  lemma DecodeBalancesEntry(account: string, balance: int, tail: seq<Token>)
    ensures var (m, rest) := DecodeBalances(tail);
      DecodeBalances([Text(account), Int(balance)] + tail) == (m[account := balance], rest)
  {
    assert ([Text(account), Int(balance)] + tail)[2..] == tail;
  }

  lemma {:induction false} PcFeedDecodes(pc: map<int, string>, keys: seq<Token>)
    requires forall i :: 0 <= i < |keys| ==> keys[i].Int? && keys[i].value in pc
    ensures DecodePcs(PcFeed(pc, keys)) == ListedPcs(pc, keys)
    decreases |keys|
  {
    if keys != [] {
      PcFeedDecodes(pc, keys[1..]);
      assert PcFeed(pc, keys)[2..] == PcFeed(pc, keys[1..]);
    }
  }

  /** Every account listed: the listed entries are all of `b`. */
  lemma AllBalancesListed(b: map<string, int>, keys: seq<Token>)
    requires Elements(keys) == BalanceKeys(b)
    requires forall i :: 0 <= i < |keys| ==> keys[i].Text? && keys[i].text in b
    ensures ListedBalances(b, keys) == b
  {
    assert forall a :: a in b ==> Text(a) in Elements(keys);
  }

  lemma AllPcsListed(pc: map<int, string>, keys: seq<Token>)
    requires Elements(keys) == PcKeys(pc)
    requires forall i :: 0 <= i < |keys| ==> keys[i].Int? && keys[i].value in pc
    ensures ListedPcs(pc, keys) == pc
  {
    var m := ListedPcs(pc, keys);
    forall r | r in pc ensures r in m {
      assert Int(r) in Elements(keys);
    }
    forall r | r in m ensures r in pc {
      var i :| 0 <= i < |keys| && keys[i] == Int(r);
    }
  }

  /** Feeding every balance entry and then every program-counter entry, in
      any listing of the keys, records the whole state. */
  lemma FeedDecodes(s: State, accounts: seq<Token>, requests: seq<Token>)
    requires Elements(accounts) == BalanceKeys(s.balances) && Elements(requests) == PcKeys(s.pc)
    requires forall i :: 0 <= i < |accounts| ==> accounts[i].Text? && accounts[i].text in s.balances
    requires forall i :: 0 <= i < |requests| ==> requests[i].Int? && requests[i].value in s.pc
    ensures Decode(BalanceFeed(s.balances, accounts) + PcFeed(s.pc, requests)) == s
  {
    var pcPart := PcFeed(s.pc, requests);
    assert pcPart == [] || pcPart[0].Int?;
    BalanceFeedDecodes(s.balances, accounts, pcPart);
    PcFeedDecodes(s.pc, requests);
    AllBalancesListed(s.balances, accounts);
    AllPcsListed(s.pc, requests);
  }

  /** The hash input records the whole state: reading it back gives the state. */
  lemma HashInputDecodes(s: State)
    ensures Decode(HashInput(s)) == s
  {
    var accounts := SortedKeys(BalanceKeys(s.balances));
    var requests := SortedKeys(PcKeys(s.pc));
    BalanceKeysListed(s.balances, accounts);
    PcKeysListed(s.pc, requests);
    FeedDecodes(s, accounts, requests);
  }

  /** Two states feed the hasher the same input exactly when they are equal;
      the input does not depend on the order the maps were built in. */
  lemma HashInputCanonical(s: State, t: State)
    ensures HashInput(s) == HashInput(t) <==> s == t
  {
    HashInputDecodes(s);
    HashInputDecodes(t);
  }

  // ---------------------------------------------------------------------
  // The test's instance

  /** The test deposits 1 into every account, one branch per account. */
  function DepositOne(s: State, account: Token): (r: State)
    ensures r.pc == s.pc && r.balances.Keys == s.balances.Keys
    ensures account.Text? && account.text in s.balances ==>
      && r.balances[account.text] == s.balances[account.text] + 1
      && forall a :: a in s.balances && a != account.text ==> r.balances[a] == s.balances[a]
    ensures !(account.Text? && account.text in s.balances) ==> r == s
  {
    if account.Text? && account.text in s.balances then Deposit(s, account.text, 1) else s
  }

  /** The test's requests 1 and 2 both move 1 from Alice to Bob. */
  function StartOne(s: State, r: int): (t: State)
    ensures t.balances == s.balances && t.pc.Keys == s.pc.Keys
    ensures forall x :: x in s.pc ==> Advances(s.pc[x], t.pc[x])
    ensures forall x :: x in s.pc && x != r ==> t.pc[x] == s.pc[x]
    ensures r in s.pc && s.pc[r] == Start && "Alice" in s.balances ==> (t.pc[r] == Complete <==> s.balances["Alice"] >= 1)
    ensures r in s.pc && s.pc[r] != Start ==> t == s
    ensures !(r in s.pc && "Alice" in s.balances) ==> t == s
  {
    if r in s.pc && "Alice" in s.balances then StartTransfer(s, r, "Alice", "Bob", 1) else s
  }

  /** Request `r` completes, debiting Alice and crediting Bob. */
  function CompleteOne(s: State, r: int): (t: State)
    ensures t.balances.Keys == s.balances.Keys && t.pc.Keys == s.pc.Keys
    ensures forall x :: x in s.pc ==> Advances(s.pc[x], t.pc[x])
    ensures forall x :: x in s.pc && x != r ==> t.pc[x] == s.pc[x]
    ensures r in s.pc && s.pc[r] == Complete && "Alice" in s.balances && "Bob" in s.balances ==>
      t.pc[r] == Done && t.balances["Alice"] == s.balances["Alice"] - 1 && t.balances["Bob"] == s.balances["Bob"] + 1
    ensures r in s.pc && s.pc[r] != Complete ==> t == s
    ensures forall a :: a in s.balances && a != "Alice" && a != "Bob" ==> t.balances[a] == s.balances[a]
    ensures !(r in s.pc && "Alice" in s.balances && "Bob" in s.balances) ==> t == s
  {
    if r in s.pc && "Alice" in s.balances && "Bob" in s.balances then CompleteTransfer(s, r, "Alice", "Bob", 1) else s
  }

  // The three actions: each branches with `there_exists` and leaves its own
  // copy of the state unmodified.
  function DepositAction(s: State): (e: Effect<State>)
    ensures e.direct == s
    ensures forall a :: a in s.balances ==> Deposit(s, a, 1) in e.branches
    ensures forall t :: t in e.branches ==> exists a :: a in s.balances && t == Deposit(s, a, 1)
  {
    DepositBranches(s);
    Effect(Branches(s, SortedKeys(BalanceKeys(s.balances)), DepositOne), s)
  }

  /** The deposit branches are exactly the deposits of 1 into each account. */
  lemma DepositBranches(s: State)
    ensures var bs := Branches(s, SortedKeys(BalanceKeys(s.balances)), DepositOne);
      && (forall a :: a in s.balances ==> Deposit(s, a, 1) in bs)
      && (forall t :: t in bs ==> exists a :: a in s.balances && t == Deposit(s, a, 1))
  {
    var keys := SortedKeys(BalanceKeys(s.balances));
    EveryAccountBranches(s, keys);
    OnlyDepositBranches(s, keys);
  }

  lemma EveryAccountBranches(s: State, keys: seq<Token>)
    requires Elements(keys) == BalanceKeys(s.balances)
    ensures forall a :: a in s.balances ==> Deposit(s, a, 1) in Branches(s, keys, DepositOne)
  {
    forall a | a in s.balances ensures Deposit(s, a, 1) in Branches(s, keys, DepositOne) {
      assert Text(a) in Elements(keys);
      var k :| 0 <= k < |keys| && keys[k] == Text(a);
      assert Branches(s, keys, DepositOne)[k] == DepositOne(s, Text(a));
    }
  }

  lemma OnlyDepositBranches(s: State, keys: seq<Token>)
    requires Elements(keys) == BalanceKeys(s.balances)
    ensures forall t :: t in Branches(s, keys, DepositOne) ==> exists a :: a in s.balances && t == Deposit(s, a, 1)
  {
    var bs := Branches(s, keys, DepositOne);
    forall t | t in bs ensures exists a :: a in s.balances && t == Deposit(s, a, 1) {
      var k :| 0 <= k < |bs| && bs[k] == t;
      assert keys[k] in Elements(keys);
      assert keys[k] in BalanceKeys(s.balances);
      assert t == Deposit(s, keys[k].text, 1);
    }
  }

  function StartAction(s: State): (e: Effect<State>)
    ensures e.direct == s && e.branches == [StartOne(s, 1), StartOne(s, 2)]
  {
    Effect(Branches(s, [1, 2], StartOne), s)
  }

  function CompleteAction(s: State): (e: Effect<State>)
    ensures e.direct == s && e.branches == [CompleteOne(s, 1), CompleteOne(s, 2)]
  {
    Effect(Branches(s, [1, 2], CompleteOne), s)
  }

  function Actions(): seq<Action<State>>
  {
    [ Action("deposit", DepositAction),
      Action("start_transfer", StartAction),
      Action("complete_transfer", CompleteAction) ]
  }

  function Invariants(): seq<Invariant<State>>
  {
    [Invariant("consistency", Consistency)]
  }

  const Initial: State := State(map["Alice" := 1, "Bob" := 1], map[1 := Start, 2 := Start])

  /** Both requests pass the funds check before either completes. */
  ghost function Race(): seq<(string, State)>
  {
    var s1 := StartOne(Initial, 1);
    var s2 := StartOne(s1, 2);
    var s3 := CompleteOne(s2, 1);
    var s4 := CompleteOne(s3, 2);
    [(InitName, Initial), ("start_transfer", s1), ("start_transfer", s2),
     ("complete_transfer", s3), ("complete_transfer", s4)]
  }

  /** Every request id the test offers yields a `start_transfer` successor. */
  lemma StartBranch(s: State, r: int)
    requires r == 1 || r == 2
    ensures Produces(Actions(), s, Start, StartOne(s, r))
  {
    assert Successors(Actions()[1], s)[r - 1] == StartOne(s, r);
  }

  /** Every request id the test offers yields a `complete_transfer` successor. */
  lemma CompleteBranch(s: State, r: int)
    requires r == 1 || r == 2
    ensures Produces(Actions(), s, Complete, CompleteOne(s, r))
  {
    assert Successors(Actions()[2], s)[r - 1] == CompleteOne(s, r);
  }

  /** Two starts followed by two completions are a behaviour of the
      registered actions from any state. */
  lemma StartsThenCompletes(s0: State)
    ensures var s1 := StartOne(s0, 1);
      var s2 := StartOne(s1, 2);
      var s3 := CompleteOne(s2, 1);
      var s4 := CompleteOne(s3, 2);
      Execution(Actions(), s0, [(InitName, s0), (Start, s1), (Start, s2), (Complete, s3), (Complete, s4)])
  {
    var s1 := StartOne(s0, 1);
    var s2 := StartOne(s1, 2);
    var s3 := CompleteOne(s2, 1);
    StartBranch(s0, 1);
    StartBranch(s1, 2);
    CompleteBranch(s2, 1);
    CompleteBranch(s3, 2);
  }

  /** The race is a behaviour of the registered actions from the test's initial state. */
  lemma RaceIsExecution()
    ensures Execution(Actions(), Initial, Race())
  {
    StartsThenCompletes(Initial);
  }

  /** The race leaves Alice overdrawn, which the registered invariant reports. */
  lemma RaceOverdraws()
    ensures Race()[|Race()| - 1].1.balances["Alice"] == -1
    ensures FirstFailing(Invariants(), Race()[|Race()| - 1].1) == Some(0)
  {
    var last := Race()[|Race()| - 1].1;
    assert !Invariants()[0].holds(last);
    FirstFailingAt(Invariants(), last, 0);
  }

  /** A shortest behaviour reaching a violation is no longer than the race,
      unless one of its states collides with an explored state. */
  lemma ShortestBeatsRace(b: seq<(string, State)>, fp: State -> u64, nodes: seq<Pending<State>>)
    requires Shortest(Actions(), Invariants(), Initial, b, fp, nodes) && !CollidesOn(fp, nodes, Race())
    ensures |b| <= |Race()|
  {
    RaceIsExecution();
    RaceOverdraws();
  }

  /** A search of the transfers that covered every node it discovered from
      the test's initial state without reporting met a fingerprint collision
      on one of the race's states. */
  lemma TransfersForceCollision(g: Search<State>, fp: State -> u64)
    requires g.seen == Prints(fp, g.nodes) && Closed(g, fp, Actions(), Invariants(), 0, |g.nodes|)
    requires g.nodes != [] && g.nodes[0].state == Initial
    ensures CollidesOn(fp, g.nodes, Race())
  {
    RaceIsExecution();
    RaceOverdraws();
    ViolationForcesCollision(g, fp, Actions(), Invariants(), Race());
  }

  /** The source's test: register the three actions and the invariant, then
      run from Alice and Bob holding 1 each with two transfer requests.  A
      report names the invariant and ends in an inconsistent state, and,
      unless a state of the race collides with an explored state, is no
      longer than the race; a run that ends without one met such a
      collision, because the race is reachable. */
  method CheckTransfers(fp: State -> u64) returns (checker: ModelChecker<State>, out: Outcome<State>)
    ensures out.Violated? ==>
      && out.report.violated == "consistency"
      && Execution(Actions(), Initial, out.report.behavior)
      && !Consistency(out.report.behavior[|out.report.behavior| - 1].1)
    ensures out.Violated? && !CollidesOn(fp, checker.nodes, Race()) ==> |out.report.behavior| <= |Race()|
    ensures out.Exhausted? ==> CollidesOn(fp, checker.nodes, Race())
  {
    checker := new ModelChecker(fp);
    checker.AddActions(Actions());
    assert checker.actions == Actions();
    var invs := Invariants();
    checker.AddInvariant(invs[0].name, invs[0].holds);
    assert checker.invariants == invs;
    assert checker.nodes == [];
    out := checker.Run(Initial);
    if out.Violated? && !CollidesOn(fp, checker.nodes, Race()) {
      ShortestBeatsRace(out.report.behavior, fp, checker.nodes);
    }
    if out.Exhausted? {
      assert checker.root == 0;
      assert checker.nodes[0].state == Initial;
      assert Closed(checker.Snapshot(), fp, Actions(), Invariants(), 0, |checker.nodes|);
      TransfersForceCollision(checker.Snapshot(), fp);
    }
  }
}
