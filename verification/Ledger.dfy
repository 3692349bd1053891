/**
 consensus_shard/subMPT and core/account.go: a proposer splits a batch of transfers by the first digit of
 the addresses, and followers execute their parts on disjoint pieces of the state.
 */
module Ledger {
  import opened Bytes

  type Address = s: string | s != "" witness "0"

  datatype Tx = Tx(sender: Address, recipient: Address, value: nat, hash: string)

  datatype Account = Account(nonce: nat, balance: int)

  type State = map<Address, Account>

  /** `params.Init_Balance`: what an account holds before its first transfer. */
  const INIT_BALANCE: nat := 100000000000000000000000000000000000000000000

  datatype Place = Nowhere | At(follower: nat)

  function Digit(c: char): Place {
    if '0' <= c <= '9' then At(c as int - '0' as int)
    else if 'a' <= c <= 'f' then At(10 + c as int - 'a' as int)
    else if 'A' <= c <= 'F' then At(10 + c as int - 'A' as int)
    else Nowhere
  }

  /** The follower that holds an account, if its address starts with a hexadecimal digit. */
  function Home(a: Address, n: nat): (p: Place)
    requires n > 0
    ensures p.At? ==> p.follower < n
  {
    var d := Digit(a[0]);
    if d.At? then At(d.follower % n) else Nowhere
  }

  predicate Placed(tx: Tx) {
    Digit(tx.sender[0]).At? && Digit(tx.recipient[0]).At?
  }

  const LOWER: string := "0123456789abcdef"
  const UPPER: string := "0123456789ABCDEF"

  /** The address starts with the digit `i`, in either case. */
  predicate StartsWith(a: Address, i: nat) {
    i < 16 && (a[0] == LOWER[i] || a[0] == UPPER[i])
  }

  predicate Hexadecimal(a: Address) {
    a[0] in LOWER || a[0] in UPPER
  }

  /** Follower `f` of `n` holds the account. */
  ghost predicate HeldBy(a: Address, f: nat, n: nat)
    requires n > 0
  {
    exists i: nat :: StartsWith(a, i) && f == i % n
  }

  /** An account is at the follower that its first digit, in base 16, leaves modulo their number. */
  lemma HomeOfDigit(a: Address, i: nat, n: nat)
    requires n > 0 && StartsWith(a, i)
    ensures Home(a, n) == At(i % n)
  {
    assert forall j: nat | j < 10 :: LOWER[j] == UPPER[j] == '0' + j as char;
    assert forall j: nat | 10 <= j < 16 :: LOWER[j] == 'a' + (j - 10) as char && UPPER[j] == 'A' + (j - 10) as char;
  }

  lemma DigitOf(c: char)
    requires Digit(c).At?
    ensures var i := Digit(c).follower; i < 16 && (c == LOWER[i] || c == UPPER[i])
  {
  }

  /** And it is nowhere exactly if it does not start with a digit. */
  lemma HomeExactly(a: Address, n: nat)
    requires n > 0
    ensures Home(a, n) == Nowhere <==> !Hexadecimal(a)
    ensures forall f: nat :: Home(a, n) == At(f) <==> HeldBy(a, f, n)
  {
    if Hexadecimal(a) {
      var i: nat :| i < 16 && (a[0] == LOWER[i] || a[0] == UPPER[i]);
      HomeOfDigit(a, i, n);
    }
    if Home(a, n).At? {
      DigitOf(a[0]);
      assert StartsWith(a, Digit(a[0]).follower);
    }
    forall f: nat | HeldBy(a, f, n) ensures Home(a, n) == At(f) {
      var i: nat :| StartsWith(a, i) && f == i % n;
      HomeOfDigit(a, i, n);
    }
  }

  function AccountOf(st: State, a: Address, nonce: nat): Account {
    if a in st then st[a] else Account(nonce, INIT_BALANCE)
  }

  function Balance(st: State, a: Address): int {
    AccountOf(st, a, 0).balance
  }

  function If(b: bool, v: int): int {
    if b then v else 0
  }

  // ---------- One transfer at one follower ----------

  /** The follower holds the sender, and finds too little there. */
  predicate Refuses(f: nat, n: nat, st: State, tx: Tx)
    requires n > 0
  {
    Placed(tx) && Home(tx.sender, n) == At(f) && Balance(st, tx.sender) < tx.value
  }

  function Deducted(f: nat, n: nat, st: State, i: nat, tx: Tx): State
    requires n > 0
  {
    if Home(tx.sender, n) != At(f) then
      st
    else
      var s := AccountOf(st, tx.sender, i);
      st[tx.sender := s.(balance := s.balance - tx.value)]
  }

  function Deposited(f: nat, n: nat, st: State, i: nat, tx: Tx): State
    requires n > 0
  {
    if Home(tx.recipient, n) != At(f) then
      st
    else
      var r := AccountOf(st, tx.recipient, i);
      st[tx.recipient := r.(balance := r.balance + tx.value)]
  }

  function Execute(f: nat, n: nat, st: State, i: nat, tx: Tx): State
    requires n > 0
  {
    if !Placed(tx) || Refuses(f, n, st, tx) then
      st
    else
      Deposited(f, n, Deducted(f, n, st, i, tx), i, tx)
  }

  function ExecuteAll(f: nat, n: nat, st: State, txs: seq<Tx>): State
    requires n > 0
  {
    if txs == [] then
      st
    else
      Execute(f, n, ExecuteAll(f, n, st, txs[..|txs| - 1]), |txs| - 1, txs[|txs| - 1])
  }

  // ---------- What transfers add up to ----------

  /** What `a` sends to others; a transfer to oneself changes nothing. */
  function Spent(txs: seq<Tx>, a: Address): nat {
    if txs == [] then
      0
    else
      Spent(txs[..|txs| - 1], a) + Outgoing(txs[|txs| - 1], a)
  }

  function Outgoing(tx: Tx, a: Address): nat {
    if Placed(tx) && tx.sender == a && tx.recipient != a then tx.value else 0
  }

  function Received(txs: seq<Tx>, a: Address): nat {
    if txs == [] then
      0
    else
      Received(txs[..|txs| - 1], a) + Incoming(txs[|txs| - 1], a)
  }

  function Incoming(tx: Tx, a: Address): nat {
    if Placed(tx) && tx.recipient == a && tx.sender != a then tx.value else 0
  }

  lemma {:induction false} SumsAppend(xs: seq<Tx>, ys: seq<Tx>, a: Address)
    ensures Spent(xs + ys, a) == Spent(xs, a) + Spent(ys, a)
    ensures Received(xs + ys, a) == Received(xs, a) + Received(ys, a)
  {
    if ys == [] {
      assert xs + ys == xs;
    } else {
      SumsAppend(xs, ys[..|ys| - 1], a);
      assert (xs + ys)[..|xs + ys| - 1] == xs + ys[..|ys| - 1];
    }
  }

  lemma SumsOne(tx: Tx, a: Address)
    ensures Spent([tx], a) == Outgoing(tx, a) && Received([tx], a) == Incoming(tx, a)
  {
    assert [tx][..0] == [];
  }

  /** The order does not matter. */
  lemma {:induction false} SumsPermute(xs: seq<Tx>, ys: seq<Tx>, a: Address)
    requires multiset(xs) == multiset(ys)
    ensures Spent(xs, a) == Spent(ys, a) && Received(xs, a) == Received(ys, a)
    decreases |xs|
  {
    if xs == [] {
      assert |multiset(ys)| == 0;
    } else {
      var tx, rest := xs[|xs| - 1], xs[..|xs| - 1];
      assert xs == rest + [tx];
      var others := Taken(ys, tx);
      SumsPermute(rest, others, a);
      SumsTaken(ys, tx, a);
    }
  }

  /** `txs` without its last occurrence of `tx`. */
  function Taken(txs: seq<Tx>, tx: Tx): (rest: seq<Tx>)
    requires tx in multiset(txs)
    ensures multiset(rest) == multiset(txs) - multiset{tx}
  {
    var init, last := txs[..|txs| - 1], txs[|txs| - 1];
    assert txs == init + [last];
    if last == tx then init else Taken(init, tx) + [last]
  }

  lemma {:induction false} SumsTaken(txs: seq<Tx>, tx: Tx, a: Address)
    requires tx in multiset(txs)
    ensures Spent(txs, a) == Spent(Taken(txs, tx), a) + Outgoing(tx, a)
    ensures Received(txs, a) == Received(Taken(txs, tx), a) + Incoming(tx, a)
    decreases |txs|
  {
    var init, last := txs[..|txs| - 1], txs[|txs| - 1];
    assert txs == init + [last];
    if last != tx {
      SumsTaken(init, tx, a);
      SumsAppend(Taken(init, tx), [last], a);
      SumsOne(last, a);
    }
  }

  // ---------- Order independence ----------

  /** A balance that covers what is spent; it may be negative if nothing is. */
  predicate Covers(balance: int, spent: nat) {
    spent == 0 || spent <= balance
  }

  ghost predicate Affordable(f: nat, n: nat, st: State, txs: seq<Tx>)
    requires n > 0
  {
    forall a: Address | Home(a, n) == At(f) :: Covers(Balance(st, a), Spent(txs, a))
  }

  /** The follower carries the transfer out: both ends have a digit, and a sender of its own can pay. */
  ghost predicate Accepts(f: nat, n: nat, st: State, tx: Tx)
    requires n > 0
  {
    && Hexadecimal(tx.sender) && Hexadecimal(tx.recipient)
    && (HeldBy(tx.sender, f, n) ==> Balance(st, tx.sender) >= tx.value)
  }

  /** The accounts after a transfer that was carried out. */
  ghost predicate Settled(f: nat, n: nat, st: State, i: nat, tx: Tx, st': State)
    requires n > 0
  {
    forall a: Address :: SettledAt(f, n, st, i, tx, st', a)
  }

  /** An account made for the transfer has its index for a nonce. */
  ghost predicate SettledAt(f: nat, n: nat, st: State, i: nat, tx: Tx, st': State, a: Address)
    requires n > 0
  {
    if (a == tx.sender || a == tx.recipient) && HeldBy(a, f, n) then
      var was := AccountOf(st, a, i);
      a in st' && st'[a] == Account(was.nonce, was.balance - If(a == tx.sender, tx.value) + If(a == tx.recipient, tx.value))
    else
      (a in st' <==> a in st) && (a in st ==> st'[a] == st[a])
  }

  lemma AcceptsUnlessRefused(f: nat, n: nat, st: State, tx: Tx)
    requires n > 0
    ensures Accepts(f, n, st, tx) <==> Placed(tx) && !Refuses(f, n, st, tx)
  {
    HomeExactly(tx.sender, n);
    HomeExactly(tx.recipient, n);
  }

  lemma ExecuteSettles(f: nat, n: nat, st: State, i: nat, tx: Tx)
    requires n > 0 && Placed(tx) && !Refuses(f, n, st, tx)
    ensures Settled(f, n, st, i, tx, Execute(f, n, st, i, tx))
  {
    forall a: Address ensures SettledAt(f, n, st, i, tx, Execute(f, n, st, i, tx), a) {
      HomeExactly(a, n);
    }
  }

  lemma ExecuteBalance(f: nat, n: nat, st: State, i: nat, tx: Tx, a: Address)
    requires n > 0 && Home(a, n) == At(f)
    ensures Balance(Execute(f, n, st, i, tx), a)
         == Balance(st, a) + (if Refuses(f, n, st, tx) then 0 else Incoming(tx, a) - Outgoing(tx, a))
  {
  }

  /** A follower whose senders can pay for everything ends with the same balances in every order. */
  lemma {:induction false} ExecuteAllBalance(f: nat, n: nat, st: State, txs: seq<Tx>, a: Address)
    requires n > 0 && Home(a, n) == At(f) && Affordable(f, n, st, txs)
    ensures Balance(ExecuteAll(f, n, st, txs), a) == Balance(st, a) + Received(txs, a) - Spent(txs, a)
    decreases |txs|
  {
    if txs != [] {
      var rest, tx := txs[..|txs| - 1], txs[|txs| - 1];
      ExecuteAllBalance(f, n, st, rest, a);
      var mid := ExecuteAll(f, n, st, rest);
      ExecuteBalance(f, n, mid, |txs| - 1, tx, a);
      if Refuses(f, n, mid, tx) {
        ExecuteAllBalance(f, n, st, rest, tx.sender);
        assert Covers(Balance(st, tx.sender), Spent(txs, tx.sender));
      }
    }
  }

  predicate Concerns(tx: Tx, f: nat, n: nat)
    requires n > 0
  {
    Placed(tx) && (Home(tx.sender, n) == At(f) || Home(tx.recipient, n) == At(f))
  }

  /** What the proposer sends to follower `f` when the transfers are appended in this order. */
  function Allotted(order: seq<Tx>, f: nat, n: nat): seq<Tx>
    requires n > 0
  {
    if order == [] then
      []
    else
      var tx := order[|order| - 1];
      Allotted(order[..|order| - 1], f, n) + (if Concerns(tx, f, n) then [tx] else [])
  }

  /** Both ends have a digit, and one of them is at follower `f`. */
  ghost predicate GoesTo(tx: Tx, f: nat, n: nat)
    requires n > 0
  {
    Hexadecimal(tx.sender) && Hexadecimal(tx.recipient) && (HeldBy(tx.sender, f, n) || HeldBy(tx.recipient, f, n))
  }

  lemma GoesWhereConcerned(tx: Tx, f: nat, n: nat)
    requires n > 0
    ensures GoesTo(tx, f, n) <==> Concerns(tx, f, n)
  {
    HomeExactly(tx.sender, n);
    HomeExactly(tx.recipient, n);
  }

  lemma {:induction false} AllottedOften(order: seq<Tx>, f: nat, n: nat, tx: Tx)
    requires n > 0
    ensures multiset(Allotted(order, f, n))[tx] == if GoesTo(tx, f, n) then multiset(order)[tx] else 0
  {
    if order != [] {
      var rest, last := order[..|order| - 1], order[|order| - 1];
      AllottedOften(rest, f, n, tx);
      GoesWhereConcerned(last, f, n);
      assert order == rest + [last];
    }
  }

  lemma {:induction false} AllottedSums(order: seq<Tx>, f: nat, n: nat, a: Address)
    requires n > 0 && Home(a, n) == At(f)
    ensures Spent(Allotted(order, f, n), a) == Spent(order, a)
    ensures Received(Allotted(order, f, n), a) == Received(order, a)
  {
    if order != [] {
      var rest, tx := order[..|order| - 1], order[|order| - 1];
      AllottedSums(rest, f, n, a);
      if Concerns(tx, f, n) {
        SumsAppend(Allotted(rest, f, n), [tx], a);
        SumsOne(tx, a);
      } else {
        assert Allotted(order, f, n) == Allotted(rest, f, n);
        assert Outgoing(tx, a) == 0 && Incoming(tx, a) == 0;
      }
    }
  }

  /** The state after every follower has executed what it was sent. */
  function Combined(n: nat, parts: seq<State>, order: seq<Tx>): (r: seq<State>)
    requires n > 0 && |parts| == n
    ensures |r| == n && forall f | 0 <= f < n :: r[f] == ExecuteAll(f, n, parts[f], Allotted(order, f, n))
  {
    seq(n, f requires 0 <= f < n => ExecuteAll(f, n, parts[f], Allotted(order, f, n)))
  }

  /** The balance of an account, at the follower that holds it. */
  function BalanceAt(n: nat, parts: seq<State>, a: Address): int
    requires n > 0 && |parts| == n
  {
    var h := Home(a, n);
    if h.At? then Balance(parts[h.follower], a) else 0
  }

  /** The followers hold, piece by piece, the balances of the ledger `whole`. */
  ghost predicate Splits(n: nat, parts: seq<State>, whole: State)
    requires n > 0 && |parts| == n
  {
    forall a: Address | Home(a, n).At? :: BalanceAt(n, parts, a) == Balance(whole, a)
  }

  /**
   If every account can pay for all it sends out of its starting balance, the followers together end
   with the balances of one ledger, whatever the order of either.
   */
  lemma ShardedEqualsSequential(n: nat, parts: seq<State>, whole: State, txs: seq<Tx>, order: seq<Tx>, sequential: seq<Tx>)
    requires n > 0 && |parts| == n && Splits(n, parts, whole)
    requires forall a: Address :: Covers(Balance(whole, a), Spent(txs, a))
    requires multiset(order) == multiset(txs) == multiset(sequential)
    ensures Splits(n, Combined(n, parts, order), ExecuteAll(0, 1, whole, sequential))
    ensures forall a: Address | Home(a, n).At? ::
              BalanceAt(n, Combined(n, parts, order), a) == Balance(whole, a) + Received(txs, a) - Spent(txs, a)
  {
    forall a: Address | Home(a, n).At?
      ensures BalanceAt(n, Combined(n, parts, order), a) == Balance(whole, a) + Received(txs, a) - Spent(txs, a)
      ensures Balance(ExecuteAll(0, 1, whole, sequential), a) == Balance(whole, a) + Received(txs, a) - Spent(txs, a)
    {
      var f := Home(a, n).follower;
      forall b: Address | Home(b, n) == At(f) ensures Covers(Balance(parts[f], b), Spent(Allotted(order, f, n), b)) {
        AllottedSums(order, f, n, b);
        SumsPermute(order, txs, b);
        assert BalanceAt(n, parts, b) == Balance(whole, b);
      }
      ExecuteAllBalance(f, n, parts[f], Allotted(order, f, n), a);
      AllottedSums(order, f, n, a);
      SumsPermute(order, txs, a);
      forall b: Address ensures Covers(Balance(whole, b), Spent(sequential, b)) {
        SumsPermute(sequential, txs, b);
      }
      ExecuteAllBalance(0, 1, whole, sequential, a);
      SumsPermute(sequential, txs, a);
    }
  }

  // ---------- Conservation ----------

  /** Every account that takes part in a transfer between accounts with a home. */
  ghost predicate Includes(accounts: seq<Address>, txs: seq<Tx>) {
    forall i | 0 <= i < |txs| && Placed(txs[i]) :: txs[i].sender in accounts && txs[i].recipient in accounts
  }

  function Total(n: nat, parts: seq<State>, accounts: seq<Address>): int
    requires n > 0 && |parts| == n
  {
    if accounts == [] then
      0
    else
      Total(n, parts, accounts[..|accounts| - 1]) + BalanceAt(n, parts, accounts[|accounts| - 1])
  }

  /** Two accounts change, by `x` and `y`; the total changes by both. */
  lemma {:induction false} TotalChange(n: nat, parts: seq<State>, parts': seq<State>, accounts: seq<Address>,
                                       s: Address, x: int, r: Address, y: int)
    requires n > 0 && |parts| == |parts'| == n && Distinct(accounts)
    requires forall a: Address | a in accounts :: BalanceAt(n, parts', a) == BalanceAt(n, parts, a) + If(a == s, x) + If(a == r, y)
    ensures Total(n, parts', accounts) == Total(n, parts, accounts) + If(s in accounts, x) + If(r in accounts, y)
  {
    if accounts != [] {
      var rest, a := accounts[..|accounts| - 1], accounts[|accounts| - 1];
      TotalChange(n, parts, parts', rest, s, x, r, y);
      assert accounts == rest + [a];
      assert a !in rest;
      assert a in accounts;
    }
  }

  /** The follower that holds the sender refuses, and another one deposits all the same. */
  predicate Mints(n: nat, parts: seq<State>, tx: Tx)
    requires n > 0 && |parts| == n
  {
    && Placed(tx) && Home(tx.sender, n) != Home(tx.recipient, n)
    && Refuses(Home(tx.sender, n).follower, n, parts[Home(tx.sender, n).follower], tx)
  }

  /** What the deposits without a deduction add up to. */
  function Minted(n: nat, parts: seq<State>, order: seq<Tx>): nat
    requires n > 0 && |parts| == n
  {
    if order == [] then
      0
    else
      var rest, tx := order[..|order| - 1], order[|order| - 1];
      Minted(n, parts, rest) + MintedBy(n, Combined(n, parts, rest), tx)
  }

  function MintedBy(n: nat, parts: seq<State>, tx: Tx): nat
    requires n > 0 && |parts| == n
  {
    if Mints(n, parts, tx) then tx.value else 0
  }

  function AfterTx(n: nat, parts: seq<State>, tx: Tx, a: Address): int
    requires n > 0 && |parts| == n && Home(a, n).At?
  {
    var f := Home(a, n).follower;
    BalanceAt(n, parts, a) + (if Refuses(f, n, parts[f], tx) then 0 else Incoming(tx, a) - Outgoing(tx, a))
  }

  lemma CombinedStep(n: nat, parts: seq<State>, order: seq<Tx>, a: Address)
    requires n > 0 && |parts| == n && order != [] && Home(a, n).At?
    ensures BalanceAt(n, Combined(n, parts, order), a)
         == AfterTx(n, Combined(n, parts, order[..|order| - 1]), order[|order| - 1], a)
  {
    var rest, tx, f := order[..|order| - 1], order[|order| - 1], Home(a, n).follower;
    var list := Allotted(rest, f, n);
    if Concerns(tx, f, n) {
      assert (list + [tx])[..|list|] == list;
      ExecuteBalance(f, n, Combined(n, parts, rest)[f], |list|, tx, a);
    } else {
      assert Allotted(order, f, n) == list;
      assert Incoming(tx, a) == 0 && Outgoing(tx, a) == 0;
    }
  }

  /** The sender's loss and the recipient's gain in one transfer. */
  function Loss(n: nat, parts: seq<State>, tx: Tx): int
    requires n > 0 && |parts| == n && Placed(tx)
  {
    var f := Home(tx.sender, n).follower;
    if tx.sender == tx.recipient || Refuses(f, n, parts[f], tx) then 0 else -(tx.value as int)
  }

  function Gain(n: nat, parts: seq<State>, tx: Tx): int
    requires n > 0 && |parts| == n && Placed(tx)
  {
    var f := Home(tx.recipient, n).follower;
    if tx.sender == tx.recipient || Refuses(f, n, parts[f], tx) then 0 else tx.value
  }

  lemma LossAndGain(n: nat, parts: seq<State>, tx: Tx)
    requires n > 0 && |parts| == n && Placed(tx)
    ensures Loss(n, parts, tx) + Gain(n, parts, tx) == MintedBy(n, parts, tx)
  {
  }

  lemma TotalStep(n: nat, parts: seq<State>, order: seq<Tx>, accounts: seq<Address>)
    requires n > 0 && |parts| == n && order != [] && Distinct(accounts) && Includes(accounts, order)
    requires forall a: Address | a in accounts :: Home(a, n).At?
    ensures Total(n, Combined(n, parts, order), accounts)
         == Total(n, Combined(n, parts, order[..|order| - 1]), accounts)
          + MintedBy(n, Combined(n, parts, order[..|order| - 1]), order[|order| - 1])
  {
    var rest, tx := order[..|order| - 1], order[|order| - 1];
    var mid, end := Combined(n, parts, rest), Combined(n, parts, order);
    var x, y := if Placed(tx) then Loss(n, mid, tx) else 0, if Placed(tx) then Gain(n, mid, tx) else 0;
    forall a: Address | a in accounts
      ensures BalanceAt(n, end, a) == BalanceAt(n, mid, a) + If(a == tx.sender, x) + If(a == tx.recipient, y)
    {
      CombinedStep(n, parts, order, a);
    }
    TotalChange(n, mid, end, accounts, tx.sender, x, tx.recipient, y);
    if Placed(tx) {
      LossAndGain(n, mid, tx);
    }
  }

  /** In every order, the total changes exactly by what refused transfers between followers deposit. */
  lemma {:induction false} TotalIsMinted(n: nat, parts: seq<State>, order: seq<Tx>, accounts: seq<Address>)
    requires n > 0 && |parts| == n && Distinct(accounts) && Includes(accounts, order)
    requires forall a: Address | a in accounts :: Home(a, n).At?
    ensures Total(n, Combined(n, parts, order), accounts) == Total(n, parts, accounts) + Minted(n, parts, order)
    decreases |order|
  {
    if order == [] {
      assert Combined(n, parts, order) == parts;
    } else {
      TotalIsMinted(n, parts, order[..|order| - 1], accounts);
      TotalStep(n, parts, order, accounts);
    }
  }

  /** No follower refuses a transfer of something to another follower's account. */
  predicate NoneRefused(n: nat, parts: seq<State>, order: seq<Tx>)
    requires n > 0 && |parts| == n
  {
    order == [] ||
    var rest, tx := order[..|order| - 1], order[|order| - 1];
    NoneRefused(n, parts, rest) && (tx.value == 0 || !Mints(n, Combined(n, parts, rest), tx))
  }

  lemma {:induction false} MintedNothing(n: nat, parts: seq<State>, order: seq<Tx>)
    requires n > 0 && |parts| == n
    ensures Minted(n, parts, order) == 0 <==> NoneRefused(n, parts, order)
    decreases |order|
  {
    if order != [] {
      MintedNothing(n, parts, order[..|order| - 1]);
    }
  }

  lemma {:induction false} NoneRefusedFirst(n: nat, parts: seq<State>, own: seq<Tx>, rest: seq<Tx>)
    requires n > 0 && |parts| == n && NoneRefused(n, parts, own + rest)
    ensures NoneRefused(n, parts, own)
  {
    if rest == [] {
      assert own + rest == own;
    } else {
      assert (own + rest)[..|own + rest| - 1] == own + rest[..|rest| - 1];
      NoneRefusedFirst(n, parts, own, rest[..|rest| - 1]);
    }
  }

  /** The total is conserved exactly when no transfer between followers is refused. */
  lemma ConservedExactly(n: nat, parts: seq<State>, order: seq<Tx>, accounts: seq<Address>)
    requires n > 0 && |parts| == n && Distinct(accounts) && Includes(accounts, order)
    requires forall a: Address | a in accounts :: Home(a, n).At?
    ensures Total(n, Combined(n, parts, order), accounts) == Total(n, parts, accounts)
       <==> NoneRefused(n, parts, order)
  {
    TotalIsMinted(n, parts, order, accounts);
    MintedNothing(n, parts, order);
  }

  ghost predicate AllCovered(n: nat, parts: seq<State>, txs: seq<Tx>)
    requires n > 0 && |parts| == n
  {
    forall a: Address | Home(a, n).At? :: Covers(BalanceAt(n, parts, a), Spent(txs, a))
  }

  /** If every account can pay for all it sends, nothing is refused between followers. */
  lemma {:induction false} CoveredNoneRefused(n: nat, parts: seq<State>, order: seq<Tx>)
    requires n > 0 && |parts| == n && AllCovered(n, parts, order)
    ensures NoneRefused(n, parts, order)
    decreases |order|
  {
    if order != [] {
      var rest, tx := order[..|order| - 1], order[|order| - 1];
      assert AllCovered(n, parts, rest) by {
        assert forall a: Address :: Spent(order, a) >= Spent(rest, a);
      }
      CoveredNoneRefused(n, parts, rest);
      if tx.value > 0 {
        NotRefused(n, parts, rest, tx);
      }
    }
  }

  lemma NotRefused(n: nat, parts: seq<State>, rest: seq<Tx>, tx: Tx)
    requires n > 0 && |parts| == n && tx.value > 0 && AllCovered(n, parts, rest)
    requires forall a: Address | Home(a, n).At? :: Covers(BalanceAt(n, parts, a), Spent(rest, a) + Outgoing(tx, a))
    ensures !Mints(n, Combined(n, parts, rest), tx)
  {
    var h := Home(tx.sender, n);
    if h.At? {
      var f, list := h.follower, Allotted(rest, h.follower, n);
      forall b: Address | Home(b, n) == h ensures Covers(Balance(parts[f], b), Spent(list, b)) {
        AllottedSums(rest, f, n, b);
        assert Covers(BalanceAt(n, parts, b), Spent(rest, b));
      }
      ExecuteAllBalance(f, n, parts[f], list, tx.sender);
      AllottedSums(rest, f, n, tx.sender);
      assert Covers(BalanceAt(n, parts, tx.sender), Spent(rest, tx.sender) + Outgoing(tx, tx.sender));
    }
  }

  /** And then the total is conserved. */
  lemma AffordableConserves(n: nat, parts: seq<State>, order: seq<Tx>, accounts: seq<Address>)
    requires n > 0 && |parts| == n && Distinct(accounts) && Includes(accounts, order)
    requires (forall a: Address | a in accounts :: Home(a, n).At?) && AllCovered(n, parts, order)
    ensures Total(n, Combined(n, parts, order), accounts) == Total(n, parts, accounts)
  {
    CoveredNoneRefused(n, parts, order);
    ConservedExactly(n, parts, order, accounts);
  }

  /** Transfers of something from one account to another are between followers. */
  ghost predicate Crossing(n: nat, txs: seq<Tx>)
    requires n > 0
  {
    forall i | 0 <= i < |txs| :: Crosses(n, txs[i])
  }

  predicate Crosses(n: nat, tx: Tx)
    requires n > 0
  {
    Placed(tx) && tx.value > 0 && tx.sender != tx.recipient ==> Home(tx.sender, n) != Home(tx.recipient, n)
  }

  ghost predicate Conserved(n: nat, parts: seq<State>, order: seq<Tx>, accounts: seq<Address>)
    requires n > 0 && |parts| == n
  {
    Total(n, Combined(n, parts, order), accounts) == Total(n, parts, accounts)
  }

  /** The transfers by which `a` spends something, and the others. */
  function Own(txs: seq<Tx>, a: Address): seq<Tx> {
    if txs == [] then
      []
    else
      var rest, tx := Own(txs[..|txs| - 1], a), txs[|txs| - 1];
      if Outgoing(tx, a) > 0 then rest + [tx] else rest
  }

  function Others(txs: seq<Tx>, a: Address): seq<Tx> {
    if txs == [] then
      []
    else
      var rest, tx := Others(txs[..|txs| - 1], a), txs[|txs| - 1];
      if Outgoing(tx, a) > 0 then rest else rest + [tx]
  }

  lemma {:induction false} OwnFirst(txs: seq<Tx>, a: Address)
    ensures multiset(Own(txs, a)) + multiset(Others(txs, a)) == multiset(txs)
  {
    if txs != [] {
      var rest, tx := txs[..|txs| - 1], txs[|txs| - 1];
      OwnFirst(rest, a);
      assert multiset(txs) == multiset(rest) + multiset{tx} by {
        assert txs == rest + [tx];
      }
    }
  }

  lemma {:induction false} OwnSpends(txs: seq<Tx>, a: Address)
    ensures Spent(Own(txs, a), a) == Spent(txs, a)
    ensures forall tx | tx in Own(txs, a) :: tx in txs && Outgoing(tx, a) > 0
  {
    if txs != [] {
      var rest, tx := txs[..|txs| - 1], txs[|txs| - 1];
      OwnSpends(rest, a);
      if Outgoing(tx, a) > 0 {
        SumsAppend(Own(rest, a), [tx], a);
        SumsOne(tx, a);
      }
    }
  }

  /** If nothing that `a` sends to other followers is refused, it all comes out of the starting balance. */
  lemma {:induction false} OwnPaid(n: nat, parts: seq<State>, own: seq<Tx>, a: Address)
    requires n > 0 && |parts| == n && Home(a, n).At? && Crossing(n, own) && NoneRefused(n, parts, own)
    requires forall i | 0 <= i < |own| :: Outgoing(own[i], a) > 0
    ensures BalanceAt(n, Combined(n, parts, own), a) == BalanceAt(n, parts, a) - Spent(own, a)
    ensures own != [] ==> Spent(own, a) <= BalanceAt(n, parts, a)
    decreases |own|
  {
    if own == [] {
      assert Combined(n, parts, own) == parts;
    } else {
      var rest, tx := own[..|own| - 1], own[|own| - 1];
      OwnPaid(n, parts, rest, a);
      assert Crosses(n, own[|own| - 1]);
      CombinedStep(n, parts, own, a);
    }
  }

  lemma OwnRefused(n: nat, parts: seq<State>, own: seq<Tx>, rest: seq<Tx>, a: Address)
    requires n > 0 && |parts| == n && Home(a, n).At? && Crossing(n, own)
    requires forall i | 0 <= i < |own| :: Outgoing(own[i], a) > 0
    requires !Covers(BalanceAt(n, parts, a), Spent(own, a))
    ensures !NoneRefused(n, parts, own + rest)
  {
    assert own != [];
    if NoneRefused(n, parts, own + rest) {
      NoneRefusedFirst(n, parts, own, rest);
      OwnPaid(n, parts, own, a);
    }
  }

  /** An account that cannot pay for all it sends: in the order that puts its transfers first, the total grows. */
  lemma OverdraftGrows(n: nat, parts: seq<State>, txs: seq<Tx>, accounts: seq<Address>, a: Address)
    requires n > 0 && |parts| == n && Distinct(accounts) && Includes(accounts, txs) && Crossing(n, txs)
    requires (forall a: Address | a in accounts :: Home(a, n).At?) && Home(a, n).At?
    requires !Covers(BalanceAt(n, parts, a), Spent(txs, a))
    ensures var order := Own(txs, a) + Others(txs, a);
      multiset(order) == multiset(txs) && !Conserved(n, parts, order, accounts)
  {
    var own, order := Own(txs, a), Own(txs, a) + Others(txs, a);
    OwnFirst(txs, a);
    OwnSpends(txs, a);
    forall i | 0 <= i < |own| ensures Crosses(n, own[i]) && Outgoing(own[i], a) > 0 {
      assert own[i] in own;
    }
    OwnRefused(n, parts, own, Others(txs, a), a);
    IncludesPermuted(accounts, txs, order);
    ConservedExactly(n, parts, order, accounts);
  }

  lemma IncludesPermuted(accounts: seq<Address>, txs: seq<Tx>, order: seq<Tx>)
    requires Includes(accounts, txs) && multiset(order) == multiset(txs)
    ensures Includes(accounts, order)
  {
    forall i | 0 <= i < |order| ensures order[i] in txs {
      assert order[i] in multiset(order);
    }
  }

  /** A batch between followers conserves the total in every order exactly if every account can pay for all it sends. */
  lemma ConservedInEveryOrder(n: nat, parts: seq<State>, txs: seq<Tx>, accounts: seq<Address>)
    requires n > 0 && |parts| == n && Distinct(accounts) && Includes(accounts, txs) && Crossing(n, txs)
    requires forall a: Address | a in accounts :: Home(a, n).At?
    ensures (forall order: seq<Tx> | multiset(order) == multiset(txs) :: Conserved(n, parts, order, accounts))
       <==> AllCovered(n, parts, txs)
  {
    if AllCovered(n, parts, txs) {
      forall order: seq<Tx> | multiset(order) == multiset(txs) ensures Conserved(n, parts, order, accounts) {
        IncludesPermuted(accounts, txs, order);
        forall a: Address ensures Spent(order, a) == Spent(txs, a) {
          SumsPermute(order, txs, a);
        }
        AffordableConserves(n, parts, order, accounts);
      }
    } else {
      var a: Address :| Home(a, n).At? && !Covers(BalanceAt(n, parts, a), Spent(txs, a));
      OverdraftGrows(n, parts, txs, accounts, a);
    }
  }

  /** An overdraft between followers: the sender keeps its balance, and the recipient is paid. */
  lemma OverdraftMints()
    ensures var order, parts: seq<State> := [Tx("0", "1", INIT_BALANCE + 1, "")], [map[], map[]];
            && BalanceAt(2, Combined(2, parts, order), "0") == BalanceAt(2, parts, "0")
            && BalanceAt(2, Combined(2, parts, order), "1") == BalanceAt(2, parts, "1") + INIT_BALANCE + 1
  {
    var order, parts: seq<State> := [Tx("0", "1", INIT_BALANCE + 1, "")], [map[], map[]];
    assert order[..0] == [] && Combined(2, parts, []) == parts;
    assert Home("0", 2) == At(0) && Home("1", 2) == At(1);
    CombinedStep(2, parts, order, "0");
    CombinedStep(2, parts, order, "1");
  }

  // ---------- The proposer ----------

  class Proposer {
    const followers: nat
    var pendingTxpool: seq<Tx>

    constructor (followers: nat)
      ensures this.followers == followers && pendingTxpool == []
    {
      this.followers, pendingTxpool := followers, [];
    }

    /** The goroutines append under a lock, in any order; both appends of one transfer are one step. */
    method SchedulingTxs(maxBlockSize: nat) returns (allocMap: map<nat, seq<Tx>>, ghost batch: seq<Tx>, ghost order: seq<Tx>)
      requires followers > 0
      modifies this
      ensures batch + pendingTxpool == old(pendingTxpool) && |batch| <= maxBlockSize
      ensures |batch| < maxBlockSize ==> pendingTxpool == []
      ensures multiset(order) == multiset(batch) && IsAllotment(allocMap, order, followers)
      ensures forall f: nat | f < followers :: f in allocMap && SentTo(allocMap[f], batch, f, followers)
    {
      var txSize := maxBlockSize;
      if txSize > |pendingTxpool| {
        txSize := |pendingTxpool|;
      }
      var localTxpool := pendingTxpool[..txSize];
      pendingTxpool := pendingTxpool[txSize..];
      batch := localTxpool;
      allocMap := map[];
      order := [];
      for i := 0 to followers
        invariant IsAllotment(allocMap, order, i)
        modifies {}
      {
        allocMap := allocMap[i := []];
      }
      var todo := multiset(localTxpool);
      while |todo| > 0
        invariant multiset(order) + todo == multiset(localTxpool) && IsAllotment(allocMap, order, followers)
        decreases |todo|
        modifies {}
      {
        var tx: Tx :| tx in todo;
        todo := todo - multiset{tx};
        allocMap := Append(allocMap, tx, followers, order);
        order := order + [tx];
      }
      assert todo == multiset{};
      AllotmentSent(allocMap, order, batch, followers);
    }
  }

  /** The list holds exactly the transfers of the batch that have an end at follower `f`, each as often. */
  ghost predicate SentTo(list: seq<Tx>, batch: seq<Tx>, f: nat, n: nat)
    requires n > 0
  {
    forall tx :: multiset(list)[tx] == if GoesTo(tx, f, n) then multiset(batch)[tx] else 0
  }

  lemma AllotmentSent(allocMap: map<nat, seq<Tx>>, order: seq<Tx>, batch: seq<Tx>, n: nat)
    requires n > 0 && IsAllotment(allocMap, order, n) && multiset(order) == multiset(batch)
    ensures forall f: nat | f < n :: f in allocMap && SentTo(allocMap[f], batch, f, n)
  {
    forall f: nat, tx | f < n ensures multiset(allocMap[f])[tx] == if GoesTo(tx, f, n) then multiset(batch)[tx] else 0 {
      AllottedOften(order, f, n, tx);
    }
  }

  /** Each of the followers has a list, made by appending in this order. */
  ghost predicate IsAllotment(allocMap: map<nat, seq<Tx>>, order: seq<Tx>, n: nat) {
    forall f: nat | f < n :: f in allocMap && allocMap[f] == Allotted(order, f, n)
  }

  method Append(allocMap: map<nat, seq<Tx>>, tx: Tx, n: nat, ghost order: seq<Tx>) returns (out: map<nat, seq<Tx>>)
    requires n > 0 && IsAllotment(allocMap, order, n)
    ensures IsAllotment(out, order + [tx], n)
  {
    assert (order + [tx])[..|order|] == order;
    out := allocMap;
    var dest1, dest2 := Home(tx.sender, n), Home(tx.recipient, n);
    if dest1.Nowhere? || dest2.Nowhere? {
      return;
    }
    out := out[dest1.follower := out[dest1.follower] + [tx]];
    if dest1 != dest2 {
      out := out[dest2.follower := out[dest2.follower] + [tx]];
    }
  }

  // ---------- A follower ----------

  class AccountState {
    var nonce: nat
    var balance: int

    constructor (account: Account)
      ensures nonce == account.nonce && balance == account.balance
    {
      nonce, balance := account.nonce, account.balance;
    }

    method Deduct(val: int) returns (ok: bool)
      modifies this`balance
      ensures ok <==> old(balance) >= val
      ensures balance == if ok then old(balance) - val else old(balance)
    {
      if balance < val {
        return false;
      }
      balance := balance - val;
      return true;
    }

    method Deposit(value: int)
      modifies this`balance
      ensures balance == old(balance) + value
    {
      balance := balance + value;
    }

    method Encode() returns (a: Account)
      ensures a == Account(nonce, balance)
    {
      a := Account(nonce, balance);
    }
  }

  class FollowerNode {
    const followerID: nat
    const followerNum: nat
    var accounts: State

    constructor (followerID: nat, followerNum: nat)
      ensures this.followerID == followerID && this.followerNum == followerNum && accounts == map[]
    {
      this.followerID, this.followerNum, accounts := followerID, followerNum, map[];
    }

    /** The hashes of the transfers that are not skipped. */
    ghost function Accepted(st: State, txs: seq<Tx>): seq<string>
      requires followerNum > 0
    {
      if txs == [] then
        []
      else
        var rest, tx := txs[..|txs| - 1], txs[|txs| - 1];
        var mid := ExecuteAll(followerID, followerNum, st, rest);
        Accepted(st, rest) + (if Placed(tx) && !Refuses(followerID, followerNum, mid, tx) then [tx.hash] else [])
    }

    method Load(a: Address, nonce: nat) returns (s: AccountState)
      ensures fresh(s) && Account(s.nonce, s.balance) == AccountOf(accounts, a, nonce)
    {
      s := new AccountState(AccountOf(accounts, a, nonce));
    }

    /** The sender's side of a transfer; false if it cannot pay. */
    method Debit(i: nat, tx: Tx) returns (paid: bool)
      requires followerNum > 0 && Home(tx.sender, followerNum) == At(followerID)
      modifies this`accounts
      ensures paid <==> Balance(old(accounts), tx.sender) >= tx.value
      ensures accounts == if paid then Deducted(followerID, followerNum, old(accounts), i, tx) else old(accounts)
    {
      var s := Load(tx.sender, i);
      if s.balance < tx.value {
        return false;
      }
      var ok := s.Deduct(tx.value);
      var enc := s.Encode();
      accounts := accounts[tx.sender := enc];
      return true;
    }

    /** The recipient's side. */
    method Credit(i: nat, tx: Tx)
      requires followerNum > 0 && Home(tx.recipient, followerNum) == At(followerID)
      modifies this`accounts
      ensures accounts == Deposited(followerID, followerNum, old(accounts), i, tx)
    {
      var r := Load(tx.recipient, i);
      r.Deposit(tx.value);
      var enc := r.Encode();
      accounts := accounts[tx.recipient := enc];
    }

    method ProcessTx(i: nat, tx: Tx) returns (done: bool)
      requires followerNum > 0
      modifies this
      ensures accounts == Execute(followerID, followerNum, old(accounts), i, tx)
      ensures done <==> Placed(tx) && !Refuses(followerID, followerNum, old(accounts), tx)
      ensures done <==> Accepts(followerID, followerNum, old(accounts), tx)
      ensures if done then Settled(followerID, followerNum, old(accounts), i, tx, accounts) else accounts == old(accounts)
    {
      AcceptsUnlessRefused(followerID, followerNum, accounts, tx);
      var dest1, dest2 := Home(tx.sender, followerNum), Home(tx.recipient, followerNum);
      if dest1.Nowhere? || dest2.Nowhere? {
        return false;
      }
      if dest1.follower == followerID {
        var paid := Debit(i, tx);
        if !paid {
          return false;
        }
      }
      if dest2.follower == followerID {
        Credit(i, tx);
      }
      ExecuteSettles(followerID, followerNum, old(accounts), i, tx);
      return true;
    }

    method ProcessTxs(txs: seq<Tx>) returns (hashes: seq<string>)
      requires followerNum > 0
      modifies this
      ensures accounts == ExecuteAll(followerID, followerNum, old(accounts), txs)
      ensures hashes == Accepted(old(accounts), txs)
    {
      hashes := [];
      for i := 0 to |txs|
        invariant accounts == ExecuteAll(followerID, followerNum, old(accounts), txs[..i])
        invariant hashes == Accepted(old(accounts), txs[..i])
      {
        assert txs[..i + 1][..i] == txs[..i];
        var done := ProcessTx(i, txs[i]);
        if done {
          hashes := hashes + [txs[i].hash];
        }
      }
      assert txs[..|txs|] == txs;
    }
  }

  // ---------- One block ----------

  /** The followers in the order of their numbers. */
  ghost predicate Team(nodes: seq<FollowerNode>) {
    forall f | 0 <= f < |nodes| :: nodes[f].followerID == f && nodes[f].followerNum == |nodes|
  }

  ghost function Parts(nodes: seq<FollowerNode>): seq<State>
    reads nodes
  {
    seq(|nodes|, f requires 0 <= f < |nodes| reads nodes => nodes[f].accounts)
  }

  /** Every follower executes its part. */
  method ExecuteParts(nodes: seq<FollowerNode>, allocMap: map<nat, seq<Tx>>, ghost order: seq<Tx>)
    requires nodes != [] && Team(nodes) && IsAllotment(allocMap, order, |nodes|)
    modifies nodes
    ensures Parts(nodes) == Combined(|nodes|, old(Parts(nodes)), order)
  {
    ghost var before := Parts(nodes);
    ghost var after := Combined(|nodes|, before, order);
    for f := 0 to |nodes|
      invariant forall g | 0 <= g < |nodes| :: nodes[g].accounts == if g < f then after[g] else before[g]
    {
      var hashes := nodes[f].ProcessTxs(allocMap[f]);
    }
  }

  /** Every account, at the follower of its first digit, has gained what the batch pays it and lost what it sends. */
  ghost predicate PaidOut(n: nat, parts: seq<State>, parts': seq<State>, batch: seq<Tx>)
    requires n > 0 && |parts| == |parts'| == n
  {
    forall a: Address, i: nat | StartsWith(a, i) ::
      Balance(parts'[i % n], a) == Balance(parts[i % n], a) + Received(batch, a) - Spent(batch, a)
  }

  lemma CoveredPaidOut(n: nat, parts: seq<State>, batch: seq<Tx>, order: seq<Tx>)
    requires n > 0 && |parts| == n && multiset(order) == multiset(batch) && AllCovered(n, parts, batch)
    ensures PaidOut(n, parts, Combined(n, parts, order), batch)
  {
    forall a: Address, i: nat | StartsWith(a, i)
      ensures Balance(Combined(n, parts, order)[i % n], a) == Balance(parts[i % n], a) + Received(batch, a) - Spent(batch, a)
    {
      var f := i % n;
      HomeOfDigit(a, i, n);
      forall b: Address | Home(b, n) == At(f) ensures Covers(Balance(parts[f], b), Spent(Allotted(order, f, n), b)) {
        AllottedSums(order, f, n, b);
        SumsPermute(order, batch, b);
        assert Covers(BalanceAt(n, parts, b), Spent(batch, b));
      }
      ExecuteAllBalance(f, n, parts[f], Allotted(order, f, n), a);
      AllottedSums(order, f, n, a);
      SumsPermute(order, batch, a);
    }
  }

  /** The proposer takes a batch from its pool, and the followers execute it. */
  method ExecuteBlock(proposer: Proposer, nodes: seq<FollowerNode>, maxBlockSize: nat)
    returns (ghost batch: seq<Tx>, ghost order: seq<Tx>)
    requires proposer.followers == |nodes| > 0 && Team(nodes)
    modifies proposer, nodes
    ensures batch + proposer.pendingTxpool == old(proposer.pendingTxpool) && |batch| <= maxBlockSize
    ensures multiset(order) == multiset(batch) && Parts(nodes) == Combined(|nodes|, old(Parts(nodes)), order)
    ensures AllCovered(|nodes|, old(Parts(nodes)), batch) ==> PaidOut(|nodes|, old(Parts(nodes)), Parts(nodes), batch)
  {
    ghost var before := Parts(nodes);
    var allocMap;
    allocMap, batch, order := proposer.SchedulingTxs(maxBlockSize);
    assert Parts(nodes) == before;
    ExecuteParts(nodes, allocMap, order);
    if AllCovered(|nodes|, before, batch) {
      CoveredPaidOut(|nodes|, before, batch, order);
    }
  }
}
