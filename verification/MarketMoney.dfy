/** Where the money of the marketplace is, over every run. */
module MarketMoney {
  import opened MarketSpec
  import opened MarketLaws

  // ----- Rows explain balances

  /** The signed sum of the rows of account `a`. */
  function Net(txs: seq<Tx>, a: Id): real {
    if txs == [] then 0.0
    else
      var tx := txs[|txs| - 1];
      Net(txs[..|txs| - 1], a) + if tx.account == a then Signed(tx) else 0.0
  }

  function Base(opening: map<Id, real>, a: Id): real {
    if a in opening then opening[a] else 0.0
  }

  /** Each balance is its opening balance plus its rows. */
  ghost predicate Ledger(opening: map<Id, real>, s: State) {
    && opening.Keys <= s.accounts.Keys
    && forall a :: a in s.accounts ==> s.accounts[a] == Base(opening, a) + Net(s.txs, a)
  }

  lemma {:induction false} NetAppend(txs: seq<Tx>, tx: Tx, a: Id)
    ensures Net(txs + [tx], a) == Net(txs, a) + if tx.account == a then Signed(tx) else 0.0
  {
    assert (txs + [tx])[..|txs|] == txs;
  }

  lemma {:induction false} NoRows(txs: seq<Tx>, accounts: set<Id>, a: Id)
    requires RowsOk(txs, accounts) && a !in accounts
    ensures Net(txs, a) == 0.0
  {
    if txs != [] {
      NoRows(txs[..|txs| - 1], accounts, a);
    }
  }

  lemma {:induction false} LedgerPost(o: map<Id, real>, s: State, tx: Tx)
    requires Ledger(o, s) && tx.account in s.accounts
    ensures Ledger(o, Post(s, tx)) && Post(s, tx).accounts.Keys == s.accounts.Keys
  {
    hide Net; hide Base; hide Signed;
    var r := Post(s, tx);
    assert r.accounts.Keys == s.accounts.Keys;
    forall a | a in r.accounts ensures r.accounts[a] == Base(o, a) + Net(r.txs, a) {
      NetAppend(s.txs, tx, a);
    }
  }

  lemma {:induction false} LedgerOpen(o: map<Id, real>, s: State, a: Id)
    requires Ledger(o, s) && RowsOk(s.txs, s.accounts.Keys)
    ensures Ledger(o, Open(s, a, 0.0))
  {
    if a !in s.accounts {
      NoRows(s.txs, s.accounts.Keys, a);
    }
  }

  lemma {:induction false} LedgerCharge(o: map<Id, real>, s: State, l: Id, consumer: Id, worker: Id, cost: real)
    requires Ledger(o, s) && consumer in s.accounts && worker in s.accounts && TREASURY in s.accounts
    ensures Ledger(o, Charge(s, l, consumer, worker, cost))
  {
    hide Post; hide Ledger;
    var t1, t2 := Tx(consumer, LeaseCharge, cost, l), Tx(worker, ProviderPayout, 0.95 * cost, l);
    LedgerPost(o, s, t1);
    LedgerPost(o, Post(s, t1), t2);
    LedgerPost(o, Post(Post(s, t1), t2), Tx(TREASURY, PlatformFee, 0.05 * cost, l));
  }

  lemma {:induction false} LedgerSettle(o: map<Id, real>, s: State, l: Id)
    requires Ledger(o, s) && l in s.leases
    ensures Ledger(o, Settle(s, l))
  {
    hide Charge; hide Net;
    var lease := s.leases[l];
    if lease.consumer in s.accounts && lease.worker in s.accounts && TREASURY in s.accounts {
      LedgerCharge(o, s, l, lease.consumer, lease.worker, Cost(s, l));
    }
  }

  lemma {:induction false} LedgerSettleAll(o: map<Id, real>, s: State, ls: seq<Id>)
    requires Tables(s) && Ledger(o, s) && forall l :: l in ls ==> l in s.leases
    ensures Ledger(o, SettleAll(s, ls))
    decreases |ls|
  {
    hide Ledger; hide Settle; hide Tables;
    if ls != [] {
      LedgerSettle(o, s, ls[0]);
      TablesSettle(s, ls[0]);
      LedgerSettleAll(o, Settle(s, ls[0]), ls[1..]);
    }
  }

  lemma {:induction false} LedgerStop(o: map<Id, real>, s: State, secret: bool, l: Id, now: real)
    requires Ledger(o, s)
    ensures Ledger(o, StopStep(s, secret, l, now).0)
  {
    hide Net; hide Close; hide Settle; hide SafeId;
    if l in s.leases {
      KeysClose(s, l, now);
      CloseFrame(s, l, now);
      LedgerSettle(o, Close(s, l, now), l);
    }
  }

  lemma {:induction false} LedgerExpire(o: map<Id, real>, s: State, now: real)
    requires Tables(s) && Ledger(o, s)
    ensures Ledger(o, ExpireStep(s, now))
  {
    hide Net; hide Tables; hide CloseAll; hide SettleAll; hide ExpiredOf; hide SafeId;
    OrderDistinct(s);
    var expired := ExpiredOf(s, s.leaseOrder, now);
    CloseAllEffect(s, expired, now);
    TablesCloseAll(s, expired, now);
    LedgerSettleAll(o, CloseAll(s, expired, now).0, expired);
  }

  lemma {:induction false} LedgerTransfer(o: map<Id, real>, s: State, from: Id, to: Id, x: real)
    requires Ledger(o, s)
    ensures Ledger(o, TransferStep(s, from, to, x).0)
  {
    hide Post; hide Ledger; hide Signed;
    if from in s.accounts {
      var t1 := Tx(from, TransferOut, x, "");
      LedgerPost(o, s, t1);
      if to in s.accounts {
        LedgerPost(o, Post(s, t1), Tx(to, TransferIn, x, ""));
      }
    }
  }

  lemma {:induction false} LedgerRegister(o: map<Id, real>, s: State, w: Id)
    requires Tables(s) && Ledger(o, s)
    ensures Ledger(o, RegisterStep(s, w)) && Ledger(o, Open(s, w, 0.0))
  {
    hide Net; hide Lists;
    LedgerOpen(o, s, w);
    RegisterFrame(s, w);
  }

  lemma {:induction false} LedgerFrame(o: map<Id, real>, s: State, r: State)
    requires Ledger(o, s) && r.accounts == s.accounts && r.txs == s.txs
    ensures Ledger(o, r)
  {
    hide Net;
  }

  lemma {:induction false} LedgerStep(o: map<Id, real>, s: State, op: Op)
    requires Tables(s) && Ledger(o, s)
    ensures Ledger(o, Step(s, op))
  {
    hide Post; hide Ledger; hide RentStep; hide StopStep; hide ExpireStep; hide Tables; hide TransferStep;
    hide RegisterStep; hide Open;
    match op
    case OpenAccount(a) => LedgerRegister(o, s, a);
    case DepositOp(a, x) =>
      if a in s.accounts {
        LedgerPost(o, s, Tx(a, Deposit, x, ""));
      }
    case WithdrawOp(a, x) =>
      if a in s.accounts {
        LedgerPost(o, s, Tx(a, Withdraw, x, ""));
      }
    case TransferOp(from, to, x) => LedgerTransfer(o, s, from, to, x);
    case RegisterOp(w) => LedgerRegister(o, s, w);
    case StatusOp(w, state) => LedgerFrame(o, s, Step(s, op));
    case PriceOp(w, x, _, _) => LedgerFrame(o, s, Step(s, op));
    case RentOp(allowed, consumer, wanted, duration, l, now) =>
      RentFrame(s, allowed, consumer, wanted, duration, l, now);
      LedgerFrame(o, s, Step(s, op));
    case StopOp(secret, l, now) => LedgerStop(o, s, secret, l, now);
    case ExpireOp(now) => LedgerExpire(o, s, now);
  }

  // ----- Nothing is created or lost inside

  function Balance(m: map<Id, real>, a: Id): real {
    if a in m then m[a] else 0.0
  }

  function SumOf(q: seq<Id>, m: map<Id, real>): real {
    if q == [] then 0.0 else SumOf(q[..|q| - 1], m) + Balance(m, q[|q| - 1])
  }

  function Total(s: State): real {
    SumOf(s.ids, s.accounts)
  }

  lemma {:induction false} SumUpdate(q: seq<Id>, keys: set<Id>, m: map<Id, real>, a: Id, x: real)
    requires Lists(q, keys)
    ensures SumOf(q, m[a := x]) == SumOf(q, m) + if a in q then x - Balance(m, a) else 0.0
  {
    if q != [] {
      var last := q[|q| - 1];
      SumUpdate(q[..|q| - 1], keys - {last}, m, a, x);
      assert a in q <==> a == last || a in q[..|q| - 1];
      assert last !in q[..|q| - 1];
    }
  }

  lemma {:induction false} TotalPost(s: State, tx: Tx)
    requires Tables(s) && tx.account in s.accounts
    ensures Total(Post(s, tx)) == Total(s) + Signed(tx)
  {
    hide Signed; hide SumOf;
    SumUpdate(s.ids, s.accounts.Keys, s.accounts, tx.account, s.accounts[tx.account] + Signed(tx));
  }

  lemma {:induction false} TotalOpen(s: State, a: Id)
    requires Tables(s)
    ensures Total(Open(s, a, 0.0)) == Total(s)
  {
    if a !in s.accounts {
      SumUpdate(s.ids, s.accounts.Keys, s.accounts, a, 0.0);
      assert (s.ids + [a])[..|s.ids|] == s.ids;
    }
  }

  /** Provider and platform together get what the consumer pays. */
  lemma {:induction false} TotalCharge(s: State, l: Id, consumer: Id, worker: Id, cost: real)
    requires Tables(s) && consumer in s.accounts && worker in s.accounts
    ensures Total(Charge(s, l, consumer, worker, cost)) == Total(s)
  {
    hide Post; hide Tables; hide Total;
    TreasuryOpen(s);
    var t1, t2 := Tx(consumer, LeaseCharge, cost, l), Tx(worker, ProviderPayout, 0.95 * cost, l);
    var t3 := Tx(TREASURY, PlatformFee, 0.05 * cost, l);
    TotalPost(s, t1);
    TablesPost(s, t1);
    TotalPost(Post(s, t1), t2);
    TablesPost(Post(s, t1), t2);
    TotalPost(Post(Post(s, t1), t2), t3);
  }

  /** What a payment of x changes for account `a`, in whichever of the three roles it appears:
      nineteen twentieths go to the worker, the rest to the treasury. */
  function Change(consumer: Id, worker: Id, a: Id, x: real): real {
    (if a == worker then 0.95 * x else 0.0) + (if a == TREASURY then 0.05 * x else 0.0)
    - (if a == consumer then x else 0.0)
  }

  function Moved(accounts: map<Id, real>, consumer: Id, worker: Id, x: real): map<Id, real> {
    map a | a in accounts :: accounts[a] + Change(consumer, worker, a, x)
  }

  lemma {:induction false} ChargeMoves(s: State, l: Id, consumer: Id, worker: Id, x: real)
    requires consumer in s.accounts && worker in s.accounts && TREASURY in s.accounts
    ensures Charge(s, l, consumer, worker, x).accounts == Moved(s.accounts, consumer, worker, x)
  {
    hide Post;
    var t1, t2 := Tx(consumer, LeaseCharge, x, l), Tx(worker, ProviderPayout, 0.95 * x, l);
    var t3 := Tx(TREASURY, PlatformFee, 0.05 * x, l);
    var s1 := Post(s, t1);
    var s2 := Post(s1, t2);
    var r := Post(s2, t3);
    PostMoves(s, t1);
    PostMoves(s1, t2);
    PostMoves(s2, t3);
    forall a | a in s.accounts ensures r.accounts[a] == Moved(s.accounts, consumer, worker, x)[a] {
      assert r.accounts[a] == s2.accounts[a] + if a == TREASURY then 0.05 * x else 0.0;
      assert s2.accounts[a] == s1.accounts[a] + if a == worker then 0.95 * x else 0.0;
    }
  }

  lemma {:induction false} PostMoves(s: State, tx: Tx)
    requires tx.account in s.accounts
    ensures Post(s, tx).accounts.Keys == s.accounts.Keys
    ensures forall a :: a in s.accounts ==>
              Post(s, tx).accounts[a] == s.accounts[a] + if a == tx.account then Signed(tx) else 0.0
  {
  }

  /** Settling moves exactly the payment, whether or not the parties are different, and the record of
      the first settlement says so. */
  lemma {:induction false} SettlementSplit(s: State, l: Id)
    requires Tables(s) && l in s.leases
    ensures var r, lease := Settle(s, l), s.leases[l];
            var x := Payable(Due(lease), s.accounts[lease.consumer]);
            && r.accounts == Moved(s.accounts, lease.consumer, lease.worker, x)
            && r.settlements == (if l in s.settlements then s.settlements
                                 else s.settlements[l := Settlement(x, 0.95 * x, 0.05 * x)])
            && r.txs == s.txs + [Tx(lease.consumer, LeaseCharge, x, l), Tx(lease.worker, ProviderPayout, 0.95 * x, l),
                                 Tx("platform-treasury", PlatformFee, 0.05 * x, l)]
            && r.workers == s.workers && r.leases == s.leases
    ensures var r, lease := Settle(s, l), s.leases[l];
            var c, w, due := lease.consumer, lease.worker, (lease.ended - lease.created) * lease.rate;
            c != w && c != TREASURY && w != TREASURY && due >= 0.0 && s.accounts[c] >= 0.0 ==>
              if due <= s.accounts[c]
              then r.accounts[c] == s.accounts[c] - due && r.accounts[w] == s.accounts[w] + 0.95 * due
              else r.accounts[c] == 0.0 && r.accounts[w] == s.accounts[w] + 0.95 * s.accounts[c]
  {
    hide Lists; hide Due; hide Charge; hide Moved;
    var lease := s.leases[l];
    ChargeMoves(s, l, lease.consumer, lease.worker, Cost(s, l));
    ChargeFrame(s, l, lease.consumer, lease.worker, Cost(s, l));
    DueIs(lease);
    if lease.consumer != lease.worker && lease.consumer != TREASURY && lease.worker != TREASURY {
      MovedParts(s.accounts, lease.consumer, lease.worker, Cost(s, l));
    }
  }

  lemma {:induction false} DueIs(lease: Lease)
    ensures Due(lease) == (lease.ended - lease.created) * lease.rate
  {
  }

  lemma {:induction false} MovedParts(accounts: map<Id, real>, c: Id, w: Id, x: real)
    requires c in accounts && w in accounts && c != w && c != TREASURY && w != TREASURY
    ensures var r := Moved(accounts, c, w, x); r[c] == accounts[c] - x && r[w] == accounts[w] + 0.95 * x
  {
  }

  lemma {:induction false} TotalSettle(s: State, l: Id)
    requires Tables(s) && l in s.leases
    ensures Total(Settle(s, l)) == Total(s)
  {
    hide Charge; hide SumOf; hide Lists;
    TotalCharge(s, l, s.leases[l].consumer, s.leases[l].worker, Cost(s, l));
  }

  lemma {:induction false} TotalSettleAll(s: State, ls: seq<Id>)
    requires Tables(s) && forall l :: l in ls ==> l in s.leases
    ensures Total(SettleAll(s, ls)) == Total(s)
    decreases |ls|
  {
    hide Tables; hide Settle; hide Total;
    if ls != [] {
      TotalSettle(s, ls[0]);
      TablesSettle(s, ls[0]);
      TotalSettleAll(Settle(s, ls[0]), ls[1..]);
    }
  }

  /** What an operation brings in from outside, or takes out: deposits, withdrawals, and transfers to
      an account that does not exist. */
  function Flow(s: State, op: Op): real {
    match op
    case DepositOp(a, x) => if DepositStep(s, a, x).1 == Done then x else 0.0
    case WithdrawOp(a, x) => if WithdrawStep(s, a, x).1 == Done then -x else 0.0
    case TransferOp(from, to, x) =>
      if x > 0.0 && from in s.accounts && s.accounts[from] >= x && to !in s.accounts then -x else 0.0
    case _ => 0.0
  }

  lemma {:induction false} TotalTransfer(s: State, from: Id, to: Id, x: real)
    requires Tables(s)
    ensures Total(TransferStep(s, from, to, x).0) == Total(s) + Flow(s, TransferOp(from, to, x))
  {
    hide Post; hide Tables; hide Total;
    if from in s.accounts {
      var t1 := Tx(from, TransferOut, x, "");
      TotalPost(s, t1);
      TablesPost(s, t1);
      if to in s.accounts {
        TotalPost(Post(s, t1), Tx(to, TransferIn, x, ""));
      }
    }
  }

  lemma {:induction false} TotalStop(s: State, secret: bool, l: Id, now: real)
    requires Tables(s)
    ensures Total(StopStep(s, secret, l, now).0) == Total(s)
  {
    hide Tables; hide Settle; hide Close; hide SafeId; hide SumOf;
    if l in s.leases {
      KeysClose(s, l, now);
      CloseFrame(s, l, now);
      TablesClose(s, l, now);
      TotalSettle(Close(s, l, now), l);
    }
  }

  lemma {:induction false} TotalExpire(s: State, now: real)
    requires Tables(s)
    ensures Total(ExpireStep(s, now)) == Total(s)
  {
    hide Tables; hide CloseAll; hide SettleAll; hide ExpiredOf; hide SumOf; hide SafeId;
    OrderDistinct(s);
    var expired := ExpiredOf(s, s.leaseOrder, now);
    CloseAllEffect(s, expired, now);
    TablesCloseAll(s, expired, now);
    TotalSettleAll(CloseAll(s, expired, now).0, expired);
  }

  lemma {:induction false} TotalFrame(s: State, r: State)
    requires r.accounts == s.accounts && r.ids == s.ids
    ensures Total(r) == Total(s)
  {
  }

  lemma {:induction false} TotalRegister(s: State, w: Id)
    requires Tables(s)
    ensures Total(RegisterStep(s, w)) == Total(s) && Total(Open(s, w, 0.0)) == Total(s)
  {
    hide Tables; hide SumOf;
    TotalOpen(s, w);
    RegisterFrame(s, w);
  }

  lemma {:induction false} TotalStep(s: State, op: Op)
    requires Tables(s)
    ensures Total(Step(s, op)) == Total(s) + Flow(s, op)
  {
    hide Post; hide Tables; hide Total; hide RentStep; hide StopStep; hide ExpireStep; hide TransferStep;
    hide RegisterStep; hide Open;
    match op
    case OpenAccount(a) => TotalRegister(s, a);
    case DepositOp(a, x) =>
      if a in s.accounts {
        TotalPost(s, Tx(a, Deposit, x, ""));
      }
    case WithdrawOp(a, x) =>
      if a in s.accounts {
        TotalPost(s, Tx(a, Withdraw, x, ""));
      }
    case TransferOp(from, to, x) => TotalTransfer(s, from, to, x);
    case RegisterOp(w) => TotalRegister(s, w);
    case StatusOp(w, state) => TotalFrame(s, Step(s, op));
    case PriceOp(w, x, _, _) => TotalFrame(s, Step(s, op));
    case RentOp(allowed, consumer, wanted, duration, l, now) =>
      RentFrame(s, allowed, consumer, wanted, duration, l, now);
      TotalFrame(s, Step(s, op));
    case StopOp(secret, l, now) => TotalStop(s, secret, l, now);
    case ExpireOp(now) => TotalExpire(s, now);
  }

  /** A transfer keeps the total exactly when it was refused outright or the payee has an account. */
  lemma {:induction false} TransferConserves(s: State, from: Id, to: Id, x: real)
    requires Tables(s)
    ensures var r := TransferStep(s, from, to, x).0;
            Total(r) == Total(s) <==> x <= 0.0 || from !in s.accounts || s.accounts[from] < x || to in s.accounts
  {
    hide Total; hide Tables;
    TotalStep(s, TransferOp(from, to, x));
  }

  /** A transfer between accounts: who pays, who gets, and that nobody else is touched. */
  lemma {:induction false} TransferOutcome(s: State, from: Id, to: Id, x: real)
    ensures var (r, reply) := TransferStep(s, from, to, x);
            && (reply == Done <==> x > 0.0 && from in s.accounts && s.accounts[from] >= x && to in s.accounts)
            && (reply == Done ==>
                  && r.txs == s.txs + [Tx(from, TransferOut, x, ""), Tx(to, TransferIn, x, "")]
                  && r.accounts.Keys == s.accounts.Keys
                  && (from == to ==> r.accounts == s.accounts)
                  && (from != to ==> r.accounts[from] == s.accounts[from] - x && r.accounts[to] == s.accounts[to] + x)
                  && (forall a :: a in s.accounts && a != from && a != to ==> r.accounts[a] == s.accounts[a]))
  {
  }

  /** When a deposit or a withdrawal succeeds, and what it does to the balances. */
  lemma {:induction false} CashOutcome(s: State, a: Id, x: real)
    ensures var (r, reply) := DepositStep(s, a, x);
            if x > 0.0 && a in s.accounts
            then && reply == Done
                 && r == s.(accounts := s.accounts[a := s.accounts[a] + x], txs := s.txs + [Tx(a, Deposit, x, "")])
            else reply == Refused && r == s
    ensures var (r, reply) := WithdrawStep(s, a, x);
            if x > 0.0 && a in s.accounts && x <= s.accounts[a]
            then && reply == Done
                 && r == s.(accounts := s.accounts[a := s.accounts[a] - x], txs := s.txs + [Tx(a, Withdraw, x, "")])
            else reply == Refused && r == s
  {
  }

  /** What registering, setting a price and reporting a status change about a worker: a new worker has the
      default price of 0.60 a minute and an account, a known one keeps its price. */
  lemma {:induction false} WorkerOutcome(s: State, w: Id, price: real, least: int, most: int, state: string)
    ensures var r := RegisterStep(s, w);
            && w in r.workers && r.workers[w].state == "AVAILABLE" && w in r.accounts
            && r.workers[w].pricePerMin == (if w in s.workers then s.workers[w].pricePerMin else 0.60)
            && r.accounts == (if w in s.accounts then s.accounts else s.accounts[w := 0.0])
            && (forall v :: v in s.workers && v != w ==> v in r.workers && r.workers[v] == s.workers[v])
            && r.leases == s.leases && r.roster == (if w in s.workers then s.roster else s.roster + [w])
    ensures var (r, reply) := PriceStep(s, w, price, least, most);
            if w in s.workers && price >= 0.0 && 1 <= least <= most
            then reply == Done && r == s.(workers := s.workers[w := Worker(s.workers[w].state, price)])
            else reply == Refused && r == s
    ensures var r := StatusStep(s, w, state);
            r == if w in s.workers && w != "" && state != ""
                 then s.(workers := s.workers[w := Worker(state, s.workers[w].pricePerMin)]) else s
  {
  }

  /** A rented lease is overdue exactly when more time has passed since than it was rented for. */
  lemma {:induction false} RentedOverdue(s: State, allowed: bool, consumer: Id, wanted: Id, duration: int, l: Id,
                                         t: real, now: real)
    requires Tables(s) && RentStep(s, allowed, consumer, wanted, duration, l, t).1.Rented?
    ensures l in Overdue(Step(s, RentOp(allowed, consumer, wanted, duration, l, t)), now)
            <==> now > t + duration as real
  {
    hide Tables; hide Overdue; hide RentStep; hide Rentable; hide Step;
    var op := RentOp(allowed, consumer, wanted, duration, l, t);
    RentEffect(s, allowed, consumer, wanted, duration, l, t);
    TablesStep(s, op);
    OverdueMeans(Step(s, op), now);
  }

  /** Renting, from a named worker or from any, and stopping later, end to end: the worker is free again,
      and the consumer has paid by the second, as far as the balance goes, at the price that held when
      the lease began, unless the worker cannot be told to stop. */
  lemma {:induction false} RentThenStop(s: State, allowed: bool, consumer: Id, wanted: Id, duration: int, l: Id,
                                        t: real, t': real)
    requires Tables(s) && ChargedOnce(s) && RentStep(s, allowed, consumer, wanted, duration, l, t).1.Rented?
    ensures var rented := Step(s, RentOp(allowed, consumer, wanted, duration, l, t));
            var r := Step(rented, StopOp(true, l, t'));
            && l in rented.leases && l in r.leases && !r.leases[l].active && r.workers == s.workers
            && var w := rented.leases[l].worker;
            && Rentable(s, w) && consumer in s.accounts
            && var x := Payable(Metered(t, t', s.workers[w].pricePerMin), s.accounts[consumer]);
            && (if SafeId(w) then r.accounts == Moved(s.accounts, consumer, w, x) && l in r.settlements
                else r.accounts == s.accounts && l !in r.settlements)
  {
    hide Lists; hide SafeId; hide Rentable; hide Step; hide RentStep; hide Charges; hide Moved;
    hide Payable; hide Close;
    hide Due; hide Metered;
    var op := RentOp(allowed, consumer, wanted, duration, l, t);
    var rented := Step(s, op);
    RentEffect(s, allowed, consumer, wanted, duration, l, t);
    TablesStep(s, op);
    StopPays(rented, l, t');
    var w := rented.leases[l].worker;
    DueOf(rented.leases[l], t', s.workers[w].pricePerMin);
    FreeAgain(s, rented, l, w, t');
  }

  /** The price of the time from t to t', by the second. */
  function Metered(t: real, t': real, pricePerMin: real): real {
    (t' - t) * (pricePerMin / 60.0)
  }

  lemma {:induction false} DueOf(lease: Lease, t': real, price: real)
    requires lease.rate == price / 60.0
    ensures Due(lease.(ended := t')) == Metered(lease.created, t', price)
  {
  }

  lemma {:induction false} RentEffect(s: State, allowed: bool, consumer: Id, wanted: Id, duration: int, l: Id, t: real)
    requires RentStep(s, allowed, consumer, wanted, duration, l, t).1.Rented?
    ensures var r := Step(s, RentOp(allowed, consumer, wanted, duration, l, t));
            && r.accounts == s.accounts && r.settlements == s.settlements && consumer in s.accounts
            && l !in s.leases && l in r.leases
            && var w := r.leases[l].worker;
            && Rentable(s, w) && w in s.workers && s.workers[w].state == AVAILABLE && (wanted != "" ==> w == wanted)
            && r.workers == s.workers[w := s.workers[w].(state := LEASED)]
            && r.leases[l] == Lease(w, consumer, s.workers[w].pricePerMin / 60.0, t, duration, true, 0.0)
  {
    hide FirstRentable; hide Busy;
    RentTarget(s, wanted);
    NamedTarget(s, wanted);
  }

  lemma {:induction false} NamedTarget(s: State, wanted: Id)
    ensures FirstRentable(s, [wanted]) == if Rentable(s, wanted) then [wanted] else []
  {
    hide Rentable;
  }

  lemma {:induction false} StopPays(s: State, l: Id, now: real)
    requires Tables(s) && l in s.leases && s.leases[l].active && l !in s.settlements
    ensures var r, lease := Step(s, StopOp(true, l, now)), s.leases[l];
            && lease.consumer in s.accounts
            && r.workers == Close(s, l, now).workers && l in r.leases && !r.leases[l].active
            && if SafeId(lease.worker)
               then && r.accounts == Moved(s.accounts, lease.consumer, lease.worker,
                                           Payable(Due(lease.(ended := now)), s.accounts[lease.consumer]))
                    && l in r.settlements
               else r.accounts == s.accounts && l !in r.settlements
  {
    hide Lists; hide SafeId; hide Settle; hide Close; hide Due; hide Moved; hide Payable;
    var lease, closed := s.leases[l], Close(s, l, now);
    KeysClose(s, l, now);
    CloseFrame(s, l, now);
    TablesClose(s, l, now);
    TablesSettle(closed, l);
    SettlementSplit(closed, l);
    DueAtEnd(lease, now);
    assert Step(s, StopOp(true, l, now)) == if SafeId(lease.worker) then Settle(closed, l) else closed;
  }

  /** When a stop succeeds, when it is refused outright, and what it closes. */
  lemma {:induction false} StopOutcome(s: State, secret: bool, l: Id, now: real)
    requires Tables(s)
    ensures var (r, reply) := StopStep(s, secret, l, now);
            var stops := secret && l in s.leases && s.leases[l].active;
            && (reply == Done <==> stops && Identifiers.SafeIdentifier(s.leases[l].worker))
            && (reply != Done ==> reply == Refused && r.accounts == s.accounts && r.txs == s.txs)
            && (!stops ==> r == s)
            && (stops ==>
                  && r.leases == s.leases[l := s.leases[l].(active := false, ended := now)]
                  && var w := s.leases[l].worker;
                  && r.workers == if w in s.workers
                                  then s.workers[w := Worker("AVAILABLE", s.workers[w].pricePerMin)] else s.workers)
  {
    hide Lists; hide Settle;
    if secret && l in s.leases && s.leases[l].active {
      KeysClose(s, l, now);
      TablesClose(s, l, now);
      SettlementSplit(Close(s, l, now), l);
    }
  }

  lemma {:induction false} DueAtEnd(lease: Lease, now: real)
    ensures Due(lease.(active := false, ended := now)) == Due(lease.(ended := now))
  {
  }

  lemma {:induction false} FreeAgain(s: State, rented: State, l: Id, w: Id, t: real)
    requires w in s.workers && s.workers[w].state == AVAILABLE && l in rented.leases && rented.leases[l].worker == w
    requires rented.workers == s.workers[w := s.workers[w].(state := LEASED)]
    ensures Close(rented, l, t).workers == s.workers
  {
  }

  // ----- No overdraft, as long as the clock does not run backwards

  ghost predicate NonNegative(s: State) {
    forall a :: a in s.accounts ==> s.accounts[a] >= 0.0
  }

  /** Every lease was created by time `c`. */
  ghost predicate Started(s: State, c: real) {
    forall l :: l in s.leases ==> s.leases[l].created <= c
  }

  lemma {:induction false} NonNegativePost(s: State, tx: Tx)
    requires NonNegative(s) && tx.account in s.accounts && s.accounts[tx.account] + Signed(tx) >= 0.0
    ensures NonNegative(Post(s, tx)) && Post(s, tx).accounts.Keys == s.accounts.Keys
  {
  }

  lemma {:induction false} NonNegativeCharge(s: State, l: Id, consumer: Id, worker: Id, cost: real)
    requires NonNegative(s) && consumer in s.accounts && worker in s.accounts && TREASURY in s.accounts
    requires 0.0 <= cost <= s.accounts[consumer]
    ensures NonNegative(Charge(s, l, consumer, worker, cost))
  {
    hide Post;
    var t1, t2 := Tx(consumer, LeaseCharge, cost, l), Tx(worker, ProviderPayout, 0.95 * cost, l);
    var t3 := Tx(TREASURY, PlatformFee, 0.05 * cost, l);
    NonNegativePost(s, t1);
    NonNegativePost(Post(s, t1), t2);
    NonNegativePost(Post(Post(s, t1), t2), t3);
  }

  lemma {:induction false} NonNegativeSettle(s: State, l: Id)
    requires Tables(s) && NonNegative(s) && l in s.leases && s.leases[l].created <= s.leases[l].ended
    ensures NonNegative(Settle(s, l))
  {
    hide Charge; hide Lists;
    var lease := s.leases[l];
    DueSign(lease);
    NonNegativeCharge(s, l, lease.consumer, lease.worker, Cost(s, l));
  }

  /** Exactly when settling overdraws an account: the lease ends before it starts, so that its cost is
      negative, and the worker or the treasury cannot cover its part. */
  lemma {:induction false} SettleOverdraws(s: State, l: Id)
    requires Tables(s) && NonNegative(s) && l in s.leases
    ensures var lease := s.leases[l];
            var c, w, due := lease.consumer, lease.worker, Due(lease);
            NonNegative(Settle(s, l)) <==>
              || due >= 0.0
              || (&& s.accounts[w] + Change(c, w, w, due) >= 0.0
                  && s.accounts[TREASURY] + Change(c, w, TREASURY, due) >= 0.0)
  {
    hide Lists; hide Due; hide Settle;
    var lease := s.leases[l];
    var c, w, due := lease.consumer, lease.worker, Due(lease);
    SettlementSplit(s, l);
    var r, x := Settle(s, l), Payable(due, s.accounts[c]);
    assert s.accounts[c] >= 0.0;
    assert due < 0.0 ==> x == due;
    assert due >= 0.0 ==> 0.0 <= x <= s.accounts[c];
    assert r.accounts[w] == s.accounts[w] + Change(c, w, w, x);
    assert r.accounts[TREASURY] == s.accounts[TREASURY] + Change(c, w, TREASURY, x);
  }

  lemma {:induction false} DueSign(lease: Lease)
    ensures lease.rate >= 0.0 && lease.created <= lease.ended ==> Due(lease) >= 0.0
    ensures lease.rate > 0.0 && lease.ended < lease.created ==> Due(lease) < 0.0
  {
    var x, y := lease.ended - lease.created, lease.rate;
    assert Due(lease) == x * y;
  }

  lemma {:induction false} NonNegativeSettleAll(s: State, ls: seq<Id>)
    requires Tables(s) && NonNegative(s)
    requires forall l :: l in ls ==> l in s.leases && s.leases[l].created <= s.leases[l].ended
    ensures NonNegative(SettleAll(s, ls))
    decreases |ls|
  {
    hide Tables; hide Settle; hide NonNegative;
    if ls != [] {
      NonNegativeSettle(s, ls[0]);
      TablesSettle(s, ls[0]);
      NonNegativeSettleAll(Settle(s, ls[0]), ls[1..]);
    }
  }

  /** The time an operation reads, or `c` when it reads none. */
  function Now(op: Op, c: real): real {
    match op
    case RentOp(_, _, _, _, _, now) => now
    case StopOp(_, _, now) => now
    case ExpireOp(now) => now
    case _ => c
  }

  lemma {:induction false} NonNegativeStop(s: State, c: real, secret: bool, l: Id, now: real)
    requires Tables(s) && NonNegative(s) && Started(s, c) && c <= now
    ensures NonNegative(StopStep(s, secret, l, now).0)
  {
    hide Tables; hide Settle; hide SafeId; hide Close;
    if secret && l in s.leases && s.leases[l].active {
      KeysClose(s, l, now);
      CloseFrame(s, l, now);
      TablesClose(s, l, now);
      NonNegativeSettle(Close(s, l, now), l);
    }
  }

  lemma {:induction false} NonNegativeExpire(s: State, c: real, now: real)
    requires Tables(s) && Exclusive(s) && NonNegative(s) && Started(s, c) && c <= now
    ensures NonNegative(ExpireStep(s, now))
  {
    hide Tables; hide Lists; hide CloseAll; hide SettleAll; hide ExpiredOf; hide SafeId;
    var expired := ExpiredOf(s, s.leaseOrder, now);
    OrderDistinct(s);
    ExpiredDistinct(s, s.leaseOrder, now);
    CloseAllLeases(s, expired, now);
    CloseAllEffect(s, expired, now);
    TablesCloseAll(s, expired, now);
    var (closed, reply) := CloseAll(s, expired, now);
    if reply == Done {
      assert forall l :: l in expired ==> closed.leases[l].created == s.leases[l].created;
      NonNegativeSettleAll(closed, expired);
    }
  }

  lemma {:induction false} NonNegativeQuiet(s: State, op: Op)
    requires NonNegative(s) && Quiet(op)
    ensures NonNegative(Step(s, op))
  {
    hide Post;
    match op
    case OpenAccount(a) =>
    case DepositOp(a, x) =>
      if x > 0.0 && a in s.accounts {
        NonNegativePost(s, Tx(a, Deposit, x, ""));
      }
    case WithdrawOp(a, x) =>
      if x > 0.0 && a in s.accounts && s.accounts[a] >= x {
        NonNegativePost(s, Tx(a, Withdraw, x, ""));
      }
    case TransferOp(from, to, x) =>
      if x > 0.0 && from in s.accounts && s.accounts[from] >= x {
        var t1 := Tx(from, TransferOut, x, "");
        NonNegativePost(s, t1);
        if to in s.accounts {
          NonNegativePost(Post(s, t1), Tx(to, TransferIn, x, ""));
        }
      }
    case RegisterOp(w) =>
    case StatusOp(w, state) =>
    case PriceOp(w, x, _, _) =>
  }

  lemma {:induction false} StartedStep(s: State, c: real, op: Op)
    requires Tables(s) && Exclusive(s) && Started(s, c) && c <= Now(op, c)
    ensures Started(Step(s, op), Now(op, c))
  {
    hide Tables; hide StopStep; hide ExpireStep; hide FirstRentable;
    LeasesStep(s, op);
    match op
    case StopOp(secret, l, now) => StopKeys(s, secret, l, now);
    case ExpireOp(now) => ExpireKeys(s, now);
    case RentOp(allowed, consumer, wanted, duration, l, now) =>
    case _ => QuietStep(s, op);
  }

  lemma {:induction false} StopKeys(s: State, secret: bool, l: Id, now: real)
    requires Tables(s)
    ensures StopStep(s, secret, l, now).0.leases.Keys == s.leases.Keys
  {
    hide Tables; hide Settle; hide SafeId; hide Close;
    if l in s.leases {
      KeysClose(s, l, now);
      TablesClose(s, l, now);
      TablesSettle(Close(s, l, now), l);
    }
  }

  lemma {:induction false} ExpireKeys(s: State, now: real)
    requires Tables(s)
    ensures ExpireStep(s, now).leases.Keys == s.leases.Keys
  {
    hide Tables; hide Lists; hide CloseAll; hide SettleAll; hide ExpiredOf; hide SafeId;
    var expired := ExpiredOf(s, s.leaseOrder, now);
    OrderDistinct(s);
    TablesCloseAll(s, expired, now);
    TablesSettleAll(CloseAll(s, expired, now).0, expired);
  }

  lemma {:induction false} NonNegativeStep(s: State, c: real, op: Op)
    requires Tables(s) && Exclusive(s) && NonNegative(s) && Started(s, c) && c <= Now(op, c)
    ensures NonNegative(Step(s, op)) && Started(Step(s, op), Now(op, c))
  {
    hide Tables; hide Exclusive; hide StopStep; hide ExpireStep; hide RentStep; hide Started;
    StartedStep(s, c, op);
    match op
    case StopOp(secret, l, now) => NonNegativeStop(s, c, secret, l, now);
    case ExpireOp(now) => NonNegativeExpire(s, c, now);
    case RentOp(allowed, consumer, wanted, duration, l, now) =>
      RentFrame(s, allowed, consumer, wanted, duration, l, now);
    case _ => NonNegativeQuiet(s, op);
  }

  // ----- Every run

  /** A platform that has just been set up: some accounts, the treasury among them, and nothing else. */
  ghost predicate Initial(s: State) {
    && Lists(s.ids, s.accounts.Keys) && TREASURY in s.accounts && NonNegative(s)
    && s.txs == [] && s.roster == [] && s.workers == map[] && s.leaseOrder == [] && s.leases == map[]
    && s.settlements == map[]
  }

  function Flows(s: State, ops: seq<Op>): real {
    if ops == [] then 0.0
    else Flows(s, ops[..|ops| - 1]) + Flow(Run(s, ops[..|ops| - 1]), ops[|ops| - 1])
  }

  /** In every run: the tables stay consistent, no worker has two active leases, no lease is charged
      twice, every balance is its opening balance plus its rows, and the total changes only by what
      comes from or goes outside. */
  lemma {:induction false} RunLaws(s: State, ops: seq<Op>)
    requires Initial(s)
    ensures var r := Run(s, ops);
            && Tables(r) && Exclusive(r) && ChargedOnce(r) && Ledger(s.accounts, r)
            && Total(r) == Total(s) + Flows(s, ops)
  {
    if ops != [] {
      hide Tables; hide Exclusive; hide ChargedOnce; hide Ledger; hide Total; hide Step; hide Flow; hide Initial;
      var before, op := Run(s, ops[..|ops| - 1]), ops[|ops| - 1];
      RunLaws(s, ops[..|ops| - 1]);
      TablesStep(before, op);
      LeasesStep(before, op);
      ChargedStep(before, op);
      LedgerStep(s.accounts, before, op);
      TotalStep(before, op);
    }
  }

  /** The time read last in a run that starts at `c`. */
  function Clock(c: real, ops: seq<Op>): real {
    if ops == [] then c else Now(ops[|ops| - 1], Clock(c, ops[..|ops| - 1]))
  }

  /** The clock never runs backwards. */
  predicate Ordered(c: real, ops: seq<Op>) {
    ops == [] || (Ordered(c, ops[..|ops| - 1]) && Clock(c, ops[..|ops| - 1]) <= Clock(c, ops))
  }

  lemma {:induction false} RunNonNegative(s: State, c: real, ops: seq<Op>)
    requires Initial(s) && Ordered(c, ops)
    ensures NonNegative(Run(s, ops)) && Started(Run(s, ops), Clock(c, ops))
  {
    if ops != [] {
      hide Tables; hide Exclusive; hide ChargedOnce; hide Ledger; hide Total; hide Step; hide NonNegative;
      hide Started; hide Initial;
      var before, op := Run(s, ops[..|ops| - 1]), ops[|ops| - 1];
      RunLaws(s, ops[..|ops| - 1]);
      RunNonNegative(s, c, ops[..|ops| - 1]);
      NonNegativeStep(before, Clock(c, ops[..|ops| - 1]), op);
    }
  }

  /** A lease never comes back: between any two points of a run, leases only close. */
  lemma {:induction false} RunOnlyCloses(s: State, ops: seq<Op>, more: seq<Op>)
    requires Initial(s)
    ensures LeasesOnlyClose(Run(s, ops), Run(s, ops + more))
  {
    hide Tables; hide Exclusive; hide ChargedOnce; hide Ledger; hide Total; hide Step; hide Initial; hide Run;
    if more == [] {
      assert ops + more == ops;
    } else {
      var init, op := more[..|more| - 1], more[|more| - 1];
      RunOnlyCloses(s, ops, init);
      RunLaws(s, ops + init);
      RunSnoc(s, ops + init, op);
      assert ops + more == ops + init + [op];
      LeasesStep(Run(s, ops + init), op);
      OnlyCloseTrans(Run(s, ops), Run(s, ops + init), Run(s, ops + more));
    }
  }

  lemma {:induction false} RunSnoc(s: State, ops: seq<Op>, op: Op)
    ensures Run(s, ops + [op]) == Step(Run(s, ops), op)
  {
    hide Step;
    assert (ops + [op])[..|ops|] == ops;
  }

  // ----- Which closed leases get paid

  ghost predicate SafeWorkers(s: State) {
    forall w :: w in s.workers ==> SafeId(w)
  }

  /** Every closed lease has been settled. */
  ghost predicate AllSettled(s: State) {
    forall l :: l in s.leases && !s.leases[l].active ==> l in s.settlements
  }

  /** A lease that is closed but was never settled. */
  predicate Unpaid(s: State, l: Id) {
    l in s.leases && !s.leases[l].active && l !in s.settlements
  }

  /** The operation closes the lease without settling it: a stop for a worker that cannot be told, or an
      expiry pass that fails at such a worker, for the leases it has closed by then. */
  ghost predicate Loses(s: State, op: Op, l: Id) {
    match op
    case StopOp(secret, k, now) =>
      k == l && secret && l in s.leases && s.leases[l].active && !SafeId(s.leases[l].worker)
    case ExpireOp(now) =>
      var q := Overdue(s, now);
      exists i :: 0 <= i < |q| && q[i] == l && i <= FirstUnsafe(s, q) < |q|
    case _ => false
  }

  lemma {:induction false} UnpaidStep(s: State, op: Op, l: Id)
    requires Tables(s) && Exclusive(s) && ChargedOnce(s)
    ensures Unpaid(Step(s, op), l) <==> Unpaid(s, l) || Loses(s, op, l)
  {
    hide Tables; hide Exclusive; hide Charges; hide StopStep; hide ExpireStep; hide RentStep; hide SafeId; hide Overdue;
    hide FirstUnsafe;
    match op
    case StopOp(secret, k, now) => UnpaidStop(s, secret, k, now, l);
    case ExpireOp(now) => UnpaidExpire(s, now, l);
    case RentOp(allowed, consumer, wanted, duration, k, now) =>
      RentFrame(s, allowed, consumer, wanted, duration, k, now);
      RentOnlyAdds(s, allowed, consumer, wanted, duration, k, now);
    case _ => QuietStep(s, op);
  }

  lemma {:induction false} RentOnlyAdds(s: State, allowed: bool, consumer: Id, wanted: Id, duration: int, l: Id,
                                        t: real)
    ensures var r := RentStep(s, allowed, consumer, wanted, duration, l, t).0;
            forall k :: k in r.leases && k !in s.leases ==> r.leases[k].active
  {
    hide FirstRentable;
  }

  lemma {:induction false} UnpaidStop(s: State, secret: bool, k: Id, now: real, l: Id)
    requires Tables(s) && ChargedOnce(s)
    ensures Unpaid(StopStep(s, secret, k, now).0, l) <==> Unpaid(s, l) || Loses(s, StopOp(secret, k, now), l)
  {
    hide Tables; hide Charges; hide Settle; hide SafeId; hide Close;
    if secret && k in s.leases && s.leases[k].active {
      KeysClose(s, k, now);
      CloseFrame(s, k, now);
      TablesClose(s, k, now);
      TablesSettle(Close(s, k, now), k);
      SettlementSplit(Close(s, k, now), k);
    }
  }

  lemma {:induction false} UnpaidExpire(s: State, now: real, l: Id)
    requires Tables(s) && ChargedOnce(s)
    ensures Unpaid(ExpireStep(s, now), l) <==> Unpaid(s, l) || Loses(s, ExpireOp(now), l)
  {
    hide Tables; hide Charges; hide ExpireStep; hide SafeId; hide Overdue; hide FirstUnsafe; hide ChargedOnce;
    ExpirePass(s, now);
    NotYetSettled(s, now);
    var q := Overdue(s, now);
    if l in q {
      var i :| 0 <= i < |q| && q[i] == l;
      OverdueDistinct(s, now, i);
    }
  }

  lemma {:induction false} OverdueDistinct(s: State, now: real, i: nat)
    requires Tables(s) && i < |Overdue(s, now)|
    ensures forall j :: 0 <= j < |Overdue(s, now)| && Overdue(s, now)[j] == Overdue(s, now)[i] ==> j == i
  {
    hide Tables; hide ExpiredOf;
    OrderDistinct(s);
    ExpiredDistinct(s, s.leaseOrder, now);
  }

  ghost predicate LosesAt(s: State, ops: seq<Op>, i: nat, l: Id) {
    i < |ops| && Loses(Run(s, ops[..i]), ops[i], l)
  }

  /** In every run, a closed lease is unpaid exactly when some operation of the run lost it. */
  lemma {:induction false} UnpaidIff(s: State, ops: seq<Op>, l: Id)
    requires Initial(s)
    ensures Unpaid(Run(s, ops), l) <==> exists i :: 0 <= i < |ops| && LosesAt(s, ops, i, l)
  {
    hide Tables; hide Exclusive; hide ChargedOnce; hide Ledger; hide Total; hide Step; hide Loses;
    if ops != [] {
      hide Initial; hide Unpaid;
      var init, op := ops[..|ops| - 1], ops[|ops| - 1];
      UnpaidIff(s, init, l);
      RunLaws(s, init);
      UnpaidStep(Run(s, init), op, l);
      LosesPrefix(s, init, op, l);
      assert ops == init + [op];
    }
  }

  lemma {:induction false} LosesPrefix(s: State, ops: seq<Op>, op: Op, l: Id)
    ensures (exists i :: 0 <= i < |ops + [op]| && LosesAt(s, ops + [op], i, l))
            <==> (exists i :: 0 <= i < |ops| && LosesAt(s, ops, i, l)) || Loses(Run(s, ops), op, l)
  {
    hide Run; hide Loses;
    var all := ops + [op];
    assert all[..|ops|] == ops;
    forall i | 0 <= i < |ops| ensures LosesAt(s, all, i, l) == LosesAt(s, ops, i, l) {
      assert all[..i] == ops[..i] && all[i] == ops[i];
    }
    assert LosesAt(s, all, |ops|, l) == Loses(Run(s, ops), op, l);
    if i :| 0 <= i < |all| && LosesAt(s, all, i, l) {
      assert i < |ops| ==> LosesAt(s, ops, i, l);
    }
    if i :| 0 <= i < |ops| && LosesAt(s, ops, i, l) {
      assert LosesAt(s, all, i, l);
    }
  }

  /** In a run whose worker identifiers are all safe, every closed lease is settled, hence charged
      exactly once. */
  lemma {:induction false} RunSettles(s: State, ops: seq<Op>)
    requires Initial(s) && forall i :: 0 <= i < |ops| && ops[i].RegisterOp? ==> SafeId(ops[i].w)
    ensures AllSettled(Run(s, ops))
  {
    hide Loses; hide SafeId; hide Initial; hide Run;
    var r := Run(s, ops);
    forall l | Unpaid(r, l) ensures false {
      UnpaidIff(s, ops, l);
      var i :| 0 <= i < |ops| && LosesAt(s, ops, i, l);
      RunSafe(s, ops[..i]);
      SafeLosesNothing(s, ops[..i], ops[i], l);
    }
    assert forall l :: l in r.leases && !r.leases[l].active && l !in r.settlements ==> Unpaid(r, l);
  }

  lemma {:induction false} SafeLosesNothing(s: State, ops: seq<Op>, op: Op, l: Id)
    requires Initial(s) && SafeWorkers(Run(s, ops))
    ensures !Loses(Run(s, ops), op, l)
  {
    hide Exclusive; hide ChargedOnce; hide Ledger; hide Total; hide Step; hide Initial; hide SafeId;
    hide Run; hide Lists;
    hide Overdue;
    RunLaws(s, ops);
    var r := Run(s, ops);
    assert forall k :: k in r.leases ==> SafeId(r.leases[k].worker);
    if op.ExpireOp? {
      var q := Overdue(r, op.now);
      assert FirstUnsafe(r, q) == |q|;
    }
  }

  lemma {:induction false} RunSafe(s: State, ops: seq<Op>)
    requires Initial(s) && forall i :: 0 <= i < |ops| && ops[i].RegisterOp? ==> SafeId(ops[i].w)
    ensures SafeWorkers(Run(s, ops))
  {
    if ops != [] {
      hide Tables; hide Exclusive; hide ChargedOnce; hide Ledger; hide Total; hide Step; hide Initial; hide SafeId;
      var before, op := Run(s, ops[..|ops| - 1]), ops[|ops| - 1];
      RunSafe(s, ops[..|ops| - 1]);
      RunLaws(s, ops[..|ops| - 1]);
      WorkersStep(before, op);
    }
  }

  /** Only registration adds workers. */
  lemma {:induction false} WorkersStep(s: State, op: Op)
    requires Tables(s)
    ensures forall w :: w in Step(s, op).workers ==> w in s.workers || (op.RegisterOp? && w == op.w)
  {
    hide Tables; hide Lists; hide Post; hide Settle; hide Close; hide SafeId; hide CloseAll;
    hide SettleAll; hide ExpiredOf;
    hide FirstRentable;
    match op
    case OpenAccount(a) =>
    case RegisterOp(w) =>
    case StatusOp(w, state) =>
    case PriceOp(w, x, _, _) =>
    case RentOp(allowed, consumer, wanted, duration, l, now) =>
    case StopOp(secret, l, now) =>
      if l in s.leases {
        KeysClose(s, l, now);
        TablesClose(s, l, now);
        TablesSettle(Close(s, l, now), l);
      }
    case ExpireOp(now) =>
      var expired := ExpiredOf(s, s.leaseOrder, now);
      OrderDistinct(s);
      TablesCloseAll(s, expired, now);
      TablesSettleAll(CloseAll(s, expired, now).0, expired);
    case DepositOp(a, x) => PostFrame(s, Tx(a, Deposit, x, ""));
    case WithdrawOp(a, x) => PostFrame(s, Tx(a, Withdraw, x, ""));
    case TransferOp(from, to, x) =>
      PostFrame(s, Tx(from, TransferOut, x, ""));
      PostFrame(Post(s, Tx(from, TransferOut, x, "")), Tx(to, TransferIn, x, ""));
  }

  /** A lease that was closed without a settlement is never charged afterwards, whatever happens. */
  lemma {:induction false} UnpaidStaysUnpaid(s: State, ops: seq<Op>, l: Id)
    requires Tables(s) && Exclusive(s) && ChargedOnce(s)
    requires l in s.leases && !s.leases[l].active && l !in s.settlements
    ensures var r := Run(s, ops);
            && Tables(r) && Exclusive(r) && ChargedOnce(r)
            && l in r.leases && r.leases[l] == s.leases[l] && l !in r.settlements && Charges(r.txs, l) == 0
  {
    hide Tables; hide Exclusive; hide Charges; hide Step;
    if ops != [] {
      var before, op := Run(s, ops[..|ops| - 1]), ops[|ops| - 1];
      UnpaidStaysUnpaid(s, ops[..|ops| - 1], l);
      TablesStep(before, op);
      LeasesStep(before, op);
      ChargedStep(before, op);
      SettlesOnlyActive(before, op, l);
    }
  }

  lemma {:induction false} SettlesOnlyActive(s: State, op: Op, l: Id)
    requires Tables(s) && ChargedOnce(s)
    ensures l in Step(s, op).settlements ==> l in s.settlements || (l in s.leases && s.leases[l].active)
  {
    hide Tables; hide ChargedOnce; hide StopStep; hide ExpireStep; hide RentStep;
    match op
    case StopOp(secret, k, now) => ChargedStop(s, secret, k, now);
    case ExpireOp(now) => ChargedExpire(s, now);
    case RentOp(allowed, consumer, wanted, duration, k, now) =>
      RentFrame(s, allowed, consumer, wanted, duration, k, now);
    case _ => QuietStep(s, op);
  }

  // ----- Runs that show what fails

  /** The accounts that a new platform opens. */
  function Defaults(): State {
    State(["consumer-1", "consumer-2", TREASURY], map["consumer-1" := 1000.0, "consumer-2" := 500.0, TREASURY := 0.0],
          [], [], map[], [], map[], map[])
  }

  lemma {:induction false} DefaultsInitial()
    ensures Initial(Defaults())
  {
    var s := Defaults();
    assert forall a :: a in s.ids <==> a in s.accounts.Keys;
  }

  lemma {:induction false} RunThree(s: State, a: Op, b: Op, c: Op)
    ensures Run(s, [a, b, c]) == Step(Step(Step(s, a), b), c)
  {
    hide Step;
    RunSnoc(s, [a, b], c);
    RunSnoc(s, [a], b);
    RunSnoc(s, [], a);
    assert [a, b] + [c] == [a, b, c] && [a] + [b] == [a, b] && [] + [a] == [a];
  }

  /** On a new platform: register a worker, rent it, stop the lease. */
  function RentAndStop(w: Id, consumer: Id, duration: int, l: Id, t: real, t': real): seq<Op> {
    [RegisterOp(w), RentOp(true, consumer, w, duration, l, t), StopOp(true, l, t')]
  }

  lemma {:induction false} RegisteredRentable(s: State, w: Id)
    requires Initial(s)
    ensures var r := Step(s, RegisterOp(w));
            && Tables(r) && ChargedOnce(r) && Exclusive(r)
            && Rentable(r, w) && r.workers[w].pricePerMin == DEFAULT_PRICE && r.leases == map[]
            && (forall a :: a in s.accounts ==> a in r.accounts && r.accounts[a] == s.accounts[a])
  {
    hide Lists;
    RunLaws(s, [RegisterOp(w)]);
    RunSnoc(s, [], RegisterOp(w));
    assert [] + [RegisterOp(w)] == [RegisterOp(w)];
  }

  lemma {:induction false} FirstRent(s: State, w: Id, consumer: Id, duration: int, l: Id, t: real, t': real)
    requires Initial(s) && w != "" && consumer in s.accounts
    ensures var x := Payable(Metered(t, t', DEFAULT_PRICE), s.accounts[consumer]);
            var r, registered := Run(s, RentAndStop(w, consumer, duration, l, t, t')), Step(s, RegisterOp(w));
            && l in r.leases && !r.leases[l].active
            && (if SafeId(w) then r.accounts == Moved(registered.accounts, consumer, w, x) else l !in r.settlements)
  {
    hide Tables; hide ChargedOnce; hide Exclusive; hide Initial; hide Step; hide Moved; hide Payable;
    hide Rentable; hide SafeId;
    hide Metered;
    var r1, rent, stop := Step(s, RegisterOp(w)), RentOp(true, consumer, w, duration, l, t), StopOp(true, l, t');
    RegisteredRentable(s, w);
    RentOutcome(r1, true, consumer, w, duration, l, t);
    RentThenStop(r1, true, consumer, w, duration, l, t, t');
    RentEffect(r1, true, consumer, w, duration, l, t);
    RunThree(s, RegisterOp(w), rent, stop);
  }

  /** A clock that runs backwards between the start and the stop of a lease overdraws the treasury of
      any new platform. */
  lemma {:induction false} BackwardClockOverdraws(s: State, w: Id, consumer: Id, duration: int, l: Id, t: real,
                                                  t': real)
    requires Initial(s) && s.accounts[TREASURY] == 0.0 && SafeId(w) && w != TREASURY
    requires consumer in s.accounts && consumer != TREASURY && t' < t
    ensures var r := Run(s, RentAndStop(w, consumer, duration, l, t, t'));
            TREASURY in r.accounts && r.accounts[TREASURY] < 0.0 && !NonNegative(r)
  {
    assert w != "";
    hide Run; hide Lists; hide Step; hide RentAndStop; hide SafeId;
    FirstRent(s, w, consumer, duration, l, t, t');
    RegisteredRentable(s, w);
    var due := Metered(t, t', DEFAULT_PRICE);
    assert due < 0.0;
    assert s.accounts[consumer] >= 0.0;
  }

  /** For instance. */
  lemma {:induction false} OneSecondBack()
    ensures !NonNegative(Run(Defaults(), RentAndStop("rig-1", "consumer-1", 3600, "lease-1", 1.0, 0.0)))
  {
    hide Run; hide NonNegative; hide RentAndStop; hide Initial;
    DefaultsInitial();
    BackwardClockOverdraws(Defaults(), "rig-1", "consumer-1", 3600, "lease-1", 1.0, 0.0);
  }

  /** Safety of the identifier is needed: on any new platform a worker with an unsafe one can register and
      be rented, and stopping that lease closes it without a settlement, for good. */
  lemma {:induction false} UnsafeWorkerUnpaid(s: State, w: Id, consumer: Id, duration: int, l: Id, t: real, t': real,
                                              more: seq<Op>)
    requires Initial(s) && w != "" && !SafeId(w) && consumer in s.accounts
    ensures var r := Run(s, RentAndStop(w, consumer, duration, l, t, t') + more);
            l in r.leases && !r.leases[l].active && l !in r.settlements && Charges(r.txs, l) == 0
  {
    hide Run; hide Tables; hide Exclusive; hide ChargedOnce; hide Ledger; hide Total; hide Initial; hide RentAndStop;
    hide SafeId; hide Moved; hide Payable; hide Step;
    var ops := RentAndStop(w, consumer, duration, l, t, t');
    FirstRent(s, w, consumer, duration, l, t, t');
    RunLaws(s, ops);
    UnpaidStaysUnpaid(Run(s, ops), more, l);
    RunConcat(s, ops, more);
  }

  lemma {:induction false} RunConcat(s: State, ops: seq<Op>, more: seq<Op>)
    ensures Run(s, ops + more) == Run(Run(s, ops), more)
  {
    hide Step;
    if more == [] {
      assert ops + more == ops;
    } else {
      var init, op := more[..|more| - 1], more[|more| - 1];
      RunConcat(s, ops, init);
      RunSnoc(s, ops + init, op);
      assert ops + more == ops + init + [op];
    }
  }

  /** For instance, with a space in its name. */
  lemma {:induction false} SpacedNameUnpaid(more: seq<Op>)
    ensures var r := Run(Defaults(), RentAndStop("rig 1", "consumer-1", 3600, "lease-1", 0.0, 60.0) + more);
            "lease-1" in r.leases && !r.leases["lease-1"].active && "lease-1" !in r.settlements
  {
    hide Run; hide RentAndStop; hide Initial; hide Charges;
    DefaultsInitial();
    assert !SafeId("rig 1") by {
      assert "rig 1"[3] == ' ';
    }
    UnsafeWorkerUnpaid(Defaults(), "rig 1", "consumer-1", 3600, "lease-1", 0.0, 60.0, more);
  }

  // ----- A safe provider that is not paid

  lemma {:induction false} RentNamed(s: State, w: Id, consumer: Id, duration: int, l: Id, t: real)
    requires w != "" && Rentable(s, w) && consumer in s.accounts && l !in s.leases
    ensures var lease := Lease(w, consumer, s.workers[w].pricePerMin / 60.0, t, duration, true, 0.0);
            Step(s, RentOp(true, consumer, w, duration, l, t))
            == s.(leaseOrder := s.leaseOrder + [l], leases := s.leases[l := lease],
                  workers := s.workers[w := s.workers[w].(state := LEASED)])
  {
    hide FirstRentable; hide Busy;
    NamedTarget(s, w);
  }

  /** Two workers of which one is rented: the other still can be. */
  lemma {:induction false} StillRentable(s: State, w: Id, v: Id, consumer: Id, duration: int, l: Id, t: real)
    requires w != "" && v != w && Rentable(s, w) && Rentable(s, v) && consumer in s.accounts && l !in s.leases
    ensures Rentable(Step(s, RentOp(true, consumer, w, duration, l, t)), v)
  {
    hide Step;
    RentNamed(s, w, consumer, duration, l, t);
  }

  /** Two workers register, and each is rented for a minute. */
  function TwoRents(w: Id, v: Id, t: real): seq<Op> {
    [RegisterOp(w), RegisterOp(v), RentOp(true, "consumer-1", w, 60, "lease-1", t),
     RentOp(true, "consumer-2", v, 60, "lease-2", t)]
  }

  lemma {:induction false} TwoRegistered(w: Id, v: Id)
    requires w != v
    ensures var r := Step(Step(Defaults(), RegisterOp(w)), RegisterOp(v));
            && Rentable(r, w) && Rentable(r, v) && "consumer-1" in r.accounts && "consumer-2" in r.accounts
            && r.leases == map[] && r.leaseOrder == []
  {
  }

  predicate RentedAt(lease: Lease, w: Id, t: real) {
    lease.worker == w && lease.active && lease.created == t && lease.duration == 60
  }

  predicate TwoLeases(s: State, w: Id, v: Id, t: real) {
    && s.leaseOrder == ["lease-1", "lease-2"] && s.leases.Keys == {"lease-1", "lease-2"}
    && RentedAt(s.leases["lease-1"], w, t) && RentedAt(s.leases["lease-2"], v, t)
  }

  lemma {:induction false} TwoRented(w: Id, v: Id, t: real)
    requires w != v && w != "" && v != ""
    ensures TwoLeases(Run(Defaults(), TwoRents(w, v, t)), w, v, t)
  {
    var s0 := Defaults();
    var s2 := Step(Step(s0, RegisterOp(w)), RegisterOp(v));
    var rent1 := RentOp(true, "consumer-1", w, 60, "lease-1", t);
    var rent2 := RentOp(true, "consumer-2", v, 60, "lease-2", t);
    TwoRegistered(w, v);
    hide Step; hide Rentable; hide Defaults; hide Run;
    RentNamed(s2, w, "consumer-1", 60, "lease-1", t);
    StillRentable(s2, w, v, "consumer-1", 60, "lease-1", t);
    RentNamed(Step(s2, rent1), v, "consumer-2", 60, "lease-2", t);
    RunFour(s0, RegisterOp(w), RegisterOp(v), rent1, rent2);
  }

  /** Both leases are overdue, in the order in which they were rented. */
  lemma {:induction false} TwoOverdue(s: State, w: Id, v: Id, t: real, now: real)
    requires TwoLeases(s, w, v, t) && t + 60.0 < now
    ensures Overdue(s, now) == ["lease-1", "lease-2"]
  {
    var ls := s.leaseOrder;
    assert ls[..1] == ["lease-1"] && ["lease-1"][..0] == [];
    assert Expired(s, "lease-1", now) && Expired(s, "lease-2", now);
    assert ExpiredOf(s, [], now) == [];
    assert ExpiredOf(s, ["lease-1"], now) == ["lease-1"];
  }

  lemma {:induction false} FirstIsLost(s: State, w: Id, v: Id, t: real, now: real)
    requires TwoLeases(s, w, v, t) && t + 60.0 < now && SafeId(w) && !SafeId(v)
    ensures Loses(s, ExpireOp(now), "lease-1")
  {
    hide SafeId; hide Overdue;
    TwoOverdue(s, w, v, t, now);
    var q := Overdue(s, now);
    assert q[0] == "lease-1" && q[1] == "lease-2";
    assert FirstUnsafe(s, q) == 1;
  }

  /** A safe worker and an unsafe one, both rented and both overdue: the pass closes the safe worker's
      lease, fails at the other one, and the safe worker is never paid. */
  lemma {:induction false} SafeProviderUnpaid(w: Id, v: Id, t: real, now: real, more: seq<Op>)
    requires SafeId(w) && v != "" && !SafeId(v) && t + 60.0 < now
    ensures var r := Run(Defaults(), TwoRents(w, v, t) + [ExpireOp(now)] + more);
            Unpaid(r, "lease-1") && r.leases["lease-1"].worker == w && Charges(r.txs, "lease-1") == 0
  {
    assert w != "";
    DefaultsInitial();
    TwoRented(w, v, t);
    hide SafeId; hide Step; hide Defaults; hide Initial; hide Run; hide Tables; hide Exclusive; hide ChargedOnce;
    hide Ledger; hide Total; hide Charges; hide Loses; hide TwoRents;
    var s0, op := Defaults(), ExpireOp(now);
    var before, ops := TwoRents(w, v, t), TwoRents(w, v, t) + [op];
    var s4 := Run(s0, before);
    RunLaws(s0, before);
    FirstIsLost(s4, w, v, t, now);
    UnpaidStep(s4, op, "lease-1");
    LeasesStep(s4, op);
    RunSnoc(s0, before, op);
    RunLaws(s0, ops);
    UnpaidStaysUnpaid(Run(s0, ops), more, "lease-1");
    RunConcat(s0, ops, more);
  }

  /** For instance. */
  lemma {:induction false} NeighbourUnpaid(more: seq<Op>)
    ensures var r := Run(Defaults(), TwoRents("rig-1", "rig 2", 0.0) + [ExpireOp(100.0)] + more);
            Unpaid(r, "lease-1") && r.leases["lease-1"].worker == "rig-1"
  {
    assert !SafeId("rig 2") by { assert "rig 2"[3] == ' '; }
    hide Run; hide Defaults; hide TwoRents; hide Charges; hide Unpaid;
    SafeProviderUnpaid("rig-1", "rig 2", 0.0, 100.0, more);
  }

  lemma {:induction false} RunFour(s: State, a: Op, b: Op, c: Op, d: Op)
    ensures Run(s, [a, b, c, d]) == Step(Step(Step(Step(s, a), b), c), d)
  {
    hide Step;
    RunThree(s, a, b, c);
    RunSnoc(s, [a, b, c], d);
    assert [a, b, c] + [d] == [a, b, c, d];
  }

  /** A transfer to nobody loses money on a new platform. */
  lemma {:induction false} TransferToNobody()
    ensures Total(Run(Defaults(), [TransferOp("consumer-1", "nobody", 1.0)])) == Total(Defaults()) - 1.0
  {
    hide Total; hide Initial;
    DefaultsInitial();
    RunLaws(Defaults(), []);
    var op := TransferOp("consumer-1", "nobody", 1.0);
    RunSnoc(Defaults(), [], op);
    assert [] + [op] == [op];
    TotalStep(Defaults(), op);
  }
}
