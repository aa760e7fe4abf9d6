/** The services themselves, updating the tables in place; each is proved to take the step that
    `MarketSpec` describes. */
module MarketPlatform {
  import opened MarketSpec
  import opened MarketLaws
  import opened MarketMoney

  lemma {:induction false} AddAfterRecord(s: State, a: Id, x: real, tx: Tx)
    ensures Add(Record(s, tx), a, x) == Record(Add(s, a, x), tx)
  {
  }

  /** Updating three balances and then writing three rows is three postings. */
  lemma {:induction false} UpdatesThenRows(s: State, t1: Tx, t2: Tx, t3: Tx)
    ensures Record(Record(Record(Add(Add(Add(s, t1.account, Signed(t1)), t2.account, Signed(t2)),
                                     t3.account, Signed(t3)), t1), t2), t3)
         == Post(Post(Post(s, t1), t2), t3)
  {
    hide Add; hide Record; hide Signed;
    var s1 := Add(s, t1.account, Signed(t1));
    var s2 := Add(s1, t2.account, Signed(t2));
    AddAfterRecord(s1, t2.account, Signed(t2), t1);
    AddAfterRecord(Record(s2, t1), t3.account, Signed(t3), t2);
    AddAfterRecord(s2, t3.account, Signed(t3), t1);
  }

  /** Debit, credit and then the rows are the two postings of a transfer, or the first alone when there
      is nobody to credit. */
  lemma {:induction false} TransferOrder(s: State, from: Id, to: Id, x: real)
    requires from in s.accounts
    ensures var t1, t2 := Tx(from, TransferOut, x, ""), Tx(to, TransferIn, x, "");
            var r := Record(Add(Add(s, from, -x), to, x), t1);
            && r.accounts.Keys == s.accounts.Keys
            && (to in s.accounts ==> Record(r, t2) == Post(Post(s, t1), t2))
            && (to !in s.accounts ==> r == Post(s, t1))
  {
    var t1, t2 := Tx(from, TransferOut, x, ""), Tx(to, TransferIn, x, "");
    AddAfterRecord(Add(s, from, -x), to, x, t1);
  }

  predicate Holds(leases: map<Id, Lease>, l: Id, w: Id) {
    l in leases && leases[l].active && leases[l].worker == w
  }

  lemma {:induction false} BusyInOrder(s: State, w: Id)
    requires forall l :: l in s.leaseOrder <==> l in s.leases
    ensures Busy(s, w) <==> exists k :: 0 <= k < |s.leaseOrder| && Holds(s.leases, s.leaseOrder[k], w)
  {
    if Busy(s, w) {
      var l :| l in s.leases && s.leases[l].active && s.leases[l].worker == w;
      assert l in s.leaseOrder;
      var k :| 0 <= k < |s.leaseOrder| && s.leaseOrder[k] == l;
      assert Holds(s.leases, s.leaseOrder[k], w);
    }
  }

  lemma {:induction false} RunExtends(s: State, ops: seq<Op>, op: Op)
    requires Initial(s)
    ensures Run(s, ops + [op]) == Step(Run(s, ops), op)
    ensures Tables(Run(s, ops)) && Tables(Run(s, ops + [op]))
  {
    hide Step; hide Tables; hide Exclusive; hide ChargedOnce; hide Ledger; hide Total; hide Initial;
    RunSnoc(s, ops, op);
    RunLaws(s, ops);
    RunLaws(s, ops + [op]);
  }

  class Platform {
    var ids: seq<Id>
    var accounts: map<Id, real>
    var txs: seq<Tx>
    var roster: seq<Id>
    var workers: map<Id, Worker>
    var leaseOrder: seq<Id>
    var leases: map<Id, Lease>
    var settlements: map<Id, Settlement>
    ghost const opening: State     // the platform as it was set up
    ghost var log: seq<Op>         // every operation since

    ghost function View(): State reads this {
      State(ids, accounts, txs, roster, workers, leaseOrder, leases, settlements)
    }

    /** The tables are where a run over every operation so far leads. */
    ghost predicate Valid() reads this {
      Initial(opening) && View() == Run(opening, log)
    }

    /** A platform with its default accounts. */
    constructor (order: seq<Id>, balances: map<Id, real>)
      requires Initial(State(order, balances, [], [], map[], [], map[], map[]))
      ensures Valid() && log == [] && View() == State(order, balances, [], [], map[], [], map[], map[])
    {
      ids, accounts, txs := order, balances, [];
      roster, workers, leaseOrder, leases, settlements := [], map[], [], map[], map[];
      opening, log := State(order, balances, [], [], map[], [], map[], map[]), [];
    }

    /** What holds of the tables at any time between two operations. */
    lemma Laws()
      requires Valid()
      ensures Tables(View()) && Exclusive(View()) && ChargedOnce(View()) && Ledger(opening.accounts, View())
      ensures Total(View()) == Total(opening) + Flows(opening, log)
      ensures forall c :: Ordered(c, log) ==> NonNegative(View())
      ensures forall l :: Unpaid(View(), l) <==> exists i :: 0 <= i < |log| && LosesAt(opening, log, i, l)
      ensures (forall i :: 0 <= i < |log| && log[i].RegisterOp? ==> SafeId(log[i].w)) ==> AllSettled(View())
    {
      hide Run; hide Initial; hide Tables; hide Exclusive; hide ChargedOnce; hide Ledger; hide Total; hide Flows;
      hide NonNegative; hide Ordered; hide Started; hide AllSettled; hide SafeId; hide Unpaid; hide LosesAt;
      RunLaws(opening, log);
      forall c | Ordered(c, log) ensures NonNegative(View()) {
        RunNonNegative(opening, c, log);
      }
      forall l ensures Unpaid(View(), l) <==> exists i :: 0 <= i < |log| && LosesAt(opening, log, i, l) {
        UnpaidIff(opening, log, l);
      }
      if forall i :: 0 <= i < |log| && log[i].RegisterOp? ==> SafeId(log[i].w) {
        RunSettles(opening, log);
      }
    }

    // ----- AccountRepo

    /** Opens the account of a new wallet. */
    method OpenWallet(a: Id)
      requires Valid()
      modifies this`ids, this`accounts, this`log
      ensures Valid() && log == old(log) + [OpenAccount(a)] && Tables(View())
      ensures View() == Open(old(View()), a, 0.0)
    {
      hide Run; hide Initial; hide Tables; hide Open;
      RunExtends(opening, log, OpenAccount(a));
      CreateAccount(a, 0.0);
      log := log + [OpenAccount(a)];
    }

    method DepositTo(a: Id, amount: real) returns (r: Reply)
      requires Valid()
      modifies this`accounts, this`txs, this`log
      ensures Valid() && log == old(log) + [DepositOp(a, amount)] && Tables(View())
      ensures (View(), r) == DepositStep(old(View()), a, amount)
    {
      hide Run; hide Initial; hide Tables;
      RunExtends(opening, log, DepositOp(a, amount));
      log := log + [DepositOp(a, amount)];
      if amount <= 0.0 || a !in accounts {
        return Refused;
      }
      var newBalance := accounts[a] + amount;
      accounts := accounts[a := newBalance];
      RecordTx(a, Deposit, amount, "");
      r := Done;
    }

    method WithdrawFrom(a: Id, amount: real) returns (r: Reply)
      requires Valid()
      modifies this`accounts, this`txs, this`log
      ensures Valid() && log == old(log) + [WithdrawOp(a, amount)] && Tables(View())
      ensures (View(), r) == WithdrawStep(old(View()), a, amount)
    {
      hide Run; hide Initial; hide Tables;
      RunExtends(opening, log, WithdrawOp(a, amount));
      log := log + [WithdrawOp(a, amount)];
      if amount <= 0.0 || a !in accounts || accounts[a] < amount {
        return Refused;
      }
      var newBalance := accounts[a] - amount;
      accounts := accounts[a := newBalance];
      RecordTx(a, Withdraw, amount, "");
      r := Done;
    }

    method Transfer(from: Id, to: Id, amount: real) returns (r: Reply)
      requires Valid()
      modifies this`accounts, this`txs, this`log
      ensures Valid() && log == old(log) + [TransferOp(from, to, amount)] && Tables(View())
      ensures (View(), r) == TransferStep(old(View()), from, to, amount)
    {
      hide Run; hide Initial; hide Tables; hide TransferStep;
      RunExtends(opening, log, TransferOp(from, to, amount));
      r := MoveMoney(from, to, amount);
      log := log + [TransferOp(from, to, amount)];
    }

    method MoveMoney(from: Id, to: Id, amount: real) returns (r: Reply)
      modifies this`accounts, this`txs
      ensures (View(), r) == TransferStep(old(View()), from, to, amount)
    {
      hide Add; hide Record;
      ghost var s := View();
      if amount <= 0.0 || from !in accounts || accounts[from] < amount {
        return Refused;
      }
      AddToBalance(from, -amount);
      AddToBalance(to, amount);
      RecordTx(from, TransferOut, amount, "");
      TransferOrder(s, from, to, amount);
      if to !in accounts {
        return Refused;
      }
      RecordTx(to, TransferIn, amount, "");
      r := Done;
    }

    method CreateAccount(a: Id, balance: real)
      modifies this`ids, this`accounts
      ensures View() == Open(old(View()), a, balance)
    {
      if a !in accounts {
        ids := ids + [a];
        accounts := accounts[a := balance];
      }
    }

    method AddToBalance(a: Id, x: real)
      modifies this`accounts
      ensures View() == Add(old(View()), a, x) && accounts.Keys == old(accounts.Keys)
    {
      if a in accounts {
        accounts := accounts[a := accounts[a] + x];
      }
    }

    method RecordTx(a: Id, kind: TxKind, amount: real, ref: Id)
      modifies this`txs
      ensures View() == Record(old(View()), Tx(a, kind, amount, ref))
    {
      txs := txs + [Tx(a, kind, amount, ref)];
    }

    // ----- SettlementEngine

    /** The settlement transaction: three balance updates, then three rows; then the record. */
    method SettleLease(l: Id)
      requires l in leases
      modifies this`accounts, this`txs, this`settlements
      ensures View() == Settle(old(View()), l)
    {
      hide Charge;
      var lease := leases[l];
      if lease.consumer !in accounts || lease.worker !in accounts || TREASURY !in accounts {
        return;
      }
      var totalCost := Due(lease);
      if accounts[lease.consumer] < totalCost {
        totalCost := if accounts[lease.consumer] > 0.0 then accounts[lease.consumer] else 0.0;
      }
      assert totalCost == Cost(View(), l);
      ChargeAll(l, lease.consumer, lease.worker, totalCost);
      if l !in settlements {
        settlements := settlements[l := Settlement(totalCost, 0.95 * totalCost, 0.05 * totalCost)];
      }
    }

    method ChargeAll(l: Id, consumer: Id, worker: Id, totalCost: real)
      modifies this`accounts, this`txs
      ensures View() == Charge(old(View()), l, consumer, worker, totalCost)
    {
      hide Add; hide Record; hide Post;
      var payout, fee := 0.95 * totalCost, 0.05 * totalCost;
      UpdatesThenRows(View(), Tx(consumer, LeaseCharge, totalCost, l), Tx(worker, ProviderPayout, payout, l),
                      Tx(TREASURY, PlatformFee, fee, l));
      AddToBalance(consumer, -totalCost);
      AddToBalance(worker, payout);
      AddToBalance(TREASURY, fee);
      RecordTx(consumer, LeaseCharge, totalCost, l);
      RecordTx(worker, ProviderPayout, payout, l);
      RecordTx(TREASURY, PlatformFee, fee, l);
    }

    // ----- MatchingEngine

    method RegisterWorker(w: Id)
      requires Valid()
      modifies this`ids, this`accounts, this`roster, this`workers, this`log
      ensures Valid() && log == old(log) + [RegisterOp(w)] && Tables(View())
      ensures View() == RegisterStep(old(View()), w)
    {
      hide Run; hide Initial; hide Tables; hide Open;
      RunExtends(opening, log, RegisterOp(w));
      if w in workers {
        workers := workers[w := Worker(AVAILABLE, workers[w].pricePerMin)];
      } else {
        roster := roster + [w];
        workers := workers[w := Worker(AVAILABLE, DEFAULT_PRICE)];
      }
      CreateAccount(w, 0.0);
      log := log + [RegisterOp(w)];
    }

    /** `update_worker_state`, for a status message. */
    method OnStatus(w: Id, state: string)
      requires Valid()
      modifies this`workers, this`log
      ensures Valid() && log == old(log) + [StatusOp(w, state)] && Tables(View())
      ensures View() == StatusStep(old(View()), w, state)
    {
      hide Run; hide Initial; hide Tables; hide SetWorkerState;
      RunExtends(opening, log, StatusOp(w, state));
      log := log + [StatusOp(w, state)];
      if w == "" {
        return;
      }
      if state == "" {
        return;
      }
      UpdateWorkerState(w, state);
    }

    /** `set_pricing`. */
    method SetPricing(w: Id, price: real, least: int, most: int) returns (r: Reply)
      requires Valid()
      modifies this`workers, this`log
      ensures Valid() && log == old(log) + [PriceOp(w, price, least, most)] && Tables(View())
      ensures (View(), r) == PriceStep(old(View()), w, price, least, most)
    {
      hide Run; hide Initial; hide Tables;
      RunExtends(opening, log, PriceOp(w, price, least, most));
      log := log + [PriceOp(w, price, least, most)];
      if w !in workers || price < 0.0 || least < 1 || most < least {
        return Refused;
      }
      workers := workers[w := workers[w].(pricePerMin := price)];
      r := Done;
    }

    method UpdateWorkerState(w: Id, state: string)
      modifies this`workers
      ensures View() == SetWorkerState(old(View()), w, state)
    {
      if w in workers {
        workers := workers[w := workers[w].(state := state)];
      }
    }

    /** `get_active_lease_for_worker`. */
    method HasActiveLease(w: Id) returns (b: bool)
      requires Tables(View())
      ensures b <==> Busy(View(), w)
    {
      OrderDistinct(View());
      hide Tables; hide Lists; hide Busy;
      var order, rows := leaseOrder, leases;
      b := false;
      for i := 0 to |order|
        invariant b <==> exists k :: 0 <= k < i && Holds(rows, order[k], w)
      {
        if rows[order[i]].active && rows[order[i]].worker == w {
          b := true;
        }
      }
      BusyInOrder(View(), w);
    }

    method FindTarget(candidates: seq<Id>) returns (target: seq<Id>)
      requires Tables(View())
      ensures target == FirstRentable(View(), candidates)
    {
      hide Tables; hide Busy;
      for i := 0 to |candidates|
        invariant FirstRentable(View(), candidates) == FirstRentable(View(), candidates[i..])
      {
        var w := candidates[i];
        assert candidates[i..][1..] == candidates[i + 1..];
        if w in workers && workers[w].state == AVAILABLE {
          var busy := HasActiveLease(w);
          if !busy {
            return [w];
          }
        }
      }
      target := [];
    }

    method RentHashpower(allowed: bool, consumer: Id, wanted: Id, duration: int, l: Id, now: real) returns (r: Reply)
      requires Valid()
      modifies this`leaseOrder, this`leases, this`workers, this`log
      ensures Valid() && log == old(log) + [RentOp(allowed, consumer, wanted, duration, l, now)] && Tables(View())
      ensures (View(), r) == RentStep(old(View()), allowed, consumer, wanted, duration, l, now)
    {
      hide Run; hide Initial; hide Tables; hide RentStep;
      RunExtends(opening, log, RentOp(allowed, consumer, wanted, duration, l, now));
      r := MatchWorker(allowed, consumer, wanted, duration, l, now);
      log := log + [RentOp(allowed, consumer, wanted, duration, l, now)];
    }

    method MatchWorker(allowed: bool, consumer: Id, wanted: Id, duration: int, l: Id, now: real) returns (r: Reply)
      requires Tables(View())
      modifies this`leaseOrder, this`leases, this`workers
      ensures (View(), r) == RentStep(old(View()), allowed, consumer, wanted, duration, l, now)
    {
      hide Tables; hide FirstRentable; hide Rentable; hide SetWorkerState;
      if !allowed {
        return Refused;
      }
      var target := FindTarget(if wanted == "" then roster else [wanted]);
      if target == [] || l in leases || consumer !in accounts {
        return Refused;
      }
      RentTarget(View(), wanted);
      var w := target[0];
      var lease := Lease(w, consumer, workers[w].pricePerMin / 60.0, now, duration, true, 0.0);
      leaseOrder, leases := leaseOrder + [l], leases[l := lease];
      UpdateWorkerState(w, LEASED);
      r := Rented(l);
    }

    method CloseLease(l: Id, now: real)
      requires l in leases
      modifies this`leases, this`workers
      ensures View() == Close(old(View()), l, now)
    {
      var w := leases[l].worker;
      leases := leases[l := leases[l].(active := false, ended := now)];
      UpdateWorkerState(w, AVAILABLE);
    }

    method StopLease(secret: bool, l: Id, now: real) returns (r: Reply)
      requires Valid()
      modifies this`leases, this`workers, this`accounts, this`txs, this`settlements, this`log
      ensures Valid() && log == old(log) + [StopOp(secret, l, now)] && Tables(View())
      ensures (View(), r) == StopStep(old(View()), secret, l, now)
    {
      hide Run; hide Initial; hide Tables; hide SafeId; hide Settle;
      RunExtends(opening, log, StopOp(secret, l, now));
      log := log + [StopOp(secret, l, now)];
      if !secret || l !in leases || !leases[l].active {
        return Refused;
      }
      var w := leases[l].worker;
      CloseLease(l, now);
      if !SafeId(w) {
        return Refused;
      }
      SettleLease(l);
      r := Done;
    }

    /** `find_expired`: one scan of the lease table. */
    method FindExpired(now: real) returns (expired: seq<Id>)
      requires Tables(View())
      ensures expired == ExpiredOf(View(), leaseOrder, now)
    {
      OrderDistinct(View());
      hide Tables; hide Lists; hide Expired;
      expired := [];
      for i := 0 to |leaseOrder|
        invariant expired == ExpiredOf(View(), leaseOrder[..i], now)
      {
        assert leaseOrder[..i + 1][..i] == leaseOrder[..i];
        var hit := IsExpired(leaseOrder[i], now);
        if hit {
          expired := expired + [leaseOrder[i]];
        }
      }
      assert leaseOrder[..|leaseOrder|] == leaseOrder;
    }

    method IsExpired(l: Id, now: real) returns (b: bool)
      requires l in leases
      ensures b <==> Expired(View(), l, now)
    {
      b := leases[l].active && leases[l].created + leases[l].duration as real < now;
    }

    /** `check_expired_leases`: close one expired lease after the other and send each release, which
        fails for a worker whose identifier is not safe. */
    method CheckExpired(expired: seq<Id>, now: real) returns (r: Reply)
      requires forall l :: l in expired ==> l in leases
      modifies this`leases, this`workers
      ensures (View(), r) == CloseAll(old(View()), expired, now)
      ensures leases.Keys == old(leases.Keys)
    {
      hide SafeId; hide Close;
      for i := 0 to |expired|
        invariant leases.Keys == old(leases.Keys)
        invariant CloseAll(View(), expired[i..], now) == CloseAll(old(View()), expired, now)
      {
        assert expired[i..][1..] == expired[i + 1..];
        var w := leases[expired[i]].worker;
        KeysClose(View(), expired[i], now);
        CloseLease(expired[i], now);
        if !SafeId(w) {
          return Refused;
        }
      }
      r := Done;
    }

    /** One round of the lease watchdog: a failed pass settles nothing. */
    method Watchdog(now: real)
      requires Valid()
      modifies this`leases, this`workers, this`accounts, this`txs, this`settlements, this`log
      ensures Valid() && log == old(log) + [ExpireOp(now)] && Tables(View())
      ensures View() == ExpireStep(old(View()), now)
    {
      hide Run; hide Initial; hide Tables; hide Lists; hide CloseAll; hide SettleAll; hide ExpiredOf;
      RunExtends(opening, log, ExpireOp(now));
      log := log + [ExpireOp(now)];
      OrderDistinct(View());
      var expired := FindExpired(now);
      var r := CheckExpired(expired, now);
      if r == Done {
        SettleExpired(expired);
      }
    }

    method SettleExpired(expired: seq<Id>)
      requires forall l :: l in expired ==> l in leases
      modifies this`accounts, this`txs, this`settlements
      ensures View() == SettleAll(old(View()), expired)
    {
      hide Settle;
      for i := 0 to |expired|
        invariant SettleAll(View(), expired[i..]) == SettleAll(old(View()), expired)
      {
        assert expired[i..][1..] == expired[i + 1..];
        SettleLease(expired[i]);
      }
    }
  }
}
