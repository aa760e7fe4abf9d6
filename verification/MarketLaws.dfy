/** What every run of the marketplace keeps. */
module MarketLaws {
  import opened MarketSpec

  // ----- The tables refer to each other correctly

  /** A row order lists each key once. */
  ghost predicate Lists(q: seq<Id>, keys: set<Id>) {
    && (forall i, j :: 0 <= i < j < |q| ==> q[i] != q[j])
    && (forall a :: a in q <==> a in keys)
  }

  ghost predicate WorkersOk(workers: map<Id, Worker>, accounts: set<Id>) {
    forall w :: w in workers ==> w in accounts && workers[w].pricePerMin >= 0.0
  }

  /** Both parties of a lease have a row. */
  ghost predicate LeasesOk(leases: map<Id, Lease>, workers: set<Id>, accounts: set<Id>) {
    forall l :: l in leases ==> leases[l].worker in workers && leases[l].consumer in accounts && leases[l].rate >= 0.0
  }

  ghost predicate RowsOk(txs: seq<Tx>, accounts: set<Id>) {
    forall i :: 0 <= i < |txs| ==> txs[i].account in accounts
  }

  ghost predicate Tables(s: State) {
    && Lists(s.ids, s.accounts.Keys) && TREASURY in s.accounts
    && Lists(s.roster, s.workers.Keys) && WorkersOk(s.workers, s.accounts.Keys)
    && Lists(s.leaseOrder, s.leases.Keys) && LeasesOk(s.leases, s.workers.Keys, s.accounts.Keys)
    && RowsOk(s.txs, s.accounts.Keys)
  }

  lemma {:induction false} ListsAppend(q: seq<Id>, keys: set<Id>, a: Id)
    requires Lists(q, keys) && a !in keys
    ensures Lists(q + [a], keys + {a})
  {
  }

  lemma {:induction false} TablesOpen(s: State, a: Id, x: real)
    requires Tables(s)
    ensures Tables(Open(s, a, x))
  {
    if a !in s.accounts {
      ListsAppend(s.ids, s.accounts.Keys, a);
      assert s.accounts[a := x].Keys == s.accounts.Keys + {a};
    }
  }

  lemma {:induction false} TablesPost(s: State, tx: Tx)
    requires Tables(s) && tx.account in s.accounts
    ensures Tables(Post(s, tx)) && Post(s, tx).accounts.Keys == s.accounts.Keys
  {
    hide Lists;
    assert s.accounts[tx.account := s.accounts[tx.account] + Signed(tx)].Keys == s.accounts.Keys;
  }

  lemma {:induction false} TablesSetState(s: State, w: Id, state: string)
    requires Tables(s)
    ensures Tables(SetWorkerState(s, w, state))
  {
    hide Lists;
    if w in s.workers {
      assert SetWorkerState(s, w, state).workers.Keys == s.workers.Keys;
    }
  }

  lemma {:induction false} TablesRegister(s: State, w: Id)
    requires Tables(s)
    ensures Tables(RegisterStep(s, w))
  {
    hide Lists; hide Open; hide RowsOk; hide LeasesOk;
    var o := Open(s, w, 0.0);
    TablesOpen(s, w, 0.0);
    OpenFrame(s, w, 0.0);
    var price := if w in s.workers then s.workers[w].pricePerMin else DEFAULT_PRICE;
    var roster := if w in s.workers then s.roster else s.roster + [w];
    var workers := s.workers[w := Worker(AVAILABLE, price)];
    Enrolled(s.roster, s.workers, w, Worker(AVAILABLE, price));
    MoreWorkers(s.leases, s.workers.Keys, workers.Keys, o.accounts.Keys);
    assert RegisterStep(s, w) == o.(roster := roster, workers := workers) by { RegisterFrame(s, w); }
  }

  lemma {:induction false} OpenFrame(s: State, a: Id, x: real)
    ensures var o := Open(s, a, x); o == s.(ids := o.ids, accounts := o.accounts) && a in o.accounts
  {
  }

  lemma {:induction false} RegisterFrame(s: State, w: Id)
    ensures var o := Open(s, w, 0.0);
            var price := if w in s.workers then s.workers[w].pricePerMin else DEFAULT_PRICE;
            RegisterStep(s, w) == o.(roster := if w in s.workers then s.roster else s.roster + [w],
                                     workers := s.workers[w := Worker(AVAILABLE, price)])
  {
  }

  lemma {:induction false} Enrolled(roster: seq<Id>, workers: map<Id, Worker>, w: Id, row: Worker)
    requires Lists(roster, workers.Keys)
    ensures Lists(if w in workers then roster else roster + [w], workers[w := row].Keys)
  {
    hide Lists;
    if w in workers {
      assert workers[w := row].Keys == workers.Keys;
    } else {
      assert workers[w := row].Keys == workers.Keys + {w};
      ListsAppend(roster, workers.Keys, w);
    }
  }

  lemma {:induction false} MoreWorkers(leases: map<Id, Lease>, few: set<Id>, many: set<Id>, accounts: set<Id>)
    requires LeasesOk(leases, few, accounts) && few <= many
    ensures LeasesOk(leases, many, accounts)
  {
  }

  lemma {:induction false} TablesPrice(s: State, w: Id, price: real, least: int, most: int)
    requires Tables(s)
    ensures Tables(PriceStep(s, w, price, least, most).0)
  {
    hide Lists;
    if w in s.workers && price >= 0.0 && 1 <= least <= most {
      assert PriceStep(s, w, price, least, most).0.workers.Keys == s.workers.Keys;
    }
  }

  lemma {:induction false} TablesRent(s: State, allowed: bool, consumer: Id, wanted: Id, duration: int, l: Id,
                                      now: real)
    requires Tables(s)
    ensures Tables(RentStep(s, allowed, consumer, wanted, duration, l, now).0)
  {
    hide Lists; hide FirstRentable; hide Rentable;
    var (r, reply) := RentStep(s, allowed, consumer, wanted, duration, l, now);
    if reply.Rented? {
      var lease := r.leases[l];
      var mid := s.(leaseOrder := s.leaseOrder + [l], leases := s.leases[l := lease]);
      ListsAppend(s.leaseOrder, s.leases.Keys, l);
      assert mid.leases.Keys == s.leases.Keys + {l};
      assert lease.worker in s.workers by { RentTarget(s, wanted); }
      TablesSetState(mid, lease.worker, LEASED);
    }
  }

  lemma {:induction false} RentTarget(s: State, wanted: Id)
    ensures var target := FirstRentable(s, if wanted == "" then s.roster else [wanted]);
            target != [] ==> Rentable(s, target[0]) && target[0] in s.workers
  {
  }

  lemma {:induction false} TablesClose(s: State, l: Id, now: real)
    requires Tables(s) && l in s.leases
    ensures Tables(Close(s, l, now)) && Close(s, l, now).workers.Keys == s.workers.Keys
  {
    hide Lists;
    var mid := s.(leases := s.leases[l := s.leases[l].(active := false, ended := now)]);
    assert mid.leases.Keys == s.leases.Keys;
    TablesSetState(mid, s.leases[l].worker, AVAILABLE);
  }

  lemma {:induction false} TablesCharge(s: State, l: Id, consumer: Id, worker: Id, cost: real)
    requires Tables(s) && consumer in s.accounts && worker in s.accounts
    ensures Tables(Charge(s, l, consumer, worker, cost))
  {
    hide Tables; hide Post;
    assert TREASURY in s.accounts by { TreasuryOpen(s); }
    var s1 := Post(s, Tx(consumer, LeaseCharge, cost, l));
    TablesPost(s, Tx(consumer, LeaseCharge, cost, l));
    var s2 := Post(s1, Tx(worker, ProviderPayout, 0.95 * cost, l));
    TablesPost(s1, Tx(worker, ProviderPayout, 0.95 * cost, l));
    TablesPost(s2, Tx(TREASURY, PlatformFee, 0.05 * cost, l));
  }

  lemma {:induction false} TreasuryOpen(s: State)
    requires Tables(s)
    ensures TREASURY in s.accounts
  {
  }

  lemma {:induction false} PostFrame(s: State, tx: Tx)
    ensures Post(s, tx) == s.(accounts := Post(s, tx).accounts, txs := s.txs + [tx])
  {
  }

  /** A charge touches balances and appends three rows. */
  lemma {:induction false} ChargeFrame(s: State, l: Id, consumer: Id, worker: Id, cost: real)
    ensures var c := Charge(s, l, consumer, worker, cost);
            c == s.(accounts := c.accounts,
                    txs := s.txs + [Tx(consumer, LeaseCharge, cost, l), Tx(worker, ProviderPayout, 0.95 * cost, l),
                                    Tx(TREASURY, PlatformFee, 0.05 * cost, l)])
  {
    hide Post;
    var t1, t2 := Tx(consumer, LeaseCharge, cost, l), Tx(worker, ProviderPayout, 0.95 * cost, l);
    var t3 := Tx(TREASURY, PlatformFee, 0.05 * cost, l);
    PostFrame(s, t1);
    PostFrame(Post(s, t1), t2);
    PostFrame(Post(Post(s, t1), t2), t3);
    assert s.txs + [t1] + [t2] + [t3] == s.txs + [t1, t2, t3];
  }

  lemma {:induction false} TablesSettle(s: State, l: Id)
    requires Tables(s) && l in s.leases
    ensures Tables(Settle(s, l)) && l in Settle(s, l).settlements
    ensures Settle(s, l).leases == s.leases && Settle(s, l).workers == s.workers
  {
    hide Lists; hide Charge;
    TablesCharge(s, l, s.leases[l].consumer, s.leases[l].worker, Cost(s, l));
    ChargeFrame(s, l, s.leases[l].consumer, s.leases[l].worker, Cost(s, l));
  }

  lemma {:induction false} TablesCloseAll(s: State, ls: seq<Id>, now: real)
    requires Tables(s) && forall l :: l in ls ==> l in s.leases
    ensures Tables(CloseAll(s, ls, now).0) && CloseAll(s, ls, now).0.workers.Keys == s.workers.Keys
    decreases |ls|
  {
    hide Tables; hide Close; hide SafeId;
    if ls != [] {
      TablesClose(s, ls[0], now);
      KeysClose(s, ls[0], now);
      TablesCloseAll(Close(s, ls[0], now), ls[1..], now);
    }
  }

  lemma {:induction false} KeysClose(s: State, l: Id, now: real)
    requires l in s.leases
    ensures Close(s, l, now).leases.Keys == s.leases.Keys
    ensures Close(s, l, now).leases == s.leases[l := s.leases[l].(active := false, ended := now)]
  {
  }

  lemma {:induction false} TablesSettleAll(s: State, ls: seq<Id>)
    requires Tables(s) && forall l :: l in ls ==> l in s.leases
    ensures Tables(SettleAll(s, ls)) && SettleAll(s, ls).leases == s.leases && SettleAll(s, ls).workers == s.workers
    decreases |ls|
  {
    hide Tables; hide Settle;
    if ls != [] {
      TablesSettle(s, ls[0]);
      TablesSettleAll(Settle(s, ls[0]), ls[1..]);
    }
  }

  lemma {:induction false} TablesStep(s: State, op: Op)
    requires Tables(s)
    ensures Tables(Step(s, op))
  {
    hide Tables; hide Post; hide Open; hide Settle; hide CloseAll; hide SettleAll; hide Close; hide SetWorkerState;
    hide RentStep; hide RegisterStep; hide PriceStep; hide SafeId; hide ExpiredOf;
    match op
    case OpenAccount(a) => TablesOpen(s, a, 0.0);
    case DepositOp(a, x) =>
      if a in s.accounts {
        TablesPost(s, Tx(a, Deposit, x, ""));
      }
    case WithdrawOp(a, x) =>
      if a in s.accounts {
        TablesPost(s, Tx(a, Withdraw, x, ""));
      }
    case TransferOp(from, to, x) =>
      if from in s.accounts {
        var s1 := Post(s, Tx(from, TransferOut, x, ""));
        TablesPost(s, Tx(from, TransferOut, x, ""));
        if to in s.accounts {
          TablesPost(s1, Tx(to, TransferIn, x, ""));
        }
      }
    case RegisterOp(w) => TablesRegister(s, w);
    case StatusOp(w, state) => TablesSetState(s, w, state);
    case PriceOp(w, x, least, most) => TablesPrice(s, w, x, least, most);
    case RentOp(allowed, consumer, wanted, duration, l, now) =>
      TablesRent(s, allowed, consumer, wanted, duration, l, now);
    case StopOp(secret, l, now) =>
      if l in s.leases {
        TablesClose(s, l, now);
        KeysClose(s, l, now);
        TablesSettle(Close(s, l, now), l);
      }
    case ExpireOp(now) =>
      var expired := ExpiredOf(s, s.leaseOrder, now);
      TablesCloseAll(s, expired, now);
      TablesSettleAll(CloseAll(s, expired, now).0, expired);
  }

  // ----- Leases: one at a time per worker, and closed for good

  predicate Rivals(a: Lease, b: Lease) {
    a.active && b.active && a.worker == b.worker
  }

  ghost predicate Exclusive(s: State) {
    forall k, l :: k in s.leases && l in s.leases && Rivals(s.leases[k], s.leases[l]) ==> k == l
  }

  /** No lease disappears, no closed lease changes, and an open lease keeps its terms. */
  ghost predicate LeasesOnlyClose(s: State, s': State) {
    forall l :: l in s.leases ==>
      && l in s'.leases
      && s'.leases[l].(active := s.leases[l].active, ended := s.leases[l].ended) == s.leases[l]
      && (!s.leases[l].active ==> s'.leases[l] == s.leases[l])
  }

  lemma {:induction false} OnlyCloseTrans(s: State, s1: State, s2: State)
    requires LeasesOnlyClose(s, s1) && LeasesOnlyClose(s1, s2)
    ensures LeasesOnlyClose(s, s2)
  {
    forall l | l in s.leases
      ensures l in s2.leases
      ensures s2.leases[l].(active := s.leases[l].active, ended := s.leases[l].ended) == s.leases[l]
      ensures !s.leases[l].active ==> s2.leases[l] == s.leases[l]
    {
      assert l in s1.leases;
      var x, y, z := s.leases[l], s1.leases[l], s2.leases[l];
      assert y.(active := x.active, ended := x.ended) == x && z.(active := y.active, ended := y.ended) == y;
      assert z.(active := x.active, ended := x.ended)
          == z.(active := y.active, ended := y.ended).(active := x.active, ended := x.ended);
    }
  }

  /** Closing some leases, all of them open, keeps both. */
  lemma {:induction false} CloseAllLeases(s: State, ls: seq<Id>, now: real)
    requires Exclusive(s) && Lists(ls, set l | l in ls)
    requires forall l :: l in ls ==> l in s.leases && s.leases[l].active
    ensures Exclusive(CloseAll(s, ls, now).0) && LeasesOnlyClose(s, CloseAll(s, ls, now).0)
    decreases |ls|
  {
    hide SafeId; hide Close;
    if ls != [] {
      KeysClose(s, ls[0], now);
      CloseLeases(s, ls[0], now);
      var c := Close(s, ls[0], now);
      assert ls[0] !in ls[1..];
      CloseAllLeases(c, ls[1..], now);
      OnlyCloseTrans(s, c, CloseAll(c, ls[1..], now).0);
    }
  }

  lemma {:induction false} RentLeases(s: State, allowed: bool, consumer: Id, wanted: Id, duration: int, l: Id,
                                      now: real)
    requires Exclusive(s)
    ensures var r := RentStep(s, allowed, consumer, wanted, duration, l, now).0; Exclusive(r) && LeasesOnlyClose(s, r)
  {
    hide FirstRentable;
    var (r, reply) := RentStep(s, allowed, consumer, wanted, duration, l, now);
    if reply.Rented? {
      RentTarget(s, wanted);
      assert r.leases == s.leases[l := r.leases[l]] && !Busy(s, r.leases[l].worker);
    }
  }

  /** A rent request succeeds exactly when it may, its payer and lease id are in order, and some worker
      it may use is available and not leased; it then leases such a worker on that worker's price. */
  lemma {:induction false} RentOutcome(s: State, allowed: bool, consumer: Id, wanted: Id, duration: int, l: Id,
                                       now: real)
    ensures var (r, reply) := RentStep(s, allowed, consumer, wanted, duration, l, now);
            && (reply.Rented? <==> allowed && l !in s.leases && consumer in s.accounts
                                   && exists w :: (if wanted == "" then w in s.roster else w == wanted)
                                                  && Rentable(s, w))
            && (reply.Rented? ==>
                  && l in r.leases && Rentable(s, r.leases[l].worker) && (wanted != "" ==> r.leases[l].worker == wanted)
                  && r.leases[l].active && r.leases[l].consumer == consumer && r.leases[l].created == now
                  && 60.0 * r.leases[l].rate == s.workers[r.leases[l].worker].pricePerMin
                  && Busy(r, r.leases[l].worker) && r.workers[r.leases[l].worker].state == "LEASED")
            && (!reply.Rented? ==> r == s)
  {
    hide Rentable;
    var (r, reply) := RentStep(s, allowed, consumer, wanted, duration, l, now);
    if wanted != "" {
      assert wanted in [wanted];
    }
    if reply.Rented? {
      RentTarget(s, wanted);
      assert r.leases[l].active && r.leases[l].worker == r.leases[l].worker;
    }
  }

  /** Nobody has an active lease on worker `w`. */
  ghost predicate Free(s: State, w: Id) {
    forall k :: k in s.leases ==> !s.leases[k].active || s.leases[k].worker != w
  }

  /** Who is chosen: the named worker, or the first one in row order, that says it is available and on
      whom nobody has an active lease. */
  lemma {:induction false} RentChoice(s: State, allowed: bool, consumer: Id, wanted: Id, duration: int, l: Id,
                                      now: real)
    ensures var (r, reply) := RentStep(s, allowed, consumer, wanted, duration, l, now);
            reply.Rented? ==>
              && reply.lease == l && l !in s.leases && l in r.leases
              && r.leases == s.leases[l := r.leases[l]] && r.leaseOrder == s.leaseOrder + [l]
              && var w := r.leases[l].worker;
              && w in s.workers && s.workers[w].state == "AVAILABLE" && Free(s, w)
              && r.leases[l].duration == duration && r.leases[l].consumer == consumer && r.leases[l].created == now
              && (wanted == "" ==>
                    exists i :: 0 <= i < |s.roster| && s.roster[i] == w
                      && forall j :: 0 <= j < i && s.roster[j] in s.workers ==>
                           s.workers[s.roster[j]].state != "AVAILABLE" || !Free(s, s.roster[j]))
  {
    hide FirstRentable;
    var ws := if wanted == "" then s.roster else [wanted];
    var target := FirstRentable(s, ws);
    FirstIsFirst(s, ws);
    RentTarget(s, wanted);
    forall w ensures Free(s, w) <==> !Busy(s, w) {
    }
  }

  lemma {:induction false} FirstIsFirst(s: State, ws: seq<Id>)
    ensures FirstRentable(s, ws) != [] ==>
              exists i :: 0 <= i < |ws| && ws[i] == FirstRentable(s, ws)[0]
                          && forall j :: 0 <= j < i ==> !Rentable(s, ws[j])
  {
    hide Rentable;
    if ws != [] {
      FirstIsFirst(s, ws[1..]);
      if Rentable(s, ws[0]) {
        assert ws[0] == FirstRentable(s, ws)[0];
      } else if FirstRentable(s, ws) != [] {
        var i :| 0 <= i < |ws[1..]| && ws[1..][i] == FirstRentable(s, ws[1..])[0]
                 && forall j :: 0 <= j < i ==> !Rentable(s, ws[1..][j]);
        assert ws[i + 1] == FirstRentable(s, ws)[0];
        forall j | 0 <= j < i + 1 ensures !Rentable(s, ws[j]) {
          assert j > 0 ==> ws[j] == ws[1..][j - 1];
        }
      }
    }
  }

  lemma {:induction false} ExpiredDistinct(s: State, ls: seq<Id>, now: real)
    requires Lists(ls, set l | l in ls)
    ensures Lists(ExpiredOf(s, ls, now), set l | l in ExpiredOf(s, ls, now))
  {
    hide Expired;
    if ls != [] {
      var init, last := ls[..|ls| - 1], ls[|ls| - 1];
      assert Lists(init, set l | l in init);
      ExpiredDistinct(s, init, now);
      assert last !in init;
      assert last !in ExpiredOf(s, init, now);
    }
  }

  predicate Quiet(op: Op) {
    !op.RentOp? && !op.StopOp? && !op.ExpireOp?
  }

  /** Operations on accounts and workers leave leases and settlements alone. */
  lemma {:induction false} QuietStep(s: State, op: Op)
    requires Quiet(op)
    ensures Step(s, op).leases == s.leases && Step(s, op).settlements == s.settlements
  {
    hide Post;
    match op
    case OpenAccount(a) =>
    case DepositOp(a, x) => PostFrame(s, Tx(a, Deposit, x, ""));
    case WithdrawOp(a, x) => PostFrame(s, Tx(a, Withdraw, x, ""));
    case TransferOp(from, to, x) =>
      PostFrame(s, Tx(from, TransferOut, x, ""));
      PostFrame(Post(s, Tx(from, TransferOut, x, "")), Tx(to, TransferIn, x, ""));
    case RegisterOp(w) =>
    case StatusOp(w, state) =>
    case PriceOp(w, x, _, _) =>
  }

  lemma {:induction false} CloseLeases(s: State, l: Id, now: real)
    requires Exclusive(s) && l in s.leases && s.leases[l].active
    ensures Exclusive(Close(s, l, now)) && LeasesOnlyClose(s, Close(s, l, now))
  {
    hide Close;
    KeysClose(s, l, now);
  }

  lemma {:induction false} SameLeases(s: State, a: State, b: State)
    requires a.leases == b.leases && Exclusive(a) && LeasesOnlyClose(s, a)
    ensures Exclusive(b) && LeasesOnlyClose(s, b)
  {
  }

  lemma {:induction false} StopLeases(s: State, secret: bool, l: Id, now: real)
    requires Tables(s) && Exclusive(s)
    ensures var r := StopStep(s, secret, l, now).0; Exclusive(r) && LeasesOnlyClose(s, r)
  {
    hide Tables; hide Close; hide Settle; hide SafeId;
    if secret && l in s.leases && s.leases[l].active {
      hide Exclusive; hide LeasesOnlyClose;
      CloseLeases(s, l, now);
      KeysClose(s, l, now);
      TablesClose(s, l, now);
      TablesSettle(Close(s, l, now), l);
      SameLeases(s, Close(s, l, now), Settle(Close(s, l, now), l));
    }
  }

  lemma {:induction false} OrderDistinct(s: State)
    requires Tables(s)
    ensures Lists(s.leaseOrder, set l | l in s.leaseOrder)
    ensures forall l :: l in s.leaseOrder <==> l in s.leases
  {
  }

  lemma {:induction false} ExpireLeases(s: State, now: real)
    requires Tables(s) && Exclusive(s)
    ensures var r := ExpireStep(s, now); Exclusive(r) && LeasesOnlyClose(s, r)
  {
    hide Tables; hide Lists; hide CloseAll; hide SettleAll; hide ExpiredOf;
    var expired := ExpiredOf(s, s.leaseOrder, now);
    OrderDistinct(s);
    ExpiredDistinct(s, s.leaseOrder, now);
    CloseAllLeases(s, expired, now);
    TablesCloseAll(s, expired, now);
    TablesSettleAll(CloseAll(s, expired, now).0, expired);
  }

  /** Whatever status messages or new registrations say about a worker, it never has two active
      leases, and a lease leaves `active` at most once. */
  lemma {:induction false} LeasesStep(s: State, op: Op)
    requires Tables(s) && Exclusive(s)
    ensures Exclusive(Step(s, op)) && LeasesOnlyClose(s, Step(s, op))
  {
    hide Tables; hide RentStep; hide StopStep; hide ExpireStep;
    match op
    case RentOp(allowed, consumer, wanted, duration, l, now) =>
      RentLeases(s, allowed, consumer, wanted, duration, l, now);
    case StopOp(secret, l, now) => StopLeases(s, secret, l, now);
    case ExpireOp(now) => ExpireLeases(s, now);
    case _ => QuietStep(s, op);
  }

  // ----- Each lease is charged at most once

  /** How many rows charge lease `l`. */
  function Charges(txs: seq<Tx>, l: Id): (n: nat) {
    if txs == [] then 0
    else
      var tx := txs[|txs| - 1];
      Charges(txs[..|txs| - 1], l) + if tx.kind == LeaseCharge && tx.ref == l then 1 else 0
  }

  /** A settled lease is closed and has been charged exactly once; no other lease has been charged. */
  ghost predicate ChargedOnce(s: State) {
    && (forall l :: l in s.settlements ==> l in s.leases && !s.leases[l].active)
    && (forall l :: Charges(s.txs, l) == if l in s.settlements then 1 else 0)
  }

  predicate IsCharge(tx: Tx, l: Id) {
    tx.kind == LeaseCharge && tx.ref == l
  }

  ghost function ChargeRows(txs: seq<Tx>, l: Id): set<int> {
    set i | 0 <= i < |txs| && IsCharge(txs[i], l)
  }

  /** It is the number of such rows. */
  lemma {:induction false} ChargesCount(txs: seq<Tx>, l: Id)
    ensures Charges(txs, l) == |ChargeRows(txs, l)|
  {
    hide IsCharge;
    if txs == [] {
      assert ChargeRows(txs, l) == {};
    } else {
      var n := |txs| - 1;
      ChargesCount(txs[..n], l);
      var few := ChargeRows(txs[..n], l);
      assert ChargeRows(txs, l) == few + if IsCharge(txs[n], l) then {n} else {};
      assert n !in few;
      assert IsCharge(txs[n], l) <==> txs[n].kind == LeaseCharge && txs[n].ref == l by { ChargeMeans(txs[n], l); }
    }
  }

  lemma {:induction false} ChargeMeans(tx: Tx, l: Id)
    ensures IsCharge(tx, l) <==> tx.kind == LeaseCharge && tx.ref == l
  {
  }

  lemma {:induction false} ChargesAppend(txs: seq<Tx>, tx: Tx, l: Id)
    ensures Charges(txs + [tx], l) == Charges(txs, l) + if tx.kind == LeaseCharge && tx.ref == l then 1 else 0
  {
    assert (txs + [tx])[..|txs|] == txs;
  }

  lemma {:induction false} ChargesOfCharge(txs: seq<Tx>, t1: Tx, t2: Tx, t3: Tx, l: Id)
    requires t1.kind == LeaseCharge && t2.kind != LeaseCharge && t3.kind != LeaseCharge
    ensures Charges(txs + [t1, t2, t3], l) == Charges(txs, l) + if t1.ref == l then 1 else 0
  {
    hide Charges;
    assert txs + [t1, t2, t3] == txs + [t1] + [t2] + [t3];
    ChargesAppend(txs, t1, l);
    ChargesAppend(txs + [t1], t2, l);
    ChargesAppend(txs + [t1] + [t2], t3, l);
  }

  lemma {:induction false} ChargedSettle(s: State, l: Id)
    requires Tables(s) && ChargedOnce(s) && l in s.leases && !s.leases[l].active && l !in s.settlements
    ensures ChargedOnce(Settle(s, l))
    ensures Settle(s, l).settlements.Keys == s.settlements.Keys + {l}
  {
    hide Lists; hide Charge; hide Charges;
    var lease := s.leases[l];
    var cost := Cost(s, l);
    ChargeFrame(s, l, lease.consumer, lease.worker, cost);
    var t1, t2 := Tx(lease.consumer, LeaseCharge, cost, l), Tx(lease.worker, ProviderPayout, 0.95 * cost, l);
    var t3 := Tx(TREASURY, PlatformFee, 0.05 * cost, l);
    forall k ensures Charges(s.txs + [t1, t2, t3], k) == Charges(s.txs, k) + if k == l then 1 else 0 {
      ChargesOfCharge(s.txs, t1, t2, t3, k);
    }
  }

  lemma {:induction false} ChargedSettleAll(s: State, ls: seq<Id>)
    requires Tables(s) && ChargedOnce(s) && Lists(ls, set l | l in ls)
    requires forall l :: l in ls ==> l in s.leases && !s.leases[l].active && l !in s.settlements
    ensures ChargedOnce(SettleAll(s, ls))
    ensures SettleAll(s, ls).settlements.Keys == s.settlements.Keys + (set l | l in ls)
    decreases |ls|
  {
    hide Tables; hide ChargedOnce; hide Settle;
    if ls != [] {
      ChargedSettle(s, ls[0]);
      TablesSettle(s, ls[0]);
      assert ls[0] !in ls[1..];
      assert Lists(ls[1..], set l | l in ls[1..]);
      ChargedSettleAll(Settle(s, ls[0]), ls[1..]);
      assert (set l | l in ls) == {ls[0]} + (set l | l in ls[1..]);
    } else {
      assert (set l | l in ls) == {};
    }
  }

  /** Closing expired leases touches no money; if every release goes out, all of them are closed. */
  lemma {:induction false} CloseAllEffect(s: State, ls: seq<Id>, now: real)
    requires forall l :: l in ls ==> l in s.leases
    ensures var (r, reply) := CloseAll(s, ls, now);
            && r.accounts == s.accounts && r.ids == s.ids && r.txs == s.txs && r.settlements == s.settlements
            && (reply == Done <==> forall l :: l in ls ==> SafeId(s.leases[l].worker))
            && (reply == Done ==> forall l :: l in ls ==> !r.leases[l].active && r.leases[l].ended == now)
            && (forall l :: l in s.leases && l !in ls ==> r.leases[l] == s.leases[l])
    decreases |ls|
  {
    hide SafeId;
    if ls != [] {
      var c := Close(s, ls[0], now);
      KeysClose(s, ls[0], now);
      CloseAllEffect(c, ls[1..], now);
      assert forall l :: l in ls <==> l == ls[0] || l in ls[1..];
    }
  }

  /** The place of the first lease whose worker cannot be told to stop; the length if there is none. */
  function FirstUnsafe(s: State, ls: seq<Id>): (k: nat)
    requires forall l :: l in ls ==> l in s.leases
    ensures k <= |ls| && (forall i :: 0 <= i < k ==> SafeId(s.leases[ls[i]].worker))
    ensures k < |ls| ==> !SafeId(s.leases[ls[k]].worker)
  {
    if ls == [] || !SafeId(s.leases[ls[0]].worker) then 0 else 1 + FirstUnsafe(s, ls[1..])
  }

  function Ended(lease: Lease, now: real): Lease {
    lease.(active := false, ended := now)
  }

  /** The closing loop closes exactly the leases up to and including that place. */
  lemma {:induction false} CloseAllExactly(s: State, ls: seq<Id>, now: real)
    requires Lists(ls, set l | l in ls) && forall l :: l in ls ==> l in s.leases
    ensures var r, k := CloseAll(s, ls, now).0, FirstUnsafe(s, ls);
            forall i :: 0 <= i < |ls| ==>
              r.leases[ls[i]] == if i <= k then Ended(s.leases[ls[i]], now) else s.leases[ls[i]]
    decreases |ls|
  {
    hide SafeId; hide Close; hide CloseAll; hide FirstUnsafe;
    if ls != [] {
      var c, rest := Close(s, ls[0], now), ls[1..];
      KeysClose(s, ls[0], now);
      assert ls[0] !in rest;
      assert Lists(rest, set l | l in rest);
      CloseAllExactly(c, rest, now);
      CloseAllEffect(c, rest, now);
      SameUnsafe(s, c, rest);
      FirstClosed(s, ls, now);
      assert forall i :: 1 <= i < |ls| ==> ls[i] == rest[i - 1];
    }
  }

  lemma {:induction false} FirstClosed(s: State, ls: seq<Id>, now: real)
    requires ls != [] && forall l :: l in ls ==> l in s.leases
    ensures var c := Close(s, ls[0], now);
            if SafeId(s.leases[ls[0]].worker)
            then CloseAll(s, ls, now) == CloseAll(c, ls[1..], now) && FirstUnsafe(s, ls) == 1 + FirstUnsafe(s, ls[1..])
            else CloseAll(s, ls, now) == (c, Refused) && FirstUnsafe(s, ls) == 0
  {
    hide SafeId; hide Close;
  }

  lemma {:induction false} SameUnsafe(s: State, c: State, ls: seq<Id>)
    requires forall l :: l in ls ==> l in s.leases && l in c.leases && c.leases[l].worker == s.leases[l].worker
    ensures FirstUnsafe(c, ls) == FirstUnsafe(s, ls)
  {
    hide SafeId;
    if ls != [] {
      SameUnsafe(s, c, ls[1..]);
    }
  }

  /** The leases an expiry pass looks at, in row order. */
  function Overdue(s: State, now: real): (q: seq<Id>)
    ensures forall l :: l in q ==> l in s.leases && s.leases[l].active
  {
    ExpiredOf(s, s.leaseOrder, now)
  }

  /** A lease is overdue exactly when it is active and its time has passed; the passes look at the leases in
      row order. */
  lemma {:induction false} OverdueMeans(s: State, now: real)
    requires Tables(s)
    ensures forall l :: l in Overdue(s, now) <==>
              l in s.leases && s.leases[l].active && now - s.leases[l].created > s.leases[l].duration as real
    ensures KeepsOrder(s.leaseOrder, Overdue(s, now))
  {
    hide Tables; hide KeepsOrder;
    OrderDistinct(s);
    OverdueOrder(s, s.leaseOrder, now);
  }

  ghost predicate InOrder(q: seq<Id>, a: Id, b: Id) {
    exists i, j :: 0 <= i < j < |q| && q[i] == a && q[j] == b
  }

  ghost predicate KeepsOrder(ls: seq<Id>, q: seq<Id>) {
    forall i, j :: 0 <= i < j < |q| ==> InOrder(ls, q[i], q[j])
  }

  lemma {:induction false} OverdueOrder(s: State, ls: seq<Id>, now: real)
    ensures KeepsOrder(ls, ExpiredOf(s, ls, now))
  {
    hide Expired;
    if ls != [] {
      var init, last := ls[..|ls| - 1], ls[|ls| - 1];
      OverdueOrder(s, init, now);
      var q, q' := ExpiredOf(s, init, now), ExpiredOf(s, ls, now);
      forall i, j | 0 <= i < j < |q'| ensures InOrder(ls, q'[i], q'[j]) {
        if j < |q| {
          assert InOrder(init, q[i], q[j]);
          var a, b :| 0 <= a < b < |init| && init[a] == q[i] && init[b] == q[j];
          assert ls[a] == q'[i] && ls[b] == q'[j];
        } else {
          assert q'[i] in q;
          assert q[i] in init;
          var a :| 0 <= a < |init| && init[a] == q[i];
          assert ls[a] == q'[i] && ls[|ls| - 1] == q'[j];
        }
      }
    }
  }

  /** What a pass does to each lease: those up to and including the first whose worker cannot be told to
      stop are closed, and all of them are settled exactly when there is no such worker. */
  lemma {:induction false} ExpirePass(s: State, now: real)
    requires Tables(s) && ChargedOnce(s)
    ensures var q, r := Overdue(s, now), ExpireStep(s, now);
            var k := FirstUnsafe(s, q);
            && (forall i :: 0 <= i < |q| ==>
                  && q[i] in r.leases
                  && r.leases[q[i]] == (if i <= k then Ended(s.leases[q[i]], now) else s.leases[q[i]])
                  && (q[i] in r.settlements <==> k == |q|))
            && (forall l :: l in s.leases && l !in q ==>
                  l in r.leases && r.leases[l] == s.leases[l] && (l in r.settlements <==> l in s.settlements))
            && r.leases.Keys == s.leases.Keys
  {
    hide Tables; hide Lists; hide CloseAll; hide SettleAll; hide ExpiredOf; hide Charges; hide SafeId; hide Expired;
    hide FirstUnsafe; hide Ended;
    var q := Overdue(s, now);
    OrderDistinct(s);
    ExpiredDistinct(s, s.leaseOrder, now);
    CloseAllExactly(s, q, now);
    CloseAllEffect(s, q, now);
    TablesCloseAll(s, q, now);
    CloseKeys(s, q, now);
    var (c, reply) := CloseAll(s, q, now);
    assert reply == Done <==> FirstUnsafe(s, q) == |q| by { AllSafe(s, q); }
    NotYetSettled(s, now);
    if reply == Done {
      assert ChargedOnce(c) by { ClosedCharged(s, q, now); }
      assert forall l :: l in q ==> !c.leases[l].active;
      ChargedSettleAll(c, q);
      TablesSettleAll(c, q);
    }
  }

  lemma {:induction false} CloseKeys(s: State, ls: seq<Id>, now: real)
    requires forall l :: l in ls ==> l in s.leases
    ensures CloseAll(s, ls, now).0.leases.Keys == s.leases.Keys
  {
  }

  lemma {:induction false} AllSafe(s: State, ls: seq<Id>)
    requires forall l :: l in ls ==> l in s.leases
    ensures FirstUnsafe(s, ls) == |ls| <==> forall l :: l in ls ==> SafeId(s.leases[l].worker)
  {
    hide SafeId;
  }

  lemma {:induction false} NotYetSettled(s: State, now: real)
    requires ChargedOnce(s)
    ensures forall l :: l in Overdue(s, now) ==> l in s.leases && s.leases[l].active && l !in s.settlements
  {
    hide Charges;
  }

  lemma {:induction false} ClosedCharged(s: State, ls: seq<Id>, now: real)
    requires ChargedOnce(s) && forall l :: l in ls ==> l in s.leases && s.leases[l].active
    ensures ChargedOnce(CloseAll(s, ls, now).0)
  {
    hide Charges; hide SafeId; hide CloseAll;
    CloseAllEffect(s, ls, now);
  }

  lemma {:induction false} QuietCharges(s: State, op: Op, l: Id)
    requires Quiet(op)
    ensures Charges(Step(s, op).txs, l) == Charges(s.txs, l)
  {
    hide Post; hide Charges;
    match op
    case DepositOp(a, x) =>
      PostFrame(s, Tx(a, Deposit, x, ""));
      ChargesAppend(s.txs, Tx(a, Deposit, x, ""), l);
    case WithdrawOp(a, x) =>
      PostFrame(s, Tx(a, Withdraw, x, ""));
      ChargesAppend(s.txs, Tx(a, Withdraw, x, ""), l);
    case TransferOp(from, to, x) =>
      var t1, t2 := Tx(from, TransferOut, x, ""), Tx(to, TransferIn, x, "");
      PostFrame(s, t1);
      PostFrame(Post(s, t1), t2);
      ChargesAppend(s.txs, t1, l);
      ChargesAppend(s.txs + [t1], t2, l);
    case _ =>
  }

  lemma {:induction false} RentFrame(s: State, allowed: bool, consumer: Id, wanted: Id, duration: int, l: Id, now: real)
    ensures var r := RentStep(s, allowed, consumer, wanted, duration, l, now).0;
            && r.accounts == s.accounts && r.ids == s.ids && r.txs == s.txs && r.settlements == s.settlements
            && (forall k :: k in s.leases ==> k in r.leases && r.leases[k] == s.leases[k])
  {
    hide FirstRentable;
  }

  lemma {:induction false} ChargedStop(s: State, secret: bool, l: Id, now: real)
    requires Tables(s) && ChargedOnce(s)
    ensures ChargedOnce(StopStep(s, secret, l, now).0)
    ensures secret && l in s.leases && s.leases[l].active ==>
              (l in StopStep(s, secret, l, now).0.settlements <==> SafeId(s.leases[l].worker))
    ensures forall k :: k in StopStep(s, secret, l, now).0.settlements ==>
              k in s.settlements || (k == l && l in s.leases && s.leases[l].active)
  {
    hide Tables; hide Settle; hide SafeId; hide Charges;
    if secret && l in s.leases && s.leases[l].active {
      KeysClose(s, l, now);
      TablesClose(s, l, now);
      CloseFrame(s, l, now);
      ChargedSettle(Close(s, l, now), l);
    }
  }

  lemma {:induction false} CloseFrame(s: State, l: Id, now: real)
    requires l in s.leases
    ensures var r := Close(s, l, now);
            r.accounts == s.accounts && r.ids == s.ids && r.txs == s.txs && r.settlements == s.settlements
  {
  }

  lemma {:induction false} ChargedExpire(s: State, now: real)
    requires Tables(s) && ChargedOnce(s)
    ensures ChargedOnce(ExpireStep(s, now))
    ensures var r := ExpireStep(s, now);
            if forall l :: Expired(s, l, now) ==> SafeId(s.leases[l].worker)
            then forall l :: Expired(s, l, now) ==> l in r.leases && !r.leases[l].active && l in r.settlements
            else r.settlements == s.settlements
    ensures forall l :: l in s.settlements ==> l in ExpireStep(s, now).settlements
    ensures forall l :: l in ExpireStep(s, now).settlements ==> l in s.settlements || Expired(s, l, now)
  {
    hide Tables; hide Lists; hide CloseAll; hide SettleAll; hide ExpiredOf; hide Charges; hide SafeId;
    var expired := ExpiredOf(s, s.leaseOrder, now);
    OrderDistinct(s);
    ExpiredDistinct(s, s.leaseOrder, now);
    var (c, reply) := CloseAll(s, expired, now);
    CloseAllEffect(s, expired, now);
    TablesCloseAll(s, expired, now);
    assert forall l :: l in expired <==> Expired(s, l, now);
    assert ChargedOnce(c);
    if reply == Done {
      ChargedSettleAll(c, expired);
      TablesSettleAll(c, expired);
    }
  }

  /** No run charges a lease twice, whichever of stop and expiry gets to it first. */
  lemma {:induction false} ChargedStep(s: State, op: Op)
    requires Tables(s) && ChargedOnce(s)
    ensures ChargedOnce(Step(s, op))
  {
    hide Tables; hide RentStep; hide StopStep; hide ExpireStep; hide Charges;
    match op
    case RentOp(allowed, consumer, wanted, duration, l, now) =>
      RentFrame(s, allowed, consumer, wanted, duration, l, now);
    case StopOp(secret, l, now) => ChargedStop(s, secret, l, now);
    case ExpireOp(now) => ChargedExpire(s, now);
    case _ =>
      QuietStep(s, op);
      forall l ensures Charges(Step(s, op).txs, l) == Charges(s.txs, l) {
        QuietCharges(s, op, l);
      }
  }
}
