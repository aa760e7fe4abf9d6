/** The marketplace of treeminer/server as one step system over its database tables: accounts and
    their transaction rows (storage/accounts.py), workers and leases (matcher.py), and settlements
    (settlement.py).  Every operation is one atomic step: a stop or an expiry pass includes the
    settlements that follow it.  Money is exact. */
module MarketSpec {
  import Identifiers

  type Id = string

  const TREASURY: Id := "platform-treasury"
  const AVAILABLE := "AVAILABLE"
  const LEASED := "LEASED"
  const DEFAULT_PRICE: real := 0.60

  datatype TxKind = Deposit | Withdraw | LeaseCharge | ProviderPayout | PlatformFee | TransferIn | TransferOut
  datatype Tx = Tx(account: Id, kind: TxKind, amount: real, ref: Id)

  datatype Worker = Worker(state: string, pricePerMin: real)
  datatype Lease = Lease(worker: Id, consumer: Id, rate: real, created: real, duration: int,
                         active: bool, ended: real)
  datatype Settlement = Settlement(totalCost: real, payout: real, fee: real)

  /** The tables.  The sequences give row order: SQLite scans a table in insertion order. */
  datatype State = State(
    ids: seq<Id>, accounts: map<Id, real>, txs: seq<Tx>,
    roster: seq<Id>, workers: map<Id, Worker>,
    leaseOrder: seq<Id>, leases: map<Id, Lease>,
    settlements: map<Id, Settlement>)

  datatype Reply = Done | Refused | Rented(lease: Id)

  // ----- Accounts (storage/accounts.py)

  /** `INSERT OR IGNORE INTO accounts`. */
  function Open(s: State, a: Id, balance: real): State {
    if a in s.accounts then s else s.(ids := s.ids + [a], accounts := s.accounts[a := balance])
  }

  /** `UPDATE accounts SET balance = balance + x WHERE account_id = a`: no row, no effect. */
  function Add(s: State, a: Id, x: real): State {
    if a in s.accounts then s.(accounts := s.accounts[a := s.accounts[a] + x]) else s
  }

  function Record(s: State, tx: Tx): State {
    s.(txs := s.txs + [tx])
  }

  /** What a row says happened to its account's balance. */
  function Signed(tx: Tx): real {
    match tx.kind
    case Withdraw => -tx.amount
    case LeaseCharge => -tx.amount
    case TransferOut => -tx.amount
    case _ => tx.amount
  }

  /** A balance update together with the row that explains it. */
  function Post(s: State, tx: Tx): State {
    Record(Add(s, tx.account, Signed(tx)), tx)
  }

  function DepositStep(s: State, a: Id, amount: real): (State, Reply) {
    if amount <= 0.0 || a !in s.accounts then (s, Refused) else (Post(s, Tx(a, Deposit, amount, "")), Done)
  }

  function WithdrawStep(s: State, a: Id, amount: real): (State, Reply) {
    if amount <= 0.0 || a !in s.accounts || s.accounts[a] < amount then (s, Refused)
    else (Post(s, Tx(a, Withdraw, amount, "")), Done)
  }

  /** A transfer debits first.  When the payee has no account, its row violates a foreign key and the
      call fails, but the debit and the payer's row are not rolled back. */
  function TransferStep(s: State, from: Id, to: Id, amount: real): (State, Reply) {
    if amount <= 0.0 || from !in s.accounts || s.accounts[from] < amount then (s, Refused)
    else
      var s1 := Post(s, Tx(from, TransferOut, amount, ""));
      if to in s.accounts then (Post(s1, Tx(to, TransferIn, amount, "")), Done) else (s1, Refused)
  }

  // ----- Workers (matcher.py)

  function RegisterStep(s: State, w: Id): State {
    var price := if w in s.workers then s.workers[w].pricePerMin else DEFAULT_PRICE;
    var roster := if w in s.workers then s.roster else s.roster + [w];
    Open(s.(roster := roster, workers := s.workers[w := Worker(AVAILABLE, price)]), w, 0.0)
  }

  /** `UPDATE workers SET state`: no row, no effect. */
  function SetWorkerState(s: State, w: Id, state: string): State {
    if w in s.workers then s.(workers := s.workers[w := s.workers[w].(state := state)]) else s
  }

  function StatusStep(s: State, w: Id, state: string): State {
    if w == "" || state == "" then s else SetWorkerState(s, w, state)
  }

  /** `set_pricing`, with the shortest and longest duration it also checks. */
  function PriceStep(s: State, w: Id, price: real, least: int, most: int): (State, Reply) {
    if w !in s.workers || price < 0.0 || least < 1 || most < least then (s, Refused)
    else (s.(workers := s.workers[w := s.workers[w].(pricePerMin := price)]), Done)
  }

  // ----- Leases (matcher.py, storage/leases.py)

  predicate Busy(s: State, w: Id) {
    exists l :: l in s.leases && s.leases[l].active && s.leases[l].worker == w
  }

  predicate Rentable(s: State, w: Id) {
    w in s.workers && s.workers[w].state == AVAILABLE && !Busy(s, w)
  }

  /** The first rentable worker of the list. */
  function FirstRentable(s: State, ws: seq<Id>): (r: seq<Id>)
    ensures |r| <= 1
    ensures r == [] ==> forall w :: w in ws ==> !Rentable(s, w)
    ensures r != [] ==> r[0] in ws && Rentable(s, r[0])
  {
    if ws == [] then [] else if Rentable(s, ws[0]) then [ws[0]] else FirstRentable(s, ws[1..])
  }

  /** Renting from one named worker, or from any.  `allowed` says that the consumer's address is valid
      and a signing secret is configured; `l` is the fresh lease id. */
  function RentStep(s: State, allowed: bool, consumer: Id, wanted: Id, duration: int, l: Id, now: real)
    : (State, Reply)
  {
    if !allowed then (s, Refused)
    else
      var target := FirstRentable(s, if wanted == "" then s.roster else [wanted]);
      if target == [] || l in s.leases || consumer !in s.accounts then (s, Refused)
      else
        var w := target[0];
        var lease := Lease(w, consumer, s.workers[w].pricePerMin / 60.0, now, duration, true, 0.0);
        (SetWorkerState(s.(leaseOrder := s.leaseOrder + [l], leases := s.leases[l := lease]), w, LEASED), Rented(l))
  }

  /** A lease leaves `active`, and its worker becomes available again. */
  function Close(s: State, l: Id, now: real): State
    requires l in s.leases
  {
    var lease := s.leases[l];
    SetWorkerState(s.(leases := s.leases[l := lease.(active := false, ended := now)]), lease.worker, AVAILABLE)
  }

  // ----- Settlement (settlement.py)

  function Due(lease: Lease): real {
    (lease.ended - lease.created) * lease.rate
  }

  /** What a consumer pays of a debt: all of it, or all there is. */
  function Payable(due: real, balance: real): (x: real)
    ensures due >= 0.0 && balance >= 0.0 ==> x <= due && x <= balance && (x == due || x == balance)
    ensures due < 0.0 && balance >= 0.0 ==> x == due
    ensures due >= 0.0 && balance < 0.0 ==> x == 0.0
  {
    if due <= balance then due else if balance > 0.0 then balance else 0.0
  }

  /** What a lease costs its consumer. */
  function Cost(s: State, l: Id): real
    requires l in s.leases && s.leases[l].consumer in s.accounts
  {
    Payable(Due(s.leases[l]), s.accounts[s.leases[l].consumer])
  }

  function Charge(s: State, l: Id, consumer: Id, worker: Id, cost: real): State {
    var s1 := Post(s, Tx(consumer, LeaseCharge, cost, l));
    var s2 := Post(s1, Tx(worker, ProviderPayout, 0.95 * cost, l));
    Post(s2, Tx(TREASURY, PlatformFee, 0.05 * cost, l))
  }

  /** `settle_lease`.  A missing account rolls the whole transaction back. */
  function Settle(s: State, l: Id): State
    requires l in s.leases
  {
    var lease := s.leases[l];
    if lease.consumer !in s.accounts || lease.worker !in s.accounts || TREASURY !in s.accounts then s
    else
      var cost := Cost(s, l);
      var s1 := Charge(s, l, lease.consumer, lease.worker, cost);
      if l in s.settlements then s1
      else s1.(settlements := s1.settlements[l := Settlement(cost, 0.95 * cost, 0.05 * cost)])
  }

  /** Publishing to a worker whose identifier cannot be part of a command topic fails. */
  predicate SafeId(w: Id) {
    Identifiers.SafeIdentifier(w)
  }

  /** Stopping a lease: close it, send the release, settle.  When the release cannot be published,
      the call fails after closing and the settlement never happens. */
  function StopStep(s: State, secret: bool, l: Id, now: real): (State, Reply) {
    if !secret || l !in s.leases || !s.leases[l].active then (s, Refused)
    else if !SafeId(s.leases[l].worker) then (Close(s, l, now), Refused)
    else (Settle(Close(s, l, now), l), Done)
  }

  predicate Expired(s: State, l: Id, now: real) {
    l in s.leases && s.leases[l].active && s.leases[l].created + s.leases[l].duration as real < now
  }

  /** `find_expired`. */
  function ExpiredOf(s: State, ls: seq<Id>, now: real): (r: seq<Id>)
    ensures forall l :: l in r <==> l in ls && Expired(s, l, now)
  {
    if ls == [] then []
    else
      var last := ls[|ls| - 1];
      ExpiredOf(s, ls[..|ls| - 1], now) + if Expired(s, last, now) then [last] else []
  }

  /** The closing loop of `check_expired_leases`, which fails at the first release that cannot be
      published. */
  function CloseAll(s: State, ls: seq<Id>, now: real): (r: (State, Reply))
    requires forall l :: l in ls ==> l in s.leases
    ensures r.0.leases.Keys == s.leases.Keys
    decreases |ls|
  {
    if ls == [] then (s, Done)
    else if !SafeId(s.leases[ls[0]].worker) then (Close(s, ls[0], now), Refused)
    else CloseAll(Close(s, ls[0], now), ls[1..], now)
  }

  function SettleAll(s: State, ls: seq<Id>): State
    requires forall l :: l in ls ==> l in s.leases
    decreases |ls|
  {
    if ls == [] then s else SettleAll(Settle(s, ls[0]), ls[1..])
  }

  /** One round of the lease watchdog. */
  function ExpireStep(s: State, now: real): State {
    var expired := ExpiredOf(s, s.leaseOrder, now);
    var (closed, reply) := CloseAll(s, expired, now);
    if reply == Done then SettleAll(closed, expired) else closed
  }

  datatype Op =
    | OpenAccount(a: Id)
    | DepositOp(a: Id, amount: real)
    | WithdrawOp(a: Id, amount: real)
    | TransferOp(from: Id, to: Id, amount: real)
    | RegisterOp(w: Id)
    | StatusOp(w: Id, state: string)
    | PriceOp(w: Id, amount: real, least: int, most: int)
    | RentOp(allowed: bool, consumer: Id, wanted: Id, duration: int, l: Id, now: real)
    | StopOp(secret: bool, l: Id, now: real)
    | ExpireOp(now: real)

  function Step(s: State, op: Op): State {
    match op
    case OpenAccount(a) => Open(s, a, 0.0)
    case DepositOp(a, x) => DepositStep(s, a, x).0
    case WithdrawOp(a, x) => WithdrawStep(s, a, x).0
    case TransferOp(from, to, x) => TransferStep(s, from, to, x).0
    case RegisterOp(w) => RegisterStep(s, w)
    case StatusOp(w, state) => StatusStep(s, w, state)
    case PriceOp(w, x, least, most) => PriceStep(s, w, x, least, most).0
    case RentOp(allowed, consumer, wanted, duration, l, now) =>
      RentStep(s, allowed, consumer, wanted, duration, l, now).0
    case StopOp(secret, l, now) => StopStep(s, secret, l, now).0
    case ExpireOp(now) => ExpireStep(s, now)
  }

  function Run(s: State, ops: seq<Op>): State {
    if ops == [] then s else Step(Run(s, ops[..|ops| - 1]), ops[|ops| - 1])
  }
}
