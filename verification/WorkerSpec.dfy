/** The platform side of a mining rig: treeminer/src/PlatformManager.cpp with its lease slot
    (LeaseManager.cpp) and the mining context that the miners read (MiningCoordinator.cpp).  Each
    handler, watchdog tick and block event is one atomic step; clock readings are inputs. */
module WorkerSpec {
  import opened Identifiers
  import opened Options

  datatype PlatformState = IDLE | AVAILABLE | LEASED | MINING | COMPLETED | ERROR_STATE

  datatype LeaseInfo = LeaseInfo(leaseId: string, consumerId: string, address: string, prefix: string,
                                 duration: int, start: int, blocksFound: nat)

  datatype Context =
    | SelfMining(address: string)
    | PlatformMining(address: string, prefix: string, consumerId: string, leaseId: string)

  /** A command after parsing; `addressOk` is the verdict of the address checksum. */
  datatype Command =
    | RegisterAck(accepted: bool)
    | AssignTask(leaseId: string, consumerId: string, address: string, addressOk: bool, prefix: string, duration: int)
    | Release(leaseId: string)
    | Pause
    | Resume
    | Shutdown
    | SetAddress(address: string, addressOk: bool)
    | Unknown

  /** A queued message: its command, whether it passes authorisation, and its size. */
  datatype Message = Message(command: Command, authorized: bool, size: nat)

  const CAPACITY: nat := 256
  const MAX_PAYLOAD: nat := 65536
  const PREFIX_LENGTH: nat := 16

  /** `unjoined` says that a remote shutdown has left the dispatch thread to the destructor, and
      `terminated` that the process has ended because a start then assigned a new thread over it. */
  datatype State = State(state: PlatformState, running: bool, lease: Option<LeaseInfo>, context: Context,
                         userAddress: string, queue: seq<Message>, dropped: nat,
                         unjoined: bool, terminated: bool)

  // ----- The lease slot

  /** `isExpiredInternal`: no lease counts as expired, a non-positive duration never expires. */
  predicate Expired(lease: Option<LeaseInfo>, now: int) {
    match lease
    case None => true
    case Some(l) => l.duration > 0 && now - l.start >= l.duration
  }

  predicate HasActiveLease(lease: Option<LeaseInfo>, now: int) {
    lease.Some? && !Expired(lease, now)
  }

  /** `toMiningContext`. */
  function ContextOf(lease: Option<LeaseInfo>, userAddress: string): Context {
    match lease
    case None => SelfMining(userAddress)
    case Some(l) => PlatformMining(l.address, l.prefix, l.consumerId, l.leaseId)
  }

  /** End the lease and go back to mining for oneself. */
  function EndLease(s: State): State {
    s.(lease := None, context := SelfMining(s.userAddress))
  }

  // ----- Handlers

  function HandleRegisterAck(s: State, accepted: bool): State {
    s.(state := if accepted then AVAILABLE else ERROR_STATE)
  }

  predicate ShortId(s: string) {
    |s| <= 64 && SafeIdentifier(s)
  }

  predicate ValidTask(c: Command)
    requires c.AssignTask?
  {
    && ShortId(c.leaseId) && ShortId(c.consumerId) && c.addressOk
    && (c.prefix == "" || HexString(c.prefix, PREFIX_LENGTH, PREFIX_LENGTH))
    && 60 <= c.duration <= 604800
  }

  /** An invalid task is ignored; a valid one fails when a lease is still stored. */
  function HandleAssignTask(s: State, c: Command, now: int): State
    requires c.AssignTask?
  {
    if s.state != AVAILABLE || !ValidTask(c) then s
    else if s.lease.Some? then s.(state := ERROR_STATE)
    else
      var l := LeaseInfo(c.leaseId, c.consumerId, c.address, c.prefix, c.duration, now, 0);
      s.(state := MINING, lease := Some(l), context := ContextOf(Some(l), s.userAddress))
  }

  /** A release ends the stored lease, whatever the state, when it names that lease or none. */
  predicate ReleaseApplies(s: State, leaseId: string) {
    s.lease.Some? && (leaseId == "" || (ShortId(leaseId) && leaseId == s.lease.value.leaseId))
  }

  function HandleRelease(s: State, leaseId: string): State {
    if ReleaseApplies(s, leaseId) then EndLease(s).(state := AVAILABLE) else s
  }

  function HandlePause(s: State, now: int): State {
    (if HasActiveLease(s.lease, now) then EndLease(s) else s).(state := IDLE)
  }

  function HandleResume(s: State): State {
    if s.state == IDLE then s.(state := AVAILABLE) else s
  }

  function Stop(s: State, now: int): State {
    if !s.running then s
    else (if HasActiveLease(s.lease, now) then EndLease(s) else s).(running := false, state := IDLE)
  }

  /** `stop` on the dispatch thread itself, which cannot join itself. */
  function RemoteStop(s: State, now: int): State {
    if !s.running then s else Stop(s, now).(unjoined := true)
  }

  function Start(s: State, connected: bool): State {
    if s.running || s.terminated then s
    else if !connected then s.(state := ERROR_STATE)
    else if s.unjoined then s.(terminated := true)
    else s.(running := true, state := AVAILABLE)
  }

  function Handle(s: State, m: Message, now: int): State {
    if !m.authorized then s
    else
      match m.command
      case RegisterAck(accepted) => HandleRegisterAck(s, accepted)
      case AssignTask(_, _, _, _, _, _) => HandleAssignTask(s, m.command, now)
      case Release(leaseId) => HandleRelease(s, leaseId)
      case Pause => HandlePause(s, now)
      case Resume => HandleResume(s)
      case Shutdown => RemoteStop(s, now)
      case SetAddress(address, ok) => if ok then s.(userAddress := address) else s
      case Unknown => s
  }

  // ----- The queue

  function Enqueue(s: State, m: Message): State {
    if !s.running then s
    else if m.size > MAX_PAYLOAD || |s.queue| >= CAPACITY then s.(dropped := s.dropped + 1)
    else s.(queue := s.queue + [m])
  }

  function Dispatch(s: State, now: int): State {
    if !s.running || s.queue == [] then s
    else Handle(s.(queue := s.queue[1..]), s.queue[0], now)
  }

  // ----- Watchdog and block events

  function Watchdog(s: State, now: int, connected: bool): State {
    if !s.running then s
    else
      var s1 := if s.state == MINING && Expired(s.lease, now) then EndLease(s).(state := AVAILABLE) else s;
      if s1.state == ERROR_STATE then s1.(state := if connected then AVAILABLE else IDLE) else s1
  }

  function BlockFound(s: State): State {
    if s.state == MINING && s.lease.Some? then
      s.(lease := Some(s.lease.value.(blocksFound := s.lease.value.blocksFound + 1)))
    else s
  }

  datatype Event =
    | StartUp(connected: bool)
    | StopNow(now: int)
    | Arrive(m: Message)
    | DispatchOne(now: int)
    | Tick(now: int, connected: bool)
    | Block

  function Step(s: State, ev: Event): State {
    match ev
    case StartUp(connected) => Start(s, connected)
    case StopNow(now) => Stop(s, now)
    case Arrive(m) => Enqueue(s, m)
    case DispatchOne(now) => Dispatch(s, now)
    case Tick(now, connected) => Watchdog(s, now, connected)
    case Block => BlockFound(s)
  }

  function Run(s: State, evs: seq<Event>): State {
    if evs == [] then s else Step(Run(s, evs[..|evs| - 1]), evs[|evs| - 1])
  }

  function Initial(address: string): State {
    State(IDLE, false, None, SelfMining(""), address, [], 0, false, false)
  }

  // ----- What every reachable state satisfies

  /** The miners work for a lease exactly when one is stored, and then with that lease's address,
      prefix and ids; MINING needs a stored lease and a running rig; stored leases are valid; the queue
      is bounded; a rig whose dispatch thread was left behind does not run. */
  ghost predicate Consistent(s: State) {
    && (s.context.PlatformMining? <==> s.lease.Some?)
    && (s.lease.Some? ==>
          && s.context.address == s.lease.value.address && s.context.prefix == s.lease.value.prefix
          && s.context.consumerId == s.lease.value.consumerId && s.context.leaseId == s.lease.value.leaseId)
    && (s.state == MINING ==> s.lease.Some? && s.running)
    && (s.lease.Some? ==> 60 <= s.lease.value.duration <= 604800)
    && s.state != LEASED && s.state != COMPLETED
    && |s.queue| <= CAPACITY
    && (s.unjoined ==> !s.running)
  }

  lemma {:induction false} ConsistentHandle(s: State, m: Message, now: int)
    requires Consistent(s) && s.running
    ensures Consistent(Handle(s, m, now))
  {
    hide Consistent; hide HandleRegisterAck; hide HandleAssignTask; hide HandleRelease; hide HandlePause;
    hide HandleResume; hide RemoteStop;
    match m.command
    case AssignTask(_, _, _, _, _, _) => ConsistentAssign(s, m.command, now);
    case Release(leaseId) => ConsistentEnd(s, leaseId, now);
    case Pause => ConsistentEnd(s, "", now);
    case Shutdown => ConsistentShutdown(s, now);
    case _ => ConsistentQuiet(s, m, now);
  }

  lemma {:induction false} ConsistentQuiet(s: State, m: Message, now: int)
    requires Consistent(s) && s.running
    requires !m.command.AssignTask? && !m.command.Release? && !m.command.Pause? && !m.command.Shutdown?
    ensures Consistent(Handle(s, m, now))
  {
  }

  lemma {:induction false} ConsistentEnd(s: State, leaseId: string, now: int)
    requires Consistent(s)
    ensures Consistent(HandleRelease(s, leaseId)) && Consistent(HandlePause(s, now))
  {
    hide ReleaseApplies; hide HasActiveLease;
  }

  lemma {:induction false} ConsistentShutdown(s: State, now: int)
    requires Consistent(s)
    ensures Consistent(RemoteStop(s, now)) && Consistent(Stop(s, now))
  {
    hide HasActiveLease;
  }

  lemma {:induction false} ConsistentAssign(s: State, c: Command, now: int)
    requires Consistent(s) && s.running && c.AssignTask?
    ensures Consistent(HandleAssignTask(s, c, now))
  {
    hide ShortId; hide HexString;
  }

  lemma {:induction false} ConsistentStep(s: State, ev: Event)
    requires Consistent(s)
    ensures Consistent(Step(s, ev))
  {
    hide Handle; hide Stop;
    match ev
    case DispatchOne(now) =>
      if s.running && s.queue != [] {
        ConsistentHandle(s.(queue := s.queue[1..]), s.queue[0], now);
      }
    case StopNow(now) => ConsistentShutdown(s, now);
    case _ =>
  }

  lemma {:induction false} ConsistentRun(address: string, evs: seq<Event>)
    ensures Consistent(Run(Initial(address), evs))
  {
    if evs != [] {
      hide Step; hide Consistent;
      ConsistentRun(address, evs[..|evs| - 1]);
      ConsistentStep(Run(Initial(address), evs[..|evs| - 1]), evs[|evs| - 1]);
    } else {
      assert Consistent(Initial(address));
    }
  }

  /** One more event. */
  lemma {:induction false} RunExtends(address: string, evs: seq<Event>, ev: Event)
    ensures Run(Initial(address), evs + [ev]) == Step(Run(Initial(address), evs), ev)
    ensures Consistent(Run(Initial(address), evs + [ev]))
  {
    hide Step; hide Consistent; hide Initial;
    assert (evs + [ev])[..|evs|] == evs;
    ConsistentRun(address, evs + [ev]);
  }

  // ----- Leases over a run

  /** A step keeps the stored lease, up to its block count, unless it ends it. */
  lemma {:induction false} LeaseStable(s: State, ev: Event)
    requires Consistent(s) && s.lease.Some? && Step(s, ev).lease.Some?
    ensures var before, after := s.lease.value, Step(s, ev).lease.value;
            after == before.(blocksFound := before.blocksFound + if ev.Block? && s.state == MINING then 1 else 0)
  {
    hide SafeIdentifier; hide HexString;
    match ev
    case DispatchOne(now) =>
      if s.running && s.queue != [] {
        HandleLease(s.(queue := s.queue[1..]), s.queue[0], now);
      }
    case _ =>
  }

  lemma {:induction false} HandleLease(s: State, m: Message, now: int)
    ensures s.lease.Some? && Handle(s, m, now).lease.Some? ==> Handle(s, m, now).lease == s.lease
    ensures s.lease.None? && Handle(s, m, now).lease.Some? ==> Handle(s, m, now).lease.value.blocksFound == 0
  {
    hide SafeIdentifier; hide HexString;
  }

  /** The message that a step hands to its handler, if any. */
  function Delivered(s: State, ev: Event): Option<Message> {
    if Dispatches(s, ev) && s.queue[0].authorized then Some(s.queue[0]) else None
  }

  predicate Assigns(m: Message, l: LeaseInfo) {
    && m.authorized && m.command.AssignTask? && ValidTask(m.command)
    && m.command.leaseId == l.leaseId && m.command.consumerId == l.consumerId
    && m.command.address == l.address && m.command.prefix == l.prefix && m.command.duration == l.duration
  }

  /** A lease begins exactly when an available rig without one is handed an authorised, valid task, and
      it is that task's lease, starting now. */
  lemma {:induction false} LeaseBegins(s: State, ev: Event)
    ensures var m, r := Delivered(s, ev), Step(s, ev);
            && (s.lease.None? && r.lease.Some? <==>
                  && s.lease.None? && s.state == AVAILABLE
                  && m.Some? && m.value.command.AssignTask? && ValidTask(m.value.command))
            && (s.lease.None? && r.lease.Some? ==>
                  Assigns(m.value, r.lease.value) && r.lease.value.start == ev.now && r.state == MINING)
  {
    hide SafeIdentifier; hide HexString;
  }

  /** The messages that end a stored lease: its release, or a pause or shutdown before its time is up. */
  predicate EndsBy(s: State, m: Message, now: int)
    requires s.lease.Some?
  {
    && m.authorized
    && match m.command
       case Release(leaseId) => ReleaseApplies(s, leaseId)
       case Pause => !Expired(s.lease, now)
       case Shutdown => s.running && !Expired(s.lease, now)
       case _ => false
  }

  /** What ends a lease: such a message, its expiry seen by the watchdog while MINING, or a stop before its
      time is up. */
  predicate Ends(s: State, ev: Event)
    requires s.lease.Some?
  {
    match ev
    case StopNow(now) => s.running && !Expired(s.lease, now)
    case Tick(now, _) => s.running && s.state == MINING && Expired(s.lease, now)
    case DispatchOne(now) => s.running && s.queue != [] && EndsBy(s, s.queue[0], now)
    case _ => false
  }

  /** A lease ends exactly then, and the rig mines for its owner again. */
  lemma {:induction false} LeaseEnds(s: State, ev: Event)
    requires s.lease.Some?
    ensures Step(s, ev).lease.None? <==> Ends(s, ev)
    ensures Ends(s, ev) ==> Step(s, ev).context == SelfMining(s.userAddress) && Step(s, ev).state != MINING
  {
    hide Handle; hide ShortId; hide Expired;
    match ev
    case DispatchOne(now) =>
      if s.running && s.queue != [] {
        HandleEnds(s.(queue := s.queue[1..]), s.queue[0], now);
      }
    case _ =>
  }

  lemma {:induction false} HandleEnds(s: State, m: Message, now: int)
    requires s.lease.Some?
    ensures Handle(s, m, now).lease.None? <==> EndsBy(s, m, now)
    ensures EndsBy(s, m, now) ==>
              Handle(s, m, now).context == SelfMining(s.userAddress) && Handle(s, m, now).state != MINING
  {
    hide ValidTask; hide ShortId; hide Expired;
  }

  ghost predicate AssignedBy(done: seq<Message>, l: LeaseInfo) {
    exists i :: 0 <= i < |done| && Assigns(done[i], l)
  }

  /** Every lease in every run is the lease of some authorised, valid task that was dispatched. */
  lemma {:induction false} LeaseProvenance(address: string, evs: seq<Event>)
    ensures var r := Run(Initial(address), evs);
            r.lease.Some? ==> AssignedBy(Dispatched(Initial(address), evs), r.lease.value)
  {
    if evs != [] {
      hide Step; hide Consistent; hide Initial; hide Assigns;
      var s, init, ev := Initial(address), evs[..|evs| - 1], evs[|evs| - 1];
      var before := Run(s, init);
      var r, done, earlier := Step(before, ev), Dispatched(s, evs), Dispatched(s, init);
      LeaseProvenance(address, init);
      ConsistentRun(address, init);
      if before.lease.Some? && r.lease.Some? {
        LeaseStable(before, ev);
        var i :| 0 <= i < |earlier| && Assigns(earlier[i], before.lease.value);
        SameTask(earlier[i], before.lease.value, r.lease.value);
        assert done[i] == earlier[i];
        assert AssignedBy(done, r.lease.value);
      } else if r.lease.Some? {
        LeaseBegins(before, ev);
        assert Dispatches(before, ev);
        assert done == earlier + [before.queue[0]];
        assert Assigns(done[|earlier|], r.lease.value);
      }
    }
  }

  lemma {:induction false} SameTask(m: Message, l: LeaseInfo, l': LeaseInfo)
    requires Assigns(m, l) && l' == l.(blocksFound := l'.blocksFound)
    ensures Assigns(m, l')
  {
    hide ValidTask;
  }

  /** When a stored lease ends by time: the watchdog ends it, while MINING, once its duration has passed,
      and a stop, pause or remote shutdown ends it before that and not afterwards. */
  lemma {:induction false} LeaseEndsOnTime(s: State, ev: Event)
    requires Consistent(s) && s.lease.Some?
    ensures var end, r := s.lease.value.start + s.lease.value.duration, Step(s, ev);
            && (ev.Tick? ==> (r.lease.None? <==> s.running && s.state == MINING && ev.now >= end))
            && (ev.StopNow? ==> (r.lease.None? <==> s.running && ev.now < end))
            && var m := Delivered(s, ev);
            && (m.Some? && (m.value.command.Pause? || m.value.command.Shutdown?) ==> (r.lease.None? <==> ev.now < end))
  {
    hide Step; hide ShortId;
    LeaseEnds(s, ev);
  }

  /** Event i handed over the assignment of this lease, which started then. */
  ghost predicate BegunAt(s: State, evs: seq<Event>, i: nat, l: LeaseInfo) {
    && i < |evs| && evs[i].DispatchOne? && l.start == evs[i].now
    && var m := Delivered(Run(s, evs[..i]), evs[i]);
    && m.Some? && Assigns(m.value, l)
  }

  /** Every lease in every run was begun by the dispatch of an authorised, valid task, with the address, the
      prefix, the ids and the duration of that task, at the time of the dispatch. */
  lemma {:induction false} LeaseBegun(address: string, evs: seq<Event>)
    ensures var r := Run(Initial(address), evs);
            r.lease.Some? ==> exists i :: 0 <= i < |evs| && BegunAt(Initial(address), evs, i, r.lease.value)
  {
    if evs != [] {
      hide Step; hide Consistent; hide Initial; hide Assigns; hide Delivered;
      var s, init, ev := Initial(address), evs[..|evs| - 1], evs[|evs| - 1];
      var before := Run(s, init);
      var r := Step(before, ev);
      LeaseBegun(address, init);
      ConsistentRun(address, init);
      if before.lease.Some? && r.lease.Some? {
        LeaseStable(before, ev);
        var i :| 0 <= i < |init| && BegunAt(s, init, i, before.lease.value);
        SameTask(Delivered(Run(s, init[..i]), init[i]).value, before.lease.value, r.lease.value);
        assert evs[..i] == init[..i];
        assert BegunAt(s, evs, i, r.lease.value);
      } else if r.lease.Some? {
        LeaseBegins(before, ev);
        assert ev.DispatchOne? by { OnlyDispatchDelivers(before, ev); }
        assert BegunAt(s, evs, |init|, r.lease.value);
      }
    }
  }

  lemma {:induction false} OnlyDispatchDelivers(s: State, ev: Event)
    ensures Delivered(s, ev).Some? ==> ev.DispatchOne?
  {
  }

  /** Over every run: a task of duration d handed over at t is mined for until the first tick at t + d or
      later, and a stop or pause ends it before t + d and no longer afterwards. */
  lemma {:induction false} TaskTimes(address: string, evs: seq<Event>, ev: Event)
    requires Run(Initial(address), evs).lease.Some?
    ensures var s := Run(Initial(address), evs);
            exists i :: 0 <= i < |evs| && BegunAt(Initial(address), evs, i, s.lease.value)
              && var end := evs[i].now + Delivered(Run(Initial(address), evs[..i]), evs[i]).value.command.duration;
              && (ev.Tick? && s.running && s.state == MINING ==> (Step(s, ev).lease.None? <==> ev.now >= end))
              && (ev.StopNow? && s.running ==> (Step(s, ev).lease.None? <==> ev.now < end))
              && (Delivered(s, ev).Some? && Delivered(s, ev).value.command.Pause? ==>
                    (Step(s, ev).lease.None? <==> ev.now < end))
  {
    hide Step; hide Consistent; hide Initial; hide Delivered; hide Run;
    var s := Run(Initial(address), evs);
    LeaseBegun(address, evs);
    ConsistentRun(address, evs);
    LeaseEndsOnTime(s, ev);
    var i :| 0 <= i < |evs| && BegunAt(Initial(address), evs, i, s.lease.value);
  }

  /** The state after each event. */
  lemma {:induction false} StateAfter(s: State, ev: Event)
    ensures var r, m := Step(s, ev), Delivered(s, ev);
            && (ev.StartUp? ==> r.state == (if s.running || s.terminated then s.state
                                            else if !ev.connected then ERROR_STATE
                                            else if s.unjoined then s.state else AVAILABLE))
            && (ev.StopNow? ==> r.state == (if s.running then IDLE else s.state))
            && (ev.Arrive? || ev.Block? ==> r.state == s.state)
            && (ev.Tick? && !s.running ==> r.state == s.state)
            && (ev.Tick? && s.running && s.state == ERROR_STATE ==>
                  r.state == if ev.connected then AVAILABLE else IDLE)
            && (ev.Tick? && s.running && s.state == MINING && s.lease.Some? ==>
                  r.state == if r.lease.None? then AVAILABLE else MINING)
            && (ev.Tick? && s.state != MINING && s.state != ERROR_STATE ==> r.state == s.state)
            && (ev.DispatchOne? && m.None? ==> r.state == s.state && r.lease == s.lease)
            && (m.Some? && m.value.command.AssignTask? && s.state == AVAILABLE && s.lease.None? ==>
                  r.state == if r.lease.Some? then MINING else AVAILABLE)
            && (m.Some? && m.value.command.AssignTask? && s.state == AVAILABLE && s.lease.Some? ==>
                  r.lease == s.lease && r.state == if ValidTask(m.value.command) then ERROR_STATE else AVAILABLE)
            && (m.Some? && m.value.command.AssignTask? && s.state != AVAILABLE ==>
                  r.state == s.state && r.lease == s.lease)
            && (m.Some? && m.value.command.RegisterAck? ==>
                  r.state == if m.value.command.accepted then AVAILABLE else ERROR_STATE)
            && (m.Some? && m.value.command.Release? ==>
                  r.state == if s.lease.Some? && r.lease.None? then AVAILABLE else s.state)
            && (m.Some? && (m.value.command.Pause? || m.value.command.Shutdown?) ==> r.state == IDLE)
            && (m.Some? && m.value.command.Resume? ==> r.state == if s.state == IDLE then AVAILABLE else s.state)
            && (m.Some? && (m.value.command.SetAddress? || m.value.command.Unknown?) ==> r.state == s.state)
    ensures var m := Delivered(s, ev);
            Step(s, ev).userAddress == if m.Some? && m.value.command.SetAddress? && m.value.command.addressOk
                                       then m.value.command.address else s.userAddress
    ensures Step(s, ev).running ==
              if ev.StartUp? then s.running || (!s.terminated && ev.connected && !s.unjoined)
              else if ev.StopNow? || DispatchesShutdown(s, ev) then false
              else s.running
  {
    hide ShortId; hide Expired; hide HexString;
  }

  /** A release ends the stored lease when it names it, or names none; nothing else it may say does. */
  lemma {:induction false} ReleaseOutcome(s: State, leaseId: string)
    requires s.lease.Some?
    ensures HandleRelease(s, leaseId).lease.None? <==>
              leaseId == "" || (leaseId == s.lease.value.leaseId && |leaseId| <= 64 && SafeIdentifier(leaseId))
  {
  }

  /** Which tasks a rig takes that is AVAILABLE and holds no lease. */
  lemma {:induction false} TaskTaken(s: State, m: Message, now: int)
    requires s.state == AVAILABLE && s.lease.None? && m.authorized && m.command.AssignTask?
    ensures var c := m.command;
            Handle(s, m, now).lease.Some? <==>
              && 1 <= |c.leaseId| <= 64 && (forall i :: 0 <= i < |c.leaseId| ==> SafeChar(c.leaseId[i]))
              && 1 <= |c.consumerId| <= 64 && (forall i :: 0 <= i < |c.consumerId| ==> SafeChar(c.consumerId[i]))
              && c.addressOk && 60 <= c.duration <= 7 * 24 * 3600
              && (|c.prefix| == 0 || (|c.prefix| == 16 && forall i :: 0 <= i < 16 ==> HexChar(c.prefix[i])))
  {
    hide SafeChar; hide HexChar;
  }

  /** Which arrivals are dropped: those over 64 KiB, and those that find 256 commands waiting. */
  lemma {:induction false} ArrivalOutcome(s: State, m: Message)
    ensures var r := Step(s, Arrive(m));
            r == if !s.running then s
                 else if m.size <= 64 * 1024 && |s.queue| < 256 then s.(queue := s.queue + [m])
                 else s.(dropped := s.dropped + 1)
  {
  }

  /** Block events seen in MINING since the stored lease was stored. */
  function BlocksSinceStart(s: State, evs: seq<Event>): nat {
    if evs == [] then 0
    else
      var init := evs[..|evs| - 1];
      var before := Run(s, init);
      if before.lease.None? || Run(s, evs).lease.None? then 0
      else BlocksSinceStart(s, init) + if evs[|evs| - 1].Block? && before.state == MINING then 1 else 0
  }

  /** The counter of the stored lease is exactly that number. */
  lemma {:induction false} BlocksCounted(address: string, evs: seq<Event>)
    ensures var r := Run(Initial(address), evs);
            r.lease.Some? ==> r.lease.value.blocksFound == BlocksSinceStart(Initial(address), evs)
  {
    if evs != [] {
      hide Step; hide Consistent; hide Initial;
      var init, ev := evs[..|evs| - 1], evs[|evs| - 1];
      var before := Run(Initial(address), init);
      BlocksCounted(address, init);
      ConsistentRun(address, init);
      if before.lease.Some? && Step(before, ev).lease.Some? {
        LeaseStable(before, ev);
      }
      NewLeaseCounts(before, ev);
    }
  }

  lemma {:induction false} NewLeaseCounts(s: State, ev: Event)
    ensures s.lease.None? && Step(s, ev).lease.Some? ==> Step(s, ev).lease.value.blocksFound == 0
  {
    hide SafeIdentifier; hide HexString; hide Handle;
    match ev
    case DispatchOne(now) =>
      if s.running && s.queue != [] {
        HandleLease(s.(queue := s.queue[1..]), s.queue[0], now);
      }
    case _ =>
  }

  // ----- Leases held outside MINING

  /** A stored lease is being mined for. */
  predicate HeldMining(s: State) {
    s.lease.Some? ==> s.state == MINING
  }

  /** What takes a rig that holds a lease out of MINING and leaves the lease stored: any registration
      acknowledgement, and a pause, remote shutdown or stop that comes when the lease has expired but
      the watchdog has not seen it yet. */
  predicate Strands(s: State, ev: Event) {
    && s.lease.Some? && s.running
    && match ev
       case StopNow(now) => Expired(s.lease, now)
       case DispatchOne(now) =>
         && s.queue != [] && s.queue[0].authorized
         && (match s.queue[0].command
             case RegisterAck(_) => true
             case Pause => Expired(s.lease, now)
             case Shutdown => Expired(s.lease, now)
             case _ => false)
       case _ => false
  }

  predicate EndsLease(s: State, ev: Event) {
    s.lease.Some? && Ends(s, ev)
  }

  /** From a state where the implication holds, it is lost exactly so; once lost, it comes back exactly
      when the lease ends. */
  lemma {:induction false} HeldMiningStep(s: State, ev: Event)
    requires Consistent(s)
    ensures HeldMining(s) ==> (HeldMining(Step(s, ev)) <==> !Strands(s, ev))
    ensures !HeldMining(s) ==> (HeldMining(Step(s, ev)) <==> EndsLease(s, ev))
  {
    hide SafeIdentifier; hide HexString; hide Handle;
    if s.lease.Some? {
      hide Step;
      LeaseEnds(s, ev);
      if Step(s, ev).lease.Some? {
        StoredOutside(s, ev);
      }
      StrandsOnlyHeld(s, ev);
    } else if Step(s, ev).lease.Some? {
      hide Step;
      LeaseBegins(s, ev);
    }
  }

  /** A step that keeps the stored lease is in MINING afterwards exactly when it was before and does not
      strand the lease. */
  lemma {:induction false} StoredOutside(s: State, ev: Event)
    requires Consistent(s) && s.lease.Some? && Step(s, ev).lease.Some?
    ensures Step(s, ev).state == MINING <==> s.state == MINING && !Strands(s, ev)
  {
    hide Handle; hide ShortId;
    match ev
    case DispatchOne(now) =>
      if s.running && s.queue != [] {
        HandleKeeps(s.(queue := s.queue[1..]), s.queue[0], now);
      }
    case _ =>
  }

  lemma {:induction false} HandleKeeps(s: State, m: Message, now: int)
    requires s.running && s.lease.Some? && Handle(s, m, now).lease.Some?
    ensures Handle(s, m, now).state == MINING <==>
              && s.state == MINING
              && (m.authorized ==> !m.command.RegisterAck? && !m.command.Pause? && !m.command.Shutdown?)
    ensures m.authorized && (m.command.Pause? || m.command.Shutdown?) ==> Expired(s.lease, now)
  {
    hide ValidTask; hide ShortId; hide Expired;
  }

  ghost predicate StrandsAt(s: State, evs: seq<Event>, i: nat) {
    i < |evs| && Strands(Run(s, evs[..i]), evs[i])
  }

  ghost predicate EndsAt(s: State, evs: seq<Event>, i: nat) {
    i < |evs| && EndsLease(Run(s, evs[..i]), evs[i])
  }

  /** Some event stranded a lease, and nothing since has ended it. */
  ghost predicate LeftStranded(s: State, evs: seq<Event>) {
    exists i :: 0 <= i < |evs| && StrandsAt(s, evs, i) && forall j :: i < j < |evs| ==> !EndsAt(s, evs, j)
  }

  lemma {:induction false} PrefixEvents(s: State, evs: seq<Event>, ev: Event)
    ensures forall i :: 0 <= i < |evs| ==> StrandsAt(s, evs + [ev], i) == StrandsAt(s, evs, i)
    ensures forall i :: 0 <= i < |evs| ==> EndsAt(s, evs + [ev], i) == EndsAt(s, evs, i)
    ensures StrandsAt(s, evs + [ev], |evs|) == Strands(Run(s, evs), ev)
    ensures EndsAt(s, evs + [ev], |evs|) == EndsLease(Run(s, evs), ev)
  {
    hide Run; hide Strands; hide EndsLease;
    var all := evs + [ev];
    assert all[..|evs|] == evs;
    forall i | 0 <= i < |evs|
      ensures StrandsAt(s, all, i) == StrandsAt(s, evs, i) && EndsAt(s, all, i) == EndsAt(s, evs, i)
    {
      assert all[..i] == evs[..i] && all[i] == evs[i];
    }
  }

  lemma {:induction false} LeftStrandedStep(s: State, evs: seq<Event>, ev: Event)
    ensures LeftStranded(s, evs + [ev]) <==>
              || Strands(Run(s, evs), ev)
              || (LeftStranded(s, evs) && !EndsLease(Run(s, evs), ev))
  {
    hide Run; hide Strands; hide EndsLease; hide StrandsAt; hide EndsAt;
    var all, n := evs + [ev], |evs|;
    PrefixEvents(s, evs, ev);
    if LeftStranded(s, all) {
      var i :| 0 <= i < |all| && StrandsAt(s, all, i) && forall j :: i < j < |all| ==> !EndsAt(s, all, j);
      if i < n {
        assert !EndsAt(s, all, n);
        assert StrandsAt(s, evs, i) && forall j :: i < j < n ==> !EndsAt(s, evs, j) by {
          forall j | i < j < n ensures !EndsAt(s, evs, j) { assert !EndsAt(s, all, j); }
        }
      }
    }
    if Strands(Run(s, evs), ev) {
      assert StrandsAt(s, all, n);
    }
    if LeftStranded(s, evs) && !EndsLease(Run(s, evs), ev) {
      var i :| 0 <= i < n && StrandsAt(s, evs, i) && forall j :: i < j < n ==> !EndsAt(s, evs, j);
      assert StrandsAt(s, all, i);
      forall j | i < j < |all| ensures !EndsAt(s, all, j) {
        assert j < n ==> !EndsAt(s, evs, j);
      }
    }
  }

  /** In every run: a lease is stored outside MINING exactly when it was stranded and not ended since. */
  lemma {:induction false} HeldMiningRun(address: string, evs: seq<Event>)
    ensures HeldMining(Run(Initial(address), evs)) <==> !LeftStranded(Initial(address), evs)
  {
    if evs != [] {
      hide Run; hide Step; hide Consistent; hide Initial; hide HeldMining; hide LeftStranded;
      hide EndsLease; hide Strands;
      var s, init, ev := Initial(address), evs[..|evs| - 1], evs[|evs| - 1];
      assert evs == init + [ev];
      HeldMiningRun(address, init);
      ConsistentRun(address, init);
      RunLast(s, init, ev);
      HeldMiningStep(Run(s, init), ev);
      StrandsOnlyHeld(Run(s, init), ev);
      LeftStrandedStep(s, init, ev);
    }
  }

  lemma {:induction false} StrandsOnlyHeld(s: State, ev: Event)
    ensures Strands(s, ev) ==> !EndsLease(s, ev)
  {
  }

  const TASK: Command := AssignTask("lease-1", "consumer-1", "0x1", true, "", 60)

  function Signed(c: Command): Message {
    Message(c, true, 100)
  }

  /** A rig that has started and taken a task. */
  function Opening(t: int): seq<Event> {
    [StartUp(true), Arrive(Signed(TASK)), DispatchOne(t)]
  }

  lemma {:induction false} AfterOpening(address: string, t: int)
    ensures var l := LeaseInfo("lease-1", "consumer-1", "0x1", "", 60, t, 0);
            Run(Initial(address), Opening(t))
            == State(MINING, true, Some(l), ContextOf(Some(l), address), address, [], 0, false, false)
  {
    var s := Initial(address);
    assert ShortId("lease-1") && ShortId("consumer-1");
    RunLast(s, [], StartUp(true));
    RunLast(s, [StartUp(true)], Arrive(Signed(TASK)));
    RunLast(s, [StartUp(true), Arrive(Signed(TASK))], DispatchOne(t));
    assert [] + [StartUp(true)] == [StartUp(true)];
    assert [StartUp(true)] + [Arrive(Signed(TASK))] == [StartUp(true), Arrive(Signed(TASK))];
    assert [StartUp(true), Arrive(Signed(TASK))] + [DispatchOne(t)] == Opening(t);
    hide SafeIdentifier;
    var s2 := Run(s, [StartUp(true), Arrive(Signed(TASK))]);
    assert s2.queue == [Signed(TASK)] && s2.state == AVAILABLE && s2.running && s2.lease.None?;
  }

  lemma {:induction false} RunLast(s: State, evs: seq<Event>, ev: Event)
    ensures Run(s, evs + [ev]) == Step(Run(s, evs), ev)
  {
    hide Step;
    assert (evs + [ev])[..|evs|] == evs;
  }

  /** One more command, handled at once. */
  lemma {:induction false} HandledNext(s: State, evs: seq<Event>, m: Message, t: int)
    requires Run(s, evs).running && Run(s, evs).queue == [] && m.size <= MAX_PAYLOAD
    ensures Run(s, evs + [Arrive(m)] + [DispatchOne(t)]) == Handle(Run(s, evs), m, t)
  {
    hide Handle;
    var before := Run(s, evs);
    RunLast(s, evs, Arrive(m));
    RunLast(s, evs + [Arrive(m)], DispatchOne(t));
    assert Step(before, Arrive(m)) == before.(queue := [m]);
    assert [m][1..] == [];
    assert before.(queue := [m]).(queue := []) == before;
  }

  /** The implication does fail: a late acknowledgement leaves a rig AVAILABLE with its lease stored. */
  lemma {:induction false} LateAcknowledgement(address: string, t: int, t': int)
    ensures var r := Run(Initial(address), Opening(t) + [Arrive(Signed(RegisterAck(true)))] + [DispatchOne(t')]);
            r.state == AVAILABLE && r.lease.Some? && r.context.PlatformMining? && !HeldMining(r)
  {
    AfterOpening(address, t);
    hide Run; hide Initial; hide Opening;
    HandledNext(Initial(address), Opening(t), Signed(RegisterAck(true)), t');
  }

  /** So does a pause between the end of a lease and the next watchdog tick. */
  lemma {:induction false} LatePause(address: string, t: int)
    ensures var r := Run(Initial(address), Opening(t) + [Arrive(Signed(Pause))] + [DispatchOne(t + 60)]);
            r.state == IDLE && r.lease.Some? && r.context.PlatformMining? && !HeldMining(r) && Stale(r, t + 60)
  {
    AfterOpening(address, t);
    hide Run; hide Initial; hide Opening;
    HandledNext(Initial(address), Opening(t), Signed(Pause), t + 60);
  }

  /** An expired lease outside MINING. */
  ghost predicate Stale(s: State, now: int) {
    s.lease.Some? && Expired(s.lease, now) && s.state != MINING
  }

  function TimeOf(ev: Event, now: int): int {
    match ev
    case StopNow(t) => t
    case DispatchOne(t) => t
    case Tick(t, _) => t
    case _ => now
  }

  predicate DispatchesRelease(s: State, ev: Event) {
    && ev.DispatchOne? && s.running && s.queue != [] && s.queue[0].authorized
    && s.queue[0].command.Release? && ReleaseApplies(s, s.queue[0].command.leaseId)
  }

  lemma {:induction false} StaleStep(s: State, ev: Event, now: int)
    requires Consistent(s) && Stale(s, now) && now <= TimeOf(ev, now)
    ensures if DispatchesRelease(s, ev) then Step(s, ev).lease.None?
            else Stale(Step(s, ev), now) && Step(s, ev).lease == s.lease
  {
    hide SafeIdentifier; hide HexString;
    match ev
    case DispatchOne(t) =>
      if s.running && s.queue != [] {
        StaleHandle(s.(queue := s.queue[1..]), s.queue[0], now, t);
      }
    case _ =>
  }

  lemma {:induction false} StaleHandle(s: State, m: Message, now: int, t: int)
    requires Stale(s, now) && now <= t
    ensures if m.authorized && m.command.Release? && ReleaseApplies(s, m.command.leaseId)
            then Handle(s, m, t).lease.None? else Stale(Handle(s, m, t), now) && Handle(s, m, t).lease == s.lease
  {
    hide SafeIdentifier; hide HexString;
  }

  ghost predicate ReleasedAt(s: State, evs: seq<Event>, i: nat) {
    i < |evs| && DispatchesRelease(Run(s, evs[..i]), evs[i])
  }

  /** The clock never runs backwards, from `now` on. */
  ghost predicate NotBefore(evs: seq<Event>, now: int) {
    forall i :: 0 <= i < |evs| ==> now <= TimeOf(evs[i], now)
  }

  /** Neither the watchdog, nor a pause, a shutdown, a restart or a new task clears a stale lease: over
      any later events without a release that applies to it, it is still there, unchanged and not mined
      for. */
  lemma {:induction false} StaleWithoutRelease(s: State, evs: seq<Event>, now: int)
    requires Consistent(s) && Stale(s, now) && NotBefore(evs, now)
    requires forall i :: 0 <= i < |evs| ==> !ReleasedAt(s, evs, i)
    ensures Consistent(Run(s, evs)) && Stale(Run(s, evs), now) && Run(s, evs).lease == s.lease
  {
    hide Step; hide Consistent; hide Stale; hide DispatchesRelease;
    if evs != [] {
      var init, ev := evs[..|evs| - 1], evs[|evs| - 1];
      assert evs == init + [ev];
      ReleasedPrefix(s, init, ev);
      forall i | 0 <= i < |init| ensures !ReleasedAt(s, init, i) {
        assert !ReleasedAt(s, evs, i);
      }
      StaleWithoutRelease(s, init, now);
      assert !ReleasedAt(s, evs, |init|);
      StaleStep(Run(s, init), ev, now);
      ConsistentStep(Run(s, init), ev);
    }
  }

  /** A stale lease is stored, unchanged and not mined for exactly until the first release that applies
      to it, over any later events. */
  lemma {:induction false} StaleUntilReleased(s: State, evs: seq<Event>, now: int, n: nat)
    requires Consistent(s) && Stale(s, now) && NotBefore(evs, now)
    requires n < |evs| && forall i :: 0 <= i < n ==> !ReleasedAt(s, evs, i)
    ensures Stale(Run(s, evs[..n]), now) && Run(s, evs[..n]).lease == s.lease
    ensures if ReleasedAt(s, evs, n) then Run(s, evs[..n + 1]).lease.None?
            else Stale(Run(s, evs[..n + 1]), now) && Run(s, evs[..n + 1]).lease == s.lease
  {
    hide Step; hide Consistent; hide Stale; hide DispatchesRelease;
    var init, ev := evs[..n], evs[n];
    forall i | 0 <= i < n ensures !ReleasedAt(s, init, i) {
      assert !ReleasedAt(s, evs, i);
      assert evs[..i] == init[..i];
    }
    StaleWithoutRelease(s, init, now);
    StaleStep(Run(s, init), ev, now);
    assert evs[..n + 1][..n] == init;
  }

  lemma {:induction false} ReleasedPrefix(s: State, evs: seq<Event>, ev: Event)
    ensures forall i :: 0 <= i < |evs| ==> ReleasedAt(s, evs + [ev], i) == ReleasedAt(s, evs, i)
    ensures ReleasedAt(s, evs + [ev], |evs|) == DispatchesRelease(Run(s, evs), ev)
  {
    hide Run; hide DispatchesRelease;
    var all := evs + [ev];
    assert all[..|evs|] == evs;
    forall i | 0 <= i < |evs| ensures ReleasedAt(s, all, i) == ReleasedAt(s, evs, i) {
      assert all[..i] == evs[..i] && all[i] == evs[i];
    }
  }

  // ----- A remote shutdown is final

  predicate DispatchesShutdown(s: State, ev: Event) {
    ev.DispatchOne? && s.running && s.queue != [] && s.queue[0].authorized && s.queue[0].command.Shutdown?
  }

  /** The dispatch thread is left behind exactly by a remote shutdown, and the process ends exactly when a
      start connects after that. */
  lemma {:induction false} UnjoinedStep(s: State, ev: Event)
    requires Consistent(s)
    ensures Step(s, ev).unjoined <==> s.unjoined || DispatchesShutdown(s, ev)
    ensures Step(s, ev).terminated <==> s.terminated || (s.unjoined && ev == StartUp(true))
  {
    hide Handle;
    if ev.DispatchOne? && s.running && s.queue != [] {
      HandleUnjoined(s.(queue := s.queue[1..]), s.queue[0], ev.now);
    }
  }

  lemma {:induction false} HandleUnjoined(s: State, m: Message, now: int)
    requires s.running
    ensures Handle(s, m, now).unjoined <==> s.unjoined || (m.authorized && m.command.Shutdown?)
    ensures Handle(s, m, now).terminated == s.terminated
  {
    hide ValidTask; hide ShortId; hide Expired;
  }

  ghost predicate ShutdownAt(s: State, evs: seq<Event>, i: nat) {
    i < |evs| && DispatchesShutdown(Run(s, evs[..i]), evs[i])
  }

  ghost predicate ShutDown(s: State, evs: seq<Event>) {
    exists i :: 0 <= i < |evs| && ShutdownAt(s, evs, i)
  }

  /** A remote shutdown and, later, a start that connects. */
  ghost predicate Restarted(s: State, evs: seq<Event>) {
    exists j :: 0 <= j < |evs| && evs[j] == StartUp(true) && ShutDown(s, evs[..j])
  }

  lemma {:induction false} ShutDownStep(s: State, evs: seq<Event>, ev: Event)
    ensures ShutDown(s, evs + [ev]) <==> ShutDown(s, evs) || DispatchesShutdown(Run(s, evs), ev)
  {
    hide Run; hide DispatchesShutdown;
    var all := evs + [ev];
    assert all[..|evs|] == evs;
    forall i | 0 <= i < |evs| ensures ShutdownAt(s, all, i) == ShutdownAt(s, evs, i) {
      assert all[..i] == evs[..i] && all[i] == evs[i];
    }
    assert ShutdownAt(s, all, |evs|) == DispatchesShutdown(Run(s, evs), ev);
    if i :| 0 <= i < |all| && ShutdownAt(s, all, i) {
      assert i < |evs| ==> ShutdownAt(s, evs, i);
    }
    if i :| 0 <= i < |evs| && ShutdownAt(s, evs, i) {
      assert ShutdownAt(s, all, i);
    }
  }

  lemma {:induction false} RestartedStep(s: State, evs: seq<Event>, ev: Event)
    ensures Restarted(s, evs + [ev]) <==> Restarted(s, evs) || (ev == StartUp(true) && ShutDown(s, evs))
  {
    hide ShutDown;
    var all := evs + [ev];
    assert all[..|evs|] == evs;
    assert forall j :: 0 <= j < |evs| ==> all[..j] == evs[..j] && all[j] == evs[j];
    if j :| 0 <= j < |all| && all[j] == StartUp(true) && ShutDown(s, all[..j]) {
      assert j < |evs| ==> evs[j] == StartUp(true) && ShutDown(s, evs[..j]);
    }
    if j :| 0 <= j < |evs| && evs[j] == StartUp(true) && ShutDown(s, evs[..j]) {
      assert all[j] == StartUp(true) && ShutDown(s, all[..j]);
    }
    if ev == StartUp(true) && ShutDown(s, evs) {
      assert all[|evs|] == StartUp(true) && ShutDown(s, all[..|evs|]);
    }
  }

  /** In every run: the thread is left behind exactly when some event dispatched an authorised shutdown,
      and the process has ended exactly when a start connected after such an event. */
  lemma {:induction false} ShutdownRun(address: string, evs: seq<Event>)
    ensures var r := Run(Initial(address), evs);
            && (r.unjoined <==> ShutDown(Initial(address), evs))
            && (r.terminated <==> Restarted(Initial(address), evs))
  {
    if evs != [] {
      hide Run; hide Step; hide Consistent; hide Initial; hide ShutDown; hide Restarted; hide DispatchesShutdown;
      var s, init, ev := Initial(address), evs[..|evs| - 1], evs[|evs| - 1];
      assert evs == init + [ev];
      ShutdownRun(address, init);
      ConsistentRun(address, init);
      RunLast(s, init, ev);
      UnjoinedStep(Run(s, init), ev);
      ShutDownStep(s, init, ev);
      RestartedStep(s, init, ev);
    }
  }

  /** Such a run: a task, a remote shutdown, a start. */
  lemma {:induction false} RestartEndsProcess(address: string, t: int)
    ensures var down := Opening(t) + [Arrive(Signed(Shutdown))] + [DispatchOne(t)];
            && Run(Initial(address), down).unjoined && !Run(Initial(address), down).terminated
            && Run(Initial(address), down + [StartUp(true)]).terminated
  {
    var down := Opening(t) + [Arrive(Signed(Shutdown))] + [DispatchOne(t)];
    AfterOpening(address, t);
    HandledNext(Initial(address), Opening(t), Signed(Shutdown), t);
    hide Run; hide Initial; hide Opening;
    RunLast(Initial(address), down, StartUp(true));
  }

  /** Once a remote shutdown has left the dispatch thread behind, the rig never runs again. */
  lemma {:induction false} ShutdownIsFinal(s: State, evs: seq<Event>)
    requires Consistent(s) && s.unjoined
    ensures var r := Run(s, evs);
            && Consistent(r) && r.unjoined && !r.running && r.queue == s.queue && r.lease == s.lease
            && (r.terminated <==> s.terminated || exists i :: 0 <= i < |evs| && evs[i] == StartUp(true))
  {
    if evs != [] {
      hide Step; hide Consistent;
      var init, ev := evs[..|evs| - 1], evs[|evs| - 1];
      ShutdownIsFinal(s, init);
      UnjoinedStep(Run(s, init), ev);
      ConsistentStep(Run(s, init), ev);
      UnjoinedFrame(Run(s, init), ev);
      assert forall i :: 0 <= i < |init| ==> init[i] == evs[i];
    }
  }

  lemma {:induction false} UnjoinedFrame(s: State, ev: Event)
    requires Consistent(s) && s.unjoined
    ensures var r := Step(s, ev); !r.running && r.queue == s.queue && r.lease == s.lease
  {
  }

  // ----- The queue over a run

  predicate Accepts(s: State, ev: Event) {
    ev.Arrive? && s.running && ev.m.size <= MAX_PAYLOAD && |s.queue| < CAPACITY
  }

  predicate Dispatches(s: State, ev: Event) {
    ev.DispatchOne? && s.running && s.queue != []
  }

  function Accepted(s: State, evs: seq<Event>): seq<Message> {
    if evs == [] then []
    else
      var init, ev := evs[..|evs| - 1], evs[|evs| - 1];
      Accepted(s, init) + if Accepts(Run(s, init), ev) then [ev.m] else []
  }

  function Dispatched(s: State, evs: seq<Event>): seq<Message> {
    if evs == [] then []
    else
      var init, ev := evs[..|evs| - 1], evs[|evs| - 1];
      Dispatched(s, init) + if Dispatches(Run(s, init), ev) then [Run(s, init).queue[0]] else []
  }

  function ArrivedRunning(s: State, evs: seq<Event>): nat {
    if evs == [] then 0
    else
      var init, ev := evs[..|evs| - 1], evs[|evs| - 1];
      ArrivedRunning(s, init) + if ev.Arrive? && Run(s, init).running then 1 else 0
  }

  lemma {:induction false} HandleQueue(s: State, m: Message, now: int)
    ensures Handle(s, m, now).queue == s.queue && Handle(s, m, now).dropped == s.dropped
  {
    hide SafeIdentifier; hide HexString;
  }

  lemma {:induction false} QueueStep(s: State, ev: Event)
    ensures var r := Step(s, ev);
            && (if Accepts(s, ev) then r.queue == s.queue + [ev.m]
                else if Dispatches(s, ev) then s.queue == [s.queue[0]] + r.queue
                else r.queue == s.queue)
            && r.dropped == s.dropped + if ev.Arrive? && s.running && !Accepts(s, ev) then 1 else 0
  {
    hide Handle; hide SafeIdentifier; hide HexString;
    if Dispatches(s, ev) {
      HandleQueue(s.(queue := s.queue[1..]), s.queue[0], ev.now);
    }
  }

  /** Commands run in arrival order, none is lost or duplicated once accepted, across stops and
      restarts too, and every arrival at a running rig is accepted or counted as dropped. */
  lemma {:induction false} FifoRun(address: string, evs: seq<Event>)
    ensures var s := Initial(address);
            && Accepted(s, evs) == Dispatched(s, evs) + Run(s, evs).queue
            && |Run(s, evs).queue| <= CAPACITY
            && ArrivedRunning(s, evs) == |Accepted(s, evs)| + Run(s, evs).dropped
  {
    ConsistentRun(address, evs);
    if evs != [] {
      hide Step; hide Consistent; hide Initial; hide Accepts; hide Dispatches;
      var s, init, ev := Initial(address), evs[..|evs| - 1], evs[|evs| - 1];
      var before := Run(s, init);
      FifoRun(address, init);
      QueueStep(before, ev);
      QueueBound(address, evs);
      FifoAlgebra(Dispatched(s, init), before.queue, Run(s, evs).queue,
                  if Accepts(before, ev) then [ev.m] else [],
                  if Dispatches(before, ev) then [before.queue[0]] else []);
      AcceptsArrives(before, ev);
    } else {
      assert Dispatched(Initial(address), evs) == [];
    }
  }

  lemma {:induction false} AcceptsArrives(s: State, ev: Event)
    ensures Accepts(s, ev) ==> ev.Arrive? && s.running && !Dispatches(s, ev)
  {
  }

  lemma {:induction false} QueueBound(address: string, evs: seq<Event>)
    ensures |Run(Initial(address), evs).queue| <= CAPACITY
  {
    ConsistentRun(address, evs);
  }

  lemma {:induction false} FifoAlgebra(d: seq<Message>, q: seq<Message>, q': seq<Message>,
                                       taken: seq<Message>, gone: seq<Message>)
    requires q + taken == gone + q'
    ensures d + q + taken == d + gone + q'
  {
    assert d + q + taken == d + (q + taken);
    assert d + gone + q' == d + (gone + q');
  }
}
