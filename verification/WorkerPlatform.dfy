/** The objects behind `WorkerSpec`, each method updating its fields as the code does and proved to
    take the specified step. */
module WorkerPlatform {
  import opened Identifiers
  import opened Options
  import opened WorkerSpec

  class LeaseManager {
    var current: Option<LeaseInfo>

    constructor ()
      ensures current == None
    {
      current := None;
    }

    method StartLease(leaseId: string, consumerId: string, address: string, prefix: string, duration: int, now: int)
      returns (ok: bool)
      modifies this
      ensures ok <==> old(current).None?
      ensures current == if ok then Some(LeaseInfo(leaseId, consumerId, address, prefix, duration, now, 0))
                         else old(current)
    {
      if current.Some? {
        return false;
      }
      current := Some(LeaseInfo(leaseId, consumerId, address, prefix, duration, now, 0));
      ok := true;
    }

    method End() returns (ok: bool)
      modifies this
      ensures ok <==> old(current).Some?
      ensures current == None
    {
      if current.None? {
        return false;
      }
      current := None;
      ok := true;
    }

    method RecordBlock()
      modifies this
      ensures old(current).None? ==> current == None
      ensures old(current).Some? ==>
                current == Some(old(current).value.(blocksFound := old(current).value.blocksFound + 1))
    {
      if current.Some? {
        current := Some(current.value.(blocksFound := current.value.blocksFound + 1));
      }
    }
  }

  class MiningCoordinator {
    var context: Context

    constructor ()
      ensures context == SelfMining("")
    {
      context := SelfMining("");
    }

    method UpdateContext(c: Context)
      modifies this
      ensures context == c
    {
      context := c;
    }
  }

  class PlatformManager {
    const leases: LeaseManager
    const coordinator: MiningCoordinator
    var state: PlatformState
    var running: bool
    var userAddress: string
    var queue: seq<Message>
    var dropped: nat
    var unjoined: bool
    var terminated: bool
    ghost const address: string     // the payout address at construction
    ghost var log: seq<Event>       // everything that has happened since

    ghost function View(): State reads this, leases, coordinator {
      State(state, running, leases.current, coordinator.context, userAddress, queue, dropped, unjoined, terminated)
    }

    /** The objects are where a run over everything that has happened leads. */
    ghost predicate Valid() reads this, leases, coordinator {
      View() == Run(Initial(address), log)
    }

    constructor (address: string)
      ensures Valid() && log == [] && this.address == address && fresh(leases) && fresh(coordinator)
    {
      leases := new LeaseManager();
      coordinator := new MiningCoordinator();
      state, running, userAddress, queue, dropped := IDLE, false, address, [], 0;
      unjoined, terminated := false, false;
      this.address, log := address, [];
    }

    /** What holds of the objects at any time between two events. */
    lemma Laws()
      requires Valid()
      ensures Consistent(View())
      ensures HeldMining(View()) <==> !LeftStranded(Initial(address), log)
      ensures Accepted(Initial(address), log) == Dispatched(Initial(address), log) + queue
      ensures ArrivedRunning(Initial(address), log) == |Accepted(Initial(address), log)| + dropped
      ensures leases.current.Some? ==>
                && leases.current.value.blocksFound == BlocksSinceStart(Initial(address), log)
                && AssignedBy(Dispatched(Initial(address), log), leases.current.value)
      ensures terminated <==> Restarted(Initial(address), log)
    {
      hide Run; hide Consistent; hide Initial; hide Accepted; hide Dispatched; hide HeldMining; hide LeftStranded;
      ConsistentRun(address, log);
      HeldMiningRun(address, log);
      FifoRun(address, log);
      BlocksCounted(address, log);
      LeaseProvenance(address, log);
      ShutdownRun(address, log);
    }

    // ----- What can happen to a rig

    method StartManager(connected: bool)
      requires Valid()
      modifies this`state, this`running, this`terminated, this`log
      ensures Valid() && log == old(log) + [StartUp(connected)] && Consistent(View())
      ensures View() == Start(old(View()), connected)
    {
      hide Run; hide Initial;
      RunExtends(address, log, StartUp(connected));
      log := log + [StartUp(connected)];
      if running || terminated {
        return;
      }
      if !connected {
        state := ERROR_STATE;
        return;
      }
      if unjoined {
        terminated := true;
        return;
      }
      running := true;
      state := AVAILABLE;
    }

    /** `stop`, called from outside. */
    method Halt(now: int)
      requires Valid()
      modifies this`state, this`running, this`unjoined, this`log, leases, coordinator
      ensures Valid() && log == old(log) + [StopNow(now)] && Consistent(View())
      ensures View() == Stop(old(View()), now)
    {
      hide Run; hide Initial; hide Stop;
      RunExtends(address, log, StopNow(now));
      StopManager(now, false);
      log := log + [StopNow(now)];
    }

    method EnqueueCommand(m: Message)
      requires Valid()
      modifies this`queue, this`dropped, this`log
      ensures Valid() && log == old(log) + [Arrive(m)] && Consistent(View())
      ensures View() == Enqueue(old(View()), m)
    {
      hide Run; hide Initial;
      RunExtends(address, log, Arrive(m));
      log := log + [Arrive(m)];
      var oversized := m.size > MAX_PAYLOAD;
      if !running {
        return;
      }
      if oversized || |queue| >= CAPACITY {
        dropped := dropped + 1;
        return;
      }
      queue := queue + [m];
    }

    /** One round of `dispatchLoop` that does not have to wait. */
    method DispatchNext(now: int)
      requires Valid()
      modifies this, leases, coordinator
      ensures Valid() && log == old(log) + [DispatchOne(now)] && Consistent(View())
      ensures View() == Dispatch(old(View()), now)
    {
      hide Run; hide Initial; hide Handle;
      RunExtends(address, log, DispatchOne(now));
      if running && queue != [] {
        var m := queue[0];
        queue := queue[1..];
        OnMessage(m, now);
      }
      log := log + [DispatchOne(now)];
    }

    /** One round of `leaseWatchdogLoop`. */
    method WatchdogTick(now: int, connected: bool)
      requires Valid()
      modifies this`state, this`log, leases, coordinator
      ensures Valid() && log == old(log) + [Tick(now, connected)] && Consistent(View())
      ensures View() == Watchdog(old(View()), now, connected)
    {
      hide Run; hide Initial;
      RunExtends(address, log, Tick(now, connected));
      log := log + [Tick(now, connected)];
      if !running {
        return;
      }
      if state == MINING && Expired(leases.current, now) {
        state := COMPLETED;
        var _ := leases.End();
        SwitchToSelfMining();
        state := AVAILABLE;
      }
      if state == ERROR_STATE {
        state := IDLE;
        if connected {
          state := AVAILABLE;
        }
      }
    }

    method OnBlockFound()
      requires Valid()
      modifies this`log, leases
      ensures Valid() && log == old(log) + [Block] && Consistent(View())
      ensures View() == BlockFound(old(View()))
    {
      hide Run; hide Initial;
      RunExtends(address, log, Block);
      log := log + [Block];
      if state == MINING {
        if leases.current.None? {
          return;
        }
        leases.RecordBlock();
      }
    }

    // ----- Handlers, which run inside `DispatchNext`

    method SwitchToSelfMining()
      modifies coordinator
      ensures coordinator.context == SelfMining(userAddress)
    {
      coordinator.UpdateContext(SelfMining(userAddress));
    }

    method OnRegisterAck(accepted: bool)
      modifies this`state
      ensures View() == HandleRegisterAck(old(View()), accepted)
    {
      if accepted {
        if state != AVAILABLE {
          state := AVAILABLE;
        }
      } else {
        state := ERROR_STATE;
      }
    }

    method OnAssignTask(c: Command, now: int)
      requires c.AssignTask?
      modifies this`state, leases, coordinator
      ensures View() == HandleAssignTask(old(View()), c, now)
    {
      hide SafeIdentifier; hide HexString;
      if state != AVAILABLE {
        return;
      }
      if !ShortId(c.leaseId) || !ShortId(c.consumerId) {
        return;
      }
      if !c.addressOk {
        return;
      }
      if c.prefix != "" && !HexString(c.prefix, PREFIX_LENGTH, PREFIX_LENGTH) {
        return;
      }
      if c.duration < 60 || c.duration > 604800 {
        return;
      }
      state := LEASED;
      var ok := leases.StartLease(c.leaseId, c.consumerId, c.address, c.prefix, c.duration, now);
      if !ok {
        state := ERROR_STATE;
        return;
      }
      coordinator.UpdateContext(ContextOf(leases.current, userAddress));
      state := MINING;
    }

    method OnRelease(leaseId: string)
      modifies this`state, leases, coordinator
      ensures View() == HandleRelease(old(View()), leaseId)
    {
      hide SafeIdentifier;
      if leaseId != "" && !ShortId(leaseId) {
        return;
      }
      if leases.current.None? {
        return;
      }
      if leaseId != "" && leases.current.value.leaseId != leaseId {
        return;
      }
      state := COMPLETED;
      var _ := leases.End();
      SwitchToSelfMining();
      state := AVAILABLE;
    }

    method OnPause(now: int)
      modifies this`state, leases, coordinator
      ensures View() == HandlePause(old(View()), now)
    {
      if HasActiveLease(leases.current, now) {
        var _ := leases.End();
        SwitchToSelfMining();
      }
      state := IDLE;
    }

    /** `stop`; on the dispatch thread itself, that thread is left to the destructor. */
    method StopManager(now: int, onDispatchThread: bool)
      modifies this`state, this`running, this`unjoined, leases, coordinator
      ensures View() == if onDispatchThread then RemoteStop(old(View()), now) else Stop(old(View()), now)
    {
      if !running {
        return;
      }
      running := false;
      if HasActiveLease(leases.current, now) {
        var _ := leases.End();
        SwitchToSelfMining();
      }
      if onDispatchThread {
        unjoined := true;
      }
      state := IDLE;
    }

    /** `onMessage`: authorise, then dispatch to the handler. */
    method OnMessage(m: Message, now: int)
      modifies this`state, this`running, this`userAddress, this`unjoined, leases, coordinator
      ensures View() == Handle(old(View()), m, now)
    {
      hide SafeIdentifier; hide HexString; hide HandleAssignTask; hide HandleRelease; hide HandlePause; hide RemoteStop;
      if !m.authorized {
        return;
      }
      match m.command {
        case RegisterAck(accepted) => OnRegisterAck(accepted);
        case AssignTask(_, _, _, _, _, _) => OnAssignTask(m.command, now);
        case Release(leaseId) => OnRelease(leaseId);
        case Pause => OnPause(now);
        case Resume =>
          if state == IDLE {
            state := AVAILABLE;
          }
        case Shutdown => StopManager(now, true);
        case SetAddress(address, ok) =>
          if ok {
            userAddress := address;
          }
        case Unknown =>
      }
    }
  }
}
