/** Concurrent close, shutdown, connect and manager calls on one client (src/client.rs). Each step lies
    between two lock operations; a slot that is only read or taken is touched in one step. */
module ClientLifecycle {
  import opened Wrappers

  /** Where `Client::close` stands, and `Client::shutdown` around it, with the sessions in hand. A shutdown
      first waits for a flush; dropped there, it has closed nothing. */
  datatype Closing =
    | SetFlag | ReadManager | CloseManager(manager: Option<nat>) | ReadMonitor | CloseMonitor(monitor: Option<nat>)
    | Drain | RemoveDrained(drained: nat) | TakeDrainedManager | CloseDrainedManager(manager: Option<nat>)
    | TakeLastManager | CloseLastManager(manager: Option<nat>) | Closed | Dropped

  /** Where `Client::connect` stands with the monitor it found or built. */
  datatype Connecting =
    | CheckOpen | ReadReady | TakeMonitor | TakeStaleManager(monitor: nat)
    | CloseStaleManager(monitor: nat, manager: Option<nat>) | CloseStale(monitor: nat)
    | SpawnMonitor | InstallMonitor(monitor: nat) | SetMonitor(monitor: nat) | CloseRefused(monitor: nat)
    | AwaitReady(monitor: nat) | TakeFailedManager(monitor: nat)
    | CloseFailedManager(monitor: nat, manager: Option<nat>) | RemoveFailed(monitor: nat)
    | TakeRemovedManager(monitor: nat) | CloseRemovedManager(monitor: nat, manager: Option<nat>)
    | CloseFailed(monitor: nat) | Connected

  /** Where `manager_for_monitor` stands. */
  datatype Managing =
    | LookManager | BuildManager | InstallManager(manager: nat) | SetManager(manager: nat)
    | DisposeManager(manager: nat) | CloseReplaced(replaced: Option<nat>) | Managed

  datatype Call = Close(shutdown: bool, closing: Closing) | Connect(connecting: Connecting) | Manage(managing: Managing)

  /** A slot's lock, with whether its holder is about to fill the slot. */
  datatype Lock = Free | Held(holder: nat, filling: bool)

  /** What the calls share: the flag, the two slots, the locks, and which sessions are open. */
  datatype Shared = Shared(
    closed: bool,
    monitorSlot: Option<nat>,
    managerSlot: Option<nat>,
    monitorLock: Lock,
    managerLock: Lock,
    lifecycle: Option<nat>,
    openMonitors: set<nat>,
    openManagers: set<nat>,
    monitors: nat,
    managers: nat)

  datatype State = State(shared: Shared, calls: map<nat, Call>)

  predicate Init(s: State) {
    s == State(Shared(false, None, None, Free, Free, None, {}, {}, 0, 0), map[])
  }

  /** How a wait inside a step came out; a cancelled call is dropped where it waits. */
  datatype Outcome = Success | Failure | Cancelled

  datatype Step = Blocked | Moved(shared: Shared, call: Call)

  function Minus(open: set<nat>, x: Option<nat>): (r: set<nat>) {
    if x.Some? then open - {x.value} else open
  }

  function Unlock(lock: Option<nat>, id: nat): (r: Option<nat>) {
    if lock == Some(id) then None else lock
  }

  /** A new call; connect and shutdown first take the lifecycle lock. */
  function Begin(s: Shared, id: nat, c: Call): (t: Step) {
    if c == Close(false, SetFlag) || c == Manage(LookManager) then Moved(s, c)
    else if (c == Close(true, SetFlag) || c == Connect(CheckOpen)) && s.lifecycle == None
    then Moved(s.(lifecycle := Some(id)), c)
    else Blocked
  }

  function CloseStep(s: Shared, id: nat, sd: bool, c: Closing, o: Outcome): (t: Step) {
    match c
    case SetFlag =>
      if sd && o == Cancelled then Moved(s.(lifecycle := Unlock(s.lifecycle, id)), Close(sd, Dropped))
      else Moved(s.(closed := true), Close(sd, ReadManager))
    case ReadManager => if s.managerLock == Free then Moved(s, Close(sd, CloseManager(s.managerSlot))) else Blocked
    case CloseManager(g) => Moved(s.(openManagers := Minus(s.openManagers, g)), Close(sd, ReadMonitor))
    case ReadMonitor => if s.monitorLock == Free then Moved(s, Close(sd, CloseMonitor(s.monitorSlot))) else Blocked
    case CloseMonitor(m) =>
      Moved(s.(openMonitors := Minus(s.openMonitors, m)), Close(sd, if sd then Drain else Closed))
    case Drain =>
      if o == Cancelled then Moved(s.(lifecycle := Unlock(s.lifecycle, id)), Close(sd, Closed))
      else if s.monitorLock != Free then Blocked
      else Moved(s, Close(sd, if s.monitorSlot.Some? then RemoveDrained(s.monitorSlot.value) else TakeLastManager))
    case RemoveDrained(m) =>
      if o == Cancelled then Moved(s.(lifecycle := Unlock(s.lifecycle, id)), Close(sd, Closed))
      else if s.monitorLock != Free then Blocked
      else if s.monitorSlot != Some(m) then Moved(s, Close(sd, TakeLastManager))
      else Moved(s.(monitorSlot := None, monitorLock := Held(id, false)), Close(sd, TakeDrainedManager))
    case TakeDrainedManager =>
      if s.managerLock == Free then Moved(s.(managerSlot := None), Close(sd, CloseDrainedManager(s.managerSlot)))
      else Blocked
    case CloseDrainedManager(g) =>
      Moved(s.(openManagers := Minus(s.openManagers, g), monitorLock := Free), Close(sd, TakeLastManager))
    case TakeLastManager =>
      if s.managerLock == Free then Moved(s.(managerSlot := None), Close(sd, CloseLastManager(s.managerSlot)))
      else Blocked
    case CloseLastManager(g) =>
      Moved(s.(openManagers := Minus(s.openManagers, g), lifecycle := Unlock(s.lifecycle, id)), Close(sd, Closed))
    case Closed => Blocked
    case Dropped => Blocked
  }

  function ConnectStep(s: Shared, id: nat, c: Connecting, o: Outcome): (t: Step) {
    match c
    case CheckOpen =>
      if s.closed then Moved(s.(lifecycle := Unlock(s.lifecycle, id)), Connect(Connected))
      else Moved(s, Connect(ReadReady))
    case ReadReady =>
      if s.monitorLock != Free then Blocked
      else if s.monitorSlot.Some? && o == Success
      then Moved(s.(lifecycle := Unlock(s.lifecycle, id)), Connect(Connected))
      else Moved(s, Connect(TakeMonitor))
    case TakeMonitor =>
      if s.monitorLock != Free then Blocked
      else Moved(s.(monitorSlot := None),
                 Connect(if s.monitorSlot.Some? then TakeStaleManager(s.monitorSlot.value) else SpawnMonitor))
    case TakeStaleManager(m) =>
      if s.managerLock == Free then Moved(s.(managerSlot := None), Connect(CloseStaleManager(m, s.managerSlot)))
      else Blocked
    case CloseStaleManager(m, g) => Moved(s.(openManagers := Minus(s.openManagers, g)), Connect(CloseStale(m)))
    case CloseStale(m) => Moved(s.(openMonitors := s.openMonitors - {m}), Connect(SpawnMonitor))
    case SpawnMonitor =>
      if o != Success then Moved(s.(lifecycle := Unlock(s.lifecycle, id)), Connect(Connected))
      else Moved(s.(openMonitors := s.openMonitors + {s.monitors}, monitors := s.monitors + 1),
          Connect(InstallMonitor(s.monitors)))
    case InstallMonitor(m) =>
      if s.monitorLock != Free then Blocked
      else if s.closed then Moved(s, Connect(CloseRefused(m)))
      else Moved(s.(monitorLock := Held(id, true)), Connect(SetMonitor(m)))
    case SetMonitor(m) => Moved(s.(monitorSlot := Some(m), monitorLock := Free), Connect(AwaitReady(m)))
    case CloseRefused(m) =>
      Moved(s.(openMonitors := s.openMonitors - {m}, lifecycle := Unlock(s.lifecycle, id)), Connect(Connected))
    case AwaitReady(m) =>
      if o == Cancelled || (o == Success && !s.closed)
      then Moved(s.(lifecycle := Unlock(s.lifecycle, id)), Connect(Connected))
      else Moved(s, Connect(TakeFailedManager(m)))
    case TakeFailedManager(m) =>
      if s.managerLock == Free then Moved(s.(managerSlot := None), Connect(CloseFailedManager(m, s.managerSlot)))
      else Blocked
    case CloseFailedManager(m, g) => Moved(s.(openManagers := Minus(s.openManagers, g)), Connect(RemoveFailed(m)))
    case RemoveFailed(m) =>
      if s.monitorLock != Free then Blocked
      else if s.monitorSlot != Some(m) then Moved(s, Connect(CloseFailed(m)))
      else Moved(s.(monitorSlot := None, monitorLock := Held(id, false)), Connect(TakeRemovedManager(m)))
    case TakeRemovedManager(m) =>
      if s.managerLock == Free then Moved(s.(managerSlot := None), Connect(CloseRemovedManager(m, s.managerSlot)))
      else Blocked
    case CloseRemovedManager(m, g) =>
      Moved(s.(openManagers := Minus(s.openManagers, g), monitorLock := Free), Connect(CloseFailed(m)))
    case CloseFailed(m) =>
      Moved(s.(openMonitors := s.openMonitors - {m}, lifecycle := Unlock(s.lifecycle, id)), Connect(Connected))
    case Connected => Blocked
  }

  /** The manager that was read may be closed before it is tested, after the slot's lock is released; `o` says
      whether it was. */
  function ManageStep(s: Shared, id: nat, c: Managing, o: Outcome): (t: Step) {
    match c
    case LookManager =>
      if s.managerLock != Free then Blocked
      else if s.managerSlot.Some? && s.managerSlot.value in s.openManagers && o == Success
      then Moved(s, Manage(Managed))
      else Moved(s, Manage(BuildManager))
    case BuildManager =>
      if o != Success then Moved(s, Manage(Managed))
      else Moved(s.(openManagers := s.openManagers + {s.managers}, managers := s.managers + 1),
          Manage(InstallManager(s.managers)))
    case InstallManager(g) =>
      if s.managerLock != Free then Blocked
      else if s.closed then Moved(s, Manage(DisposeManager(g)))
      else Moved(s.(managerLock := Held(id, true)), Manage(SetManager(g)))
    case SetManager(g) =>
      if s.managerSlot.Some? && s.managerSlot.value in s.openManagers
      then Moved(s.(managerLock := Free), Manage(DisposeManager(g)))
      else Moved(s.(managerSlot := Some(g), managerLock := Free), Manage(CloseReplaced(s.managerSlot)))
    case DisposeManager(g) => Moved(s.(openManagers := s.openManagers - {g}), Manage(Managed))
    case CloseReplaced(x) => Moved(s.(openManagers := Minus(s.openManagers, x)), Manage(Managed))
    case Managed => Blocked
  }

  datatype Action = Start(id: nat, call: Call) | Continue(id: nat, outcome: Outcome)

  function Advance(s: Shared, id: nat, c: Call, o: Outcome): (t: Step) {
    match c
    case Close(sd, k) => CloseStep(s, id, sd, k, o)
    case Connect(k) => ConnectStep(s, id, k, o)
    case Manage(k) => ManageStep(s, id, k, o)
  }

  function Next(s: State, a: Action): (t: Option<State>) {
    if (a.id in s.calls) == a.Start? then None
    else
      var step := if a.Start? then Begin(s.shared, a.id, a.call) else Advance(s.shared, a.id, s.calls[a.id], a.outcome);
      if step == Blocked then None else Some(State(step.shared, s.calls[a.id := step.call]))
  }

  // --- who holds what

  /** The manager a call will install or close. */
  function ManagerInHand(c: Call): (g: Option<nat>) {
    match c
    case Close(_, k) =>
      if k.CloseManager? || k.CloseDrainedManager? || k.CloseLastManager? then k.manager else None
    case Connect(k) =>
      if k.CloseStaleManager? || k.CloseFailedManager? || k.CloseRemovedManager? then k.manager else None
    case Manage(k) =>
      if k.InstallManager? || k.SetManager? || k.DisposeManager? then Some(k.manager)
      else if k.CloseReplaced? then k.replaced else None
  }

  /** The monitor a call will install or close. */
  function MonitorInHand(c: Call): (m: Option<nat>) {
    match c
    case Close(_, k) => if k.CloseMonitor? then k.monitor else None
    case Connect(k) =>
      if k.CheckOpen? || k.ReadReady? || k.TakeMonitor? || k.SpawnMonitor? || k.AwaitReady? || k.Connected?
      then None
      else Some(k.monitor)
    case Manage(_) => None
  }

  predicate Ended(c: Call) {
    c == Connect(Connected) || c == Manage(Managed) || (c.Close? && (c.closing == Closed || c.closing == Dropped))
  }

  predicate HasManagerLock(c: Call) {
    c.Manage? && c.managing.SetManager?
  }

  predicate HasLifecycle(c: Call) {
    (c.Connect? && c.connecting != Connected) || (c.Close? && c.shutdown && !Ended(c))
  }

  predicate Setting(c: Call) {
    c.Connect? && c.connecting.SetMonitor?
  }

  predicate HasMonitorLock(c: Call) {
    match c
    case Close(_, k) => k.TakeDrainedManager? || k.CloseDrainedManager?
    case Connect(k) => k.SetMonitor? || k.TakeRemovedManager? || k.CloseRemovedManager?
    case Manage(_) => false
  }

  /** Between emptying the monitor slot and filling it. */
  predicate SlotEmptied(c: Call) {
    c.Connect? &&
    var k := c.connecting;
    k.TakeStaleManager? || k.CloseStaleManager? || k.CloseStale? || k.SpawnMonitor? || k.InstallMonitor?
      || k.SetMonitor?
  }

  /** How far `close` has come: 1 the flag is set, 2 the manager slot is read, 3 its manager is closed,
      4 the monitor slot is read, 5 its monitor is closed. */
  function Stage(c: Call): (n: nat) {
    if !c.Close? then 0
    else
      match c.closing
      case SetFlag => 0
      case Dropped => 0
      case ReadManager => 1
      case CloseManager(_) => 2
      case ReadMonitor => 3
      case CloseMonitor(_) => 4
      case _ => 5
  }

  // --- the invariant

  predicate SlotShut(slot: Option<nat>, open: set<nat>) {
    slot.Some? ==> slot.value !in open
  }

  predicate Below(x: Option<nat>, n: nat) {
    x.Some? ==> x.value < n
  }

  /** A closing call has secured its slot: it is not about to be filled, and holds nothing open or,
      while the call is about to close it, what the call read. */
  predicate Secured(lock: Lock, slot: Option<nat>, open: set<nat>, inHand: Option<Option<nat>>) {
    && (lock.Held? ==> !lock.filling)
    && (SlotShut(slot, open) || inHand == Some(slot))
  }

  function Hand(k: Closing): (r: Option<Option<nat>>) {
    if k.CloseManager? then Some(k.manager) else if k.CloseMonitor? then Some(k.monitor) else None
  }

  predicate CloseOk(s: Shared, c: Call) {
    && (Stage(c) >= 1 ==> s.closed)
    && (Stage(c) >= 2 ==>
      Secured(s.managerLock, s.managerSlot, s.openManagers, if Stage(c) == 2 then Hand(c.closing) else None))
    && (Stage(c) >= 4 ==>
      Secured(s.monitorLock, s.monitorSlot, s.openMonitors, if Stage(c) == 4 then Hand(c.closing) else None))
  }

  predicate LocksOk(s: Shared, id: nat, c: Call) {
    && (HasManagerLock(c) <==> s.managerLock.Held? && s.managerLock.holder == id)
    && (HasMonitorLock(c) <==> s.monitorLock.Held? && s.monitorLock.holder == id)
    && (HasMonitorLock(c) ==> s.monitorLock.filling == Setting(c))
    && (HasLifecycle(c) <==> s.lifecycle == Some(id))
    && (SlotEmptied(c) ==> s.monitorSlot == None)
  }

  predicate HandsOk(s: Shared, c: Call) {
    && Below(ManagerInHand(c), s.managers) && Below(MonitorInHand(c), s.monitors)
    && (c.Connect? && c.connecting.AwaitReady? ==> c.connecting.monitor < s.monitors)
  }

  /** What a call relies on: its locks, what it holds, and, for a closing call, what it has secured. */
  predicate CallOk(s: Shared, id: nat, c: Call) {
    LocksOk(s, id, c) && HandsOk(s, c) && CloseOk(s, c)
  }

  /** Every call is in order, and the locks are in the hands of calls. */
  ghost predicate CallsOk(s: State) {
    && (forall id :: id in s.calls ==> CallOk(s.shared, id, s.calls[id]))
    && (forall id :: id !in s.calls ==> NoLocks(s.shared, id))
  }

  predicate NoLocks(s: Shared, id: nat) {
    && (s.managerLock.Held? ==> s.managerLock.holder != id)
    && (s.monitorLock.Held? ==> s.monitorLock.holder != id)
    && s.lifecycle != Some(id)
  }

  ghost predicate Numbered(s: Shared) {
    && (forall g :: g in s.openManagers ==> g < s.managers)
    && (forall m :: m in s.openMonitors ==> m < s.monitors)
    && Below(s.managerSlot, s.managers) && Below(s.monitorSlot, s.monitors)
    && (s.managerLock.Held? ==> s.managerLock.filling)
  }

  /** No manager is lost: an open one is in the slot or in the hands of a call that will dispose of it. */
  ghost predicate ManagersKept(s: State) {
    forall g :: g in s.shared.openManagers ==>
      s.shared.managerSlot == Some(g) || exists id :: id in s.calls && ManagerInHand(s.calls[id]) == Some(g)
  }

  ghost predicate MonitorsKept(s: State) {
    forall m :: m in s.shared.openMonitors ==>
      s.shared.monitorSlot == Some(m) || exists id :: id in s.calls && MonitorInHand(s.calls[id]) == Some(m)
  }

  ghost predicate Inv(s: State) {
    CallsOk(s) && Numbered(s.shared) && ManagersKept(s) && MonitorsKept(s)
  }

  // --- what one step may do

  /** A lock is taken when free and released by its holder; once closed, it is not taken to fill. */
  predicate LockMoves(before: Lock, after: Lock, id: nat, closed: bool) {
    || after == before
    || (before == Free && after.Held? && after.holder == id && !(closed && after.filling))
    || (before.Held? && before.holder == id && after == Free)
  }

  /** A slot changes by being emptied, or by the holder of its lock filling it. */
  predicate SlotMoves(before: Option<nat>, after: Option<nat>, lock: Lock, id: nat) {
    after == before || after == None || lock == Held(id, true)
  }

  predicate OpenMoves(before: set<nat>, after: set<nat>, n: nat, m: nat) {
    n <= m && (after <= before || (after == before + {n} && n < m))
  }

  /** The part of a step that other calls can notice. */
  predicate Effect(s: Shared, t: Shared, id: nat) {
    && LockMoves(s.managerLock, t.managerLock, id, s.closed)
    && LockMoves(s.monitorLock, t.monitorLock, id, s.closed)
    && (|| t.lifecycle == s.lifecycle
        || (s.lifecycle == None && t.lifecycle == Some(id))
        || (s.lifecycle == Some(id) && t.lifecycle == None))
    && (s.closed ==> t.closed)
    && SlotMoves(s.managerSlot, t.managerSlot, s.managerLock, id)
    && SlotMoves(s.monitorSlot, t.monitorSlot, s.monitorLock, id)
    && (t.monitorSlot == s.monitorSlot || t.monitorSlot == None || s.lifecycle == Some(id))
    && OpenMoves(s.openManagers, t.openManagers, s.managers, t.managers)
    && OpenMoves(s.openMonitors, t.openMonitors, s.monitors, t.monitors)
  }

  /** A session that was in the slot, in the caller's hand or is new stays in the slot or in its hand. */
  predicate Passes(open: set<nat>, slot: Option<nat>, hand: Option<nat>,
                   openAfter: set<nat>, slotAfter: Option<nat>, handAfter: Option<nat>, x: nat)
  {
    x in openAfter && (x !in open || slot == Some(x) || hand == Some(x)) ==>
      slotAfter == Some(x) || handAfter == Some(x)
  }

  predicate ManagerPasses(s: Shared, t: Shared, before: Option<Call>, c: Call, g: nat) {
    Passes(s.openManagers, s.managerSlot, if before.Some? then ManagerInHand(before.value) else None,
           t.openManagers, t.managerSlot, ManagerInHand(c), g)
  }

  predicate MonitorPasses(s: Shared, t: Shared, before: Option<Call>, c: Call, m: nat) {
    Passes(s.openMonitors, s.monitorSlot, if before.Some? then MonitorInHand(before.value) else None,
           t.openMonitors, t.monitorSlot, MonitorInHand(c), m)
  }

  lemma OthersKeep(s: Shared, t: Shared, id: nat, j: nat, d: Call)
    requires Effect(s, t, id) && Numbered(s) && j != id && CallOk(s, j, d)
    ensures CallOk(t, j, d)
  {
    assert LocksOk(t, j, d) by { hide CloseOk, HandsOk; }
    assert HandsOk(t, d) by { hide CloseOk, LocksOk; }
    assert CloseOk(t, d) by { hide HandsOk, LocksOk, Hand, Stage; }
  }

  ghost predicate GoodStep(s: Shared, t: Step, id: nat) {
    t.Moved? && Effect(s, t.shared, id) && Numbered(t.shared) && CallOk(t.shared, id, t.call)
  }

  lemma BeginIsGood(s: Shared, id: nat, c: Call)
    requires Numbered(s) && NoLocks(s, id) && Begin(s, id, c).Moved?
    ensures GoodStep(s, Begin(s, id, c), id)
  {}

  lemma CloseIsGood(s: Shared, id: nat, sd: bool, k: Closing, o: Outcome)
    requires Numbered(s) && CallOk(s, id, Close(sd, k)) && CloseStep(s, id, sd, k, o).Moved?
    ensures GoodStep(s, CloseStep(s, id, sd, k, o), id)
  {}

  lemma ConnectEffect(s: Shared, id: nat, k: Connecting, o: Outcome)
    requires Numbered(s) && CallOk(s, id, Connect(k)) && ConnectStep(s, id, k, o).Moved?
    ensures var t := ConnectStep(s, id, k, o); Effect(s, t.shared, id) && Numbered(t.shared)
  {
    hide CloseOk;
  }

  lemma ConnectLocks(s: Shared, id: nat, k: Connecting, o: Outcome)
    requires LocksOk(s, id, Connect(k)) && ConnectStep(s, id, k, o).Moved?
    ensures var t := ConnectStep(s, id, k, o); LocksOk(t.shared, id, t.call)
  {
  }

  lemma ConnectHands(s: Shared, id: nat, k: Connecting, o: Outcome)
    requires Numbered(s) && HandsOk(s, Connect(k)) && ConnectStep(s, id, k, o).Moved?
    ensures var t := ConnectStep(s, id, k, o); HandsOk(t.shared, t.call) && CloseOk(t.shared, t.call)
  {
    hide Secured;
  }

  lemma ConnectIsGood(s: Shared, id: nat, k: Connecting, o: Outcome)
    requires Numbered(s) && CallOk(s, id, Connect(k)) && ConnectStep(s, id, k, o).Moved?
    ensures GoodStep(s, ConnectStep(s, id, k, o), id)
  {
    hide Effect, Numbered, LocksOk, HandsOk, CloseOk, ConnectStep;
    ConnectEffect(s, id, k, o);
    ConnectLocks(s, id, k, o);
    ConnectHands(s, id, k, o);
  }

  lemma ManageIsGood(s: Shared, id: nat, k: Managing, o: Outcome)
    requires Numbered(s) && CallOk(s, id, Manage(k)) && ManageStep(s, id, k, o).Moved?
    ensures GoodStep(s, ManageStep(s, id, k, o), id)
  {}

  lemma AdvanceIsGood(s: Shared, id: nat, c: Call, o: Outcome)
    requires Numbered(s) && CallOk(s, id, c) && Advance(s, id, c, o).Moved?
    ensures GoodStep(s, Advance(s, id, c, o), id)
  {
    hide Numbered, CallOk, GoodStep, CloseStep, ConnectStep, ManageStep;
    match c
    case Close(sd, k) => CloseIsGood(s, id, sd, k, o);
    case Connect(k) => ConnectIsGood(s, id, k, o);
    case Manage(k) => ManageIsGood(s, id, k, o);
  }

  ghost predicate PassesAll(s: Shared, t: Step, before: Option<Call>) {
    && t.Moved?
    && (forall x :: ManagerPasses(s, t.shared, before, t.call, x))
    && (forall x :: MonitorPasses(s, t.shared, before, t.call, x))
  }

  lemma ClosePasses(s: Shared, id: nat, sd: bool, k: Closing, o: Outcome)
    requires CallOk(s, id, Close(sd, k)) && CloseStep(s, id, sd, k, o).Moved?
    ensures PassesAll(s, CloseStep(s, id, sd, k, o), Some(Close(sd, k)))
  {}

  lemma ConnectPasses(s: Shared, id: nat, k: Connecting, o: Outcome)
    requires CallOk(s, id, Connect(k)) && ConnectStep(s, id, k, o).Moved?
    ensures PassesAll(s, ConnectStep(s, id, k, o), Some(Connect(k)))
  {}

  lemma ManagePasses(s: Shared, id: nat, k: Managing, o: Outcome)
    requires CallOk(s, id, Manage(k)) && ManageStep(s, id, k, o).Moved?
    ensures PassesAll(s, ManageStep(s, id, k, o), Some(Manage(k)))
  {}

  lemma BeginPasses(s: Shared, id: nat, c: Call)
    requires Begin(s, id, c).Moved?
    ensures PassesAll(s, Begin(s, id, c), None)
  {}

  lemma AdvancePasses(s: Shared, id: nat, c: Call, o: Outcome)
    requires CallOk(s, id, c) && Advance(s, id, c, o).Moved?
    ensures PassesAll(s, Advance(s, id, c, o), Some(c))
  {
    hide CallOk, PassesAll, CloseStep, ConnectStep, ManageStep;
    match c
    case Close(sd, k) => ClosePasses(s, id, sd, k, o);
    case Connect(k) => ConnectPasses(s, id, k, o);
    case Manage(k) => ManagePasses(s, id, k, o);
  }

  // --- every step keeps the invariant

  function After(s: State, id: nat, t: Step): (r: State)
    requires t.Moved?
  {
    State(t.shared, s.calls[id := t.call])
  }

  function Before(s: State, id: nat): (c: Option<Call>) {
    if id in s.calls then Some(s.calls[id]) else None
  }

  lemma CallsKeep(s: State, id: nat, t: Step)
    requires CallsOk(s) && Numbered(s.shared) && GoodStep(s.shared, t, id)
    ensures CallsOk(After(s, id, t)) && Numbered(t.shared)
  {
    hide CallOk, Numbered;
    var r := After(s, id, t);
    forall j | j in r.calls ensures CallOk(r.shared, j, r.calls[j]) {
      if j != id {
        OthersKeep(s.shared, t.shared, id, j, s.calls[j]);
      }
    }
  }

  lemma SessionsKept(s: State, id: nat, t: Step)
    requires ManagersKept(s) && MonitorsKept(s) && PassesAll(s.shared, t, Before(s, id))
    ensures ManagersKept(After(s, id, t)) && MonitorsKept(After(s, id, t))
  {
    hide ManagerInHand, MonitorInHand;
    var r := After(s, id, t);
    assert r.calls[id] == t.call;
    forall g | g in r.shared.openManagers
      ensures r.shared.managerSlot == Some(g) || exists j :: j in r.calls && ManagerInHand(r.calls[j]) == Some(g)
    {
      assert ManagerPasses(s.shared, t.shared, Before(s, id), t.call, g);
      if g in s.shared.openManagers && s.shared.managerSlot != Some(g) {
        var j :| j in s.calls && ManagerInHand(s.calls[j]) == Some(g);
        assert j in r.calls && r.calls[j] == if j == id then t.call else s.calls[j];
      }
    }
    forall m | m in r.shared.openMonitors
      ensures r.shared.monitorSlot == Some(m) || exists j :: j in r.calls && MonitorInHand(r.calls[j]) == Some(m)
    {
      assert MonitorPasses(s.shared, t.shared, Before(s, id), t.call, m);
      if m in s.shared.openMonitors && s.shared.monitorSlot != Some(m) {
        var j :| j in s.calls && MonitorInHand(s.calls[j]) == Some(m);
        assert j in r.calls && r.calls[j] == if j == id then t.call else s.calls[j];
      }
    }
  }

  lemma NextKeeps(s: State, a: Action)
    requires Inv(s) && Next(s, a).Some?
    ensures Inv(Next(s, a).value)
  {
    hide CallOk, Numbered, ManagersKept, MonitorsKept, GoodStep, PassesAll, Begin, Advance, NoLocks;
    if a.Start? {
      BeginIsGood(s.shared, a.id, a.call);
      BeginPasses(s.shared, a.id, a.call);
      CallsKeep(s, a.id, Begin(s.shared, a.id, a.call));
      SessionsKept(s, a.id, Begin(s.shared, a.id, a.call));
    } else {
      var c := s.calls[a.id];
      AdvanceIsGood(s.shared, a.id, c, a.outcome);
      AdvancePasses(s.shared, a.id, c, a.outcome);
      CallsKeep(s, a.id, Advance(s.shared, a.id, c, a.outcome));
      SessionsKept(s, a.id, Advance(s.shared, a.id, c, a.outcome));
    }
  }

  // --- whole runs

  ghost predicate IsRun(run: seq<State>, actions: seq<Action>) {
    && |run| == |actions| + 1 && Init(run[0])
    && (forall i :: 0 <= i < |actions| ==> Next(run[i], actions[i]) == Some(run[i + 1]))
  }

  lemma InitKeeps(s: State)
    requires Init(s)
    ensures Inv(s)
  {
  }

  lemma {:induction false} RunKeeps(run: seq<State>, actions: seq<Action>, k: nat)
    requires IsRun(run, actions) && k < |run|
    ensures Inv(run[k])
  {
    hide Inv, Next, Init;
    if k == 0 {
      InitKeeps(run[0]);
    } else {
      RunKeeps(run, actions, k - 1);
      assert Next(run[k - 1], actions[k - 1]) == Some(run[k]);
      NextKeeps(run[k - 1], actions[k - 1]);
    }
  }

  predicate HasReturned(s: State, id: nat) {
    id in s.calls && s.calls[id].Close? && s.calls[id].closing == Closed
  }

  lemma {:induction false} ReturnedStays(run: seq<State>, actions: seq<Action>, j: nat, k: nat, id: nat)
    requires IsRun(run, actions) && j <= k < |run| && HasReturned(run[j], id)
    ensures HasReturned(run[k], id)
  {
    if j == k {
    } else {
      ReturnedStays(run, actions, j, k - 1, id);
      assert Next(run[k - 1], actions[k - 1]) == Some(run[k]);
    }
  }

  /** In every interleaving, once a close has returned neither slot ever holds an open session. */
  lemma ClosedForGood(run: seq<State>, actions: seq<Action>, j: nat, k: nat, id: nat)
    requires IsRun(run, actions) && j <= k < |run| && HasReturned(run[j], id)
    ensures var s := run[k].shared; SlotShut(s.managerSlot, s.openManagers) && SlotShut(s.monitorSlot, s.openMonitors)
  {
    ReturnedStays(run, actions, j, k, id);
    RunKeeps(run, actions, k);
    assert CallOk(run[k].shared, id, run[k].calls[id]);
  }

  /** In every interleaving, every open session is in its slot or in the hands of a call that will
      install or close it. */
  lemma NoSessionLost(run: seq<State>, actions: seq<Action>, k: nat)
    requires IsRun(run, actions) && k < |run|
    ensures ManagersKept(run[k]) && MonitorsKept(run[k])
  {
    RunKeeps(run, actions, k);
  }

  /** Once a close has been called, or a shutdown that was not dropped in its flush, and every call has
      ended, everything ever built is closed. */
  lemma NothingLeftOpen(run: seq<State>, actions: seq<Action>, k: nat, id: nat)
    requires IsRun(run, actions) && k < |run|
    requires id in run[k].calls && run[k].calls[id].Close? && run[k].calls[id].closing != Dropped
    requires forall j :: j in run[k].calls ==> Ended(run[k].calls[j])
    ensures run[k].shared.openManagers == {} && run[k].shared.openMonitors == {}
  {
    ClosedForGood(run, actions, k, k, id);
    NoSessionLost(run, actions, k);
    var s := run[k];
    assert forall j :: j in s.calls ==> ManagerInHand(s.calls[j]) == None && MonitorInHand(s.calls[j]) == None;
  }

  lemma FlagStep(s: Shared, id: nat, c: Call, o: Outcome)
    requires Advance(s, id, c, o).Moved?
    ensures var t := Advance(s, id, c, o);
            && (Stage(c) >= 1 ==> Stage(t.call) >= 1)
            && (s.closed ==> t.shared.closed)
            && (Stage(c) == 0 ==> (t.shared.closed <==> s.closed || Stage(t.call) >= 1))
            && (Stage(c) >= 1 ==> t.shared.closed == s.closed)
  {
  }

  /** The flag is set exactly when some close or shutdown has come past its flush. */
  lemma {:induction false} FlagSetIff(run: seq<State>, actions: seq<Action>, k: nat)
    requires IsRun(run, actions) && k < |run|
    ensures run[k].shared.closed <==> exists id :: id in run[k].calls && Stage(run[k].calls[id]) >= 1
  {
    if k == 0 {
    } else {
      hide Advance, Stage;
      FlagSetIff(run, actions, k - 1);
      var s, a, t := run[k - 1], actions[k - 1], run[k];
      assert Next(s, a) == Some(t);
      if a.Start? {
        FlagStart(s.shared, a.id, a.call);
      } else {
        FlagStep(s.shared, a.id, s.calls[a.id], a.outcome);
      }
      assert a.id in t.calls;
      assert forall id :: id != a.id ==>
          (id in t.calls <==> id in s.calls) && (id in s.calls ==> t.calls[id] == s.calls[id]);
      if id :| id in s.calls && Stage(s.calls[id]) >= 1 {
        assert id in t.calls && Stage(t.calls[id]) >= 1;
      }
    }
  }

  lemma FlagStart(s: Shared, id: nat, c: Call)
    requires Begin(s, id, c).Moved?
    ensures Begin(s, id, c).shared.closed == s.closed && Stage(Begin(s, id, c).call) == 0
  {
  }

  const UNUSED := Shared(false, None, None, Free, Free, None, {}, {}, 0, 0)
  const CONNECTING := UNUSED.(lifecycle := Some(0))
  const BUILT := CONNECTING.(openMonitors := {0}, monitors := 1)
  const READY := BUILT.(monitorSlot := Some(0), lifecycle := None)

  function At(s: Shared, c: Connecting): (r: State) {
    State(s, map[0 := Connect(c)])
  }

  lemma ConnectMoves(s: Shared, c: Connecting, t: Shared, d: Connecting)
    requires ConnectStep(s, 0, c, Success) == Moved(t, Connect(d))
    ensures Next(At(s, c), Continue(0, Success)) == Some(At(t, d))
  {
    hide ConnectStep;
    assert At(s, c).calls[0 := Connect(d)] == At(t, d).calls;
  }

  lemma FirstConnectSteps()
    ensures Next(State(UNUSED, map[]), Start(0, Connect(CheckOpen))) == Some(At(CONNECTING, CheckOpen))
    ensures Next(At(CONNECTING, CheckOpen), Continue(0, Success)) == Some(At(CONNECTING, ReadReady))
    ensures Next(At(CONNECTING, ReadReady), Continue(0, Success)) == Some(At(CONNECTING, TakeMonitor))
    ensures Next(At(CONNECTING, TakeMonitor), Continue(0, Success)) == Some(At(CONNECTING, SpawnMonitor))
    ensures Next(At(CONNECTING, SpawnMonitor), Continue(0, Success)) == Some(At(BUILT, InstallMonitor(0)))
  {
    hide Next;
    assert Next(State(UNUSED, map[]), Start(0, Connect(CheckOpen)))
        == Some(At(CONNECTING, CheckOpen)) by { StartsConnect(); }
    ConnectMoves(CONNECTING, CheckOpen, CONNECTING, ReadReady);
    ConnectMoves(CONNECTING, ReadReady, CONNECTING, TakeMonitor);
    ConnectMoves(CONNECTING, TakeMonitor, CONNECTING, SpawnMonitor);
    assert {} + {0} == {0};
    ConnectMoves(CONNECTING, SpawnMonitor, BUILT, InstallMonitor(0));
  }

  lemma StartsConnect()
    ensures Next(State(UNUSED, map[]), Start(0, Connect(CheckOpen))) == Some(At(CONNECTING, CheckOpen))
  {
  }

  lemma LastConnectSteps()
    ensures Next(At(BUILT, InstallMonitor(0)), Continue(0, Success))
        == Some(At(BUILT.(monitorLock := Held(0, true)), SetMonitor(0)))
    ensures Next(At(BUILT.(monitorLock := Held(0, true)), SetMonitor(0)), Continue(0, Success))
         == Some(At(BUILT.(monitorSlot := Some(0)), AwaitReady(0)))
    ensures Next(At(BUILT.(monitorSlot := Some(0)), AwaitReady(0)), Continue(0, Success)) == Some(At(READY, Connected))
  {
    hide Next;
    ConnectMoves(BUILT, InstallMonitor(0), BUILT.(monitorLock := Held(0, true)), SetMonitor(0));
    ConnectMoves(BUILT.(monitorLock := Held(0, true)), SetMonitor(0), BUILT.(monitorSlot := Some(0)), AwaitReady(0));
    ConnectMoves(BUILT.(monitorSlot := Some(0)), AwaitReady(0), READY, Connected);
  }

  lemma ShutdownSteps()
    ensures var idle := At(READY, Connected);
            var waiting := State(READY.(lifecycle := Some(1)), idle.calls[1 := Close(true, SetFlag)]);
            && Next(idle, Start(1, Close(true, SetFlag))) == Some(waiting)
            && Next(waiting, Continue(1, Cancelled)) == Some(State(READY, idle.calls[1 := Close(true, Dropped)]))
  {
    var idle := At(READY, Connected);
    assert idle.calls[1 := Close(true, SetFlag)][1 := Close(true, Dropped)] == idle.calls[1 := Close(true, Dropped)];
  }

  /** A shutdown dropped in its flush has no such effect: the monitor that a connect installed stays open. */
  lemma DroppedShutdownClosesNothing() returns (run: seq<State>, actions: seq<Action>)
    ensures IsRun(run, actions)
    ensures var s := run[|run| - 1];
            && s.calls == map[0 := Connect(Connected), 1 := Close(true, Dropped)]
            && s.shared.monitorSlot == Some(0) && s.shared.openMonitors == {0} && !s.shared.closed
  {
    hide Next;
    var c, idle := Continue(0, Success), At(READY, Connected);
    actions := [Start(0, Connect(CheckOpen)), c, c, c, c, c, c, c, Start(1, Close(true, SetFlag)),
      Continue(1, Cancelled)];
    run := [State(UNUSED, map[]), At(CONNECTING, CheckOpen), At(CONNECTING, ReadReady), At(CONNECTING, TakeMonitor),
            At(CONNECTING, SpawnMonitor), At(BUILT, InstallMonitor(0)),
              At(BUILT.(monitorLock := Held(0, true)), SetMonitor(0)),
            At(BUILT.(monitorSlot := Some(0)), AwaitReady(0)), idle,
            State(READY.(lifecycle := Some(1)), idle.calls[1 := Close(true, SetFlag)]),
            State(READY, idle.calls[1 := Close(true, Dropped)])];
    FirstConnectSteps();
    LastConnectSteps();
    ShutdownSteps();
  }

  // --- every call comes to its end

  lemma FreeMoves(s: Shared, id: nat, c: Call, o: Outcome)
    requires !Ended(c) && (s.managerLock == Free || HasManagerLock(c))
        && (s.monitorLock == Free || HasMonitorLock(c) || c.Manage?)
    ensures Advance(s, id, c, o).Moved?
  {}

  /** No reachable state is stuck: some call can move, whatever its wait brings, unless all have ended. */
  lemma NeverStuck(run: seq<State>, actions: seq<Action>, k: nat)
    requires IsRun(run, actions) && k < |run|
    requires exists j :: j in run[k].calls && !Ended(run[k].calls[j])
    ensures exists id :: id in run[k].calls && forall o :: Next(run[k], Continue(id, o)).Some?
  {
    RunKeeps(run, actions, k);
    var s := run[k];
    var j :| j in s.calls && !Ended(s.calls[j]);
    var id :=
      if s.shared.managerLock.Held? then s.shared.managerLock.holder
      else if s.shared.monitorLock.Held? then s.shared.monitorLock.holder
      else j;
    assert id in s.calls ==> CallOk(s.shared, id, s.calls[id]);
    assert id !in s.calls ==> NoLocks(s.shared, id);
    hide Advance, CallsOk, ManagersKept, MonitorsKept;
    forall o ensures Next(s, Continue(id, o)).Some? {
      FreeMoves(s.shared, id, s.calls[id], o);
    }
  }

  const MOST_STEPS := 18

  /** The most steps a call has before it. */
  function Rank(c: Call): (n: nat)
    ensures n <= MOST_STEPS
  {
    match c
    case Close(_, k) =>
      (match k
       case SetFlag => 11 case ReadManager => 10 case CloseManager(_) => 9 case ReadMonitor => 8
       case CloseMonitor(_) => 7
       case Drain => 6 case RemoveDrained(_) => 5 case TakeDrainedManager => 4 case CloseDrainedManager(_) => 3
       case TakeLastManager => 2 case CloseLastManager(_) => 1 case Closed => 0 case Dropped => 0)
    case Connect(k) =>
      (match k
       case CheckOpen => 17 case ReadReady => 16 case TakeMonitor => 15 case TakeStaleManager(_) => 14
       case CloseStaleManager(_, _) => 13 case CloseStale(_) => 12 case SpawnMonitor => 11 case InstallMonitor(_) => 10
       case SetMonitor(_) => 9 case CloseRefused(_) => 8 case AwaitReady(_) => 7 case TakeFailedManager(_) => 6
       case CloseFailedManager(_, _) => 5 case RemoveFailed(_) => 4 case TakeRemovedManager(_) => 3
       case CloseRemovedManager(_, _) => 2 case CloseFailed(_) => 1 case Connected => 0)
    case Manage(k) =>
      (match k
       case LookManager => 5 case BuildManager => 4 case InstallManager(_) => 3 case SetManager(_) => 2
       case DisposeManager(_) => 1 case CloseReplaced(_) => 1 case Managed => 0)
  }

  function Steps(actions: seq<Action>, id: nat): (n: nat) {
    if actions == [] then 0
    else Steps(actions[..|actions| - 1], id) + if actions[|actions| - 1].id == id then 1 else 0
  }

  lemma AdvanceDescends(s: Shared, id: nat, c: Call, o: Outcome)
    requires Advance(s, id, c, o).Moved?
    ensures Rank(Advance(s, id, c, o).call) < Rank(c)
  {}

  /** A call takes at most eighteen steps in any run, so a run stops unless new calls keep coming. */
  lemma {:induction false} CallsAreShort(run: seq<State>, actions: seq<Action>, k: nat, id: nat)
    requires IsRun(run, actions) && k < |run|
    ensures Steps(actions[..k], id) + (if id in run[k].calls then Rank(run[k].calls[id]) else MOST_STEPS) <= MOST_STEPS
  {
    if k == 0 {
    } else {
      hide Advance, Begin, Rank;
      CallsAreShort(run, actions, k - 1, id);
      assert actions[..k][..k - 1] == actions[..k - 1];
      var s, a := run[k - 1], actions[k - 1];
      assert Next(s, a) == Some(run[k]);
      if a.id == id && a.Continue? {
        AdvanceDescends(s.shared, id, s.calls[id], a.outcome);
      } else if a.id == id {
        StartsBelow(s.shared, id, a.call);
      }
    }
  }

  lemma StartsBelow(s: Shared, id: nat, c: Call)
    requires Begin(s, id, c).Moved?
    ensures Rank(Begin(s, id, c).call) < MOST_STEPS
  {}
}
