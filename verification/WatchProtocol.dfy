/** The watch worker and any number of concurrent closers (src/client.rs), as a state machine whose
    steps lie between the lock operations, flag accesses, sends and replies of the source. */
module WatchProtocol {
  import opened Wrappers

  const MAX_GENERATION: nat := 0xffff_ffff

  datatype Message = Register | Reconnect(generation: nat) | Ping(generation: nat) | Unwatch

  datatype Event = Sent(message: Message) | ReconnectSucceeded | UnwatchSucceeded

  datatype Holder = Free | Worker | Closer(id: nat)

  /** Where the worker stands. It holds the operation lock from `PingReady` and `RecoverLocked` on. */
  datatype WorkerState =
    | Idle
    | PingWaiting | PingReady | PingPending
    | RecoverWaiting | RecoverLocked | ReconnectReady | ReconnectPending | RegisterReady | RegisterPending
    | Stopped

  /** Where a call of `Watch::close` stands. */
  datatype CloserState = StopSet | LockWaiting | Locked | UnwatchReady | UnwatchPending | Returned(ok: bool)

  datatype State = State(
    stop: bool,
    unwatched: bool,
    lock: Holder,
    worker: WorkerState,
    generation: nat,
    closers: map<nat, CloserState>,
    log: seq<Event>)

  datatype Action =
    // worker
    | Leave | Disconnected | Tick | LockForPing | SendPing | PingReply(ok: bool)
    | LockForRecovery | CheckStop | SendReconnect | ReconnectReply(ok: bool) | SendRegister | RegisterReply(ok: bool)
    | Abort
    // closers
    | Close(id: nat) | CheckUnwatched(id: nat) | LockForClose(id: nat) | CheckUnwatchedLocked(id: nat)
    | SendUnwatch(id: nat) | UnwatchReply(id: nat, ok: bool) | GiveUp(id: nat)

  predicate WorkerHolds(w: WorkerState) {
    w in {PingReady, PingPending, RecoverLocked, ReconnectReady, ReconnectPending, RegisterReady, RegisterPending}
  }

  predicate CloserHolds(c: CloserState) {
    c in {Locked, UnwatchReady, UnwatchPending}
  }

  /** Starts `recover_watch`, which counts the generation up before it takes the lock. */
  function Recover(s: State): (t: State) {
    if s.generation == MAX_GENERATION then s.(worker := Stopped)
    else s.(generation := s.generation + 1, worker := RecoverWaiting)
  }

  function Record(s: State, e: Event): (t: State) {
    s.(log := s.log + [e])
  }

  function WorkerStep(s: State, a: Action): (t: Option<State>) {
    match a
    case Leave => if s.worker == Idle then Some(s.(worker := Stopped)) else None
    case Disconnected => if s.worker == Idle then Some(Recover(s)) else None
    case Tick => if s.worker == Idle then Some(s.(worker := PingWaiting)) else None
    case LockForPing =>
      if s.worker == PingWaiting && s.lock == Free then Some(s.(worker := PingReady, lock := Worker)) else None
    case SendPing =>
      if s.worker == PingReady then Some(Record(s, Sent(Ping(s.generation))).(worker := PingPending)) else None
    case PingReply(ok) =>
      if s.worker != PingPending then None
      else if ok then Some(s.(worker := Idle, lock := Free)) else Some(Recover(s.(lock := Free)))
    case LockForRecovery =>
      if s.worker == RecoverWaiting && s.lock == Free then Some(s.(worker := RecoverLocked, lock := Worker)) else None
    case CheckStop =>
      if s.worker != RecoverLocked then None
      else if s.stop then Some(s.(worker := Stopped, lock := Free)) else Some(s.(worker := ReconnectReady))
    case SendReconnect =>
      if s.worker == ReconnectReady then Some(Record(s, Sent(Reconnect(s.generation))).(worker := ReconnectPending))
      else None
    case ReconnectReply(ok) =>
      if s.worker != ReconnectPending then None
      else if ok then Some(Record(s, ReconnectSucceeded).(worker := Idle, lock := Free))
      else Some(s.(generation := 0, worker := RegisterReady))
    case SendRegister =>
      if s.worker == RegisterReady then Some(Record(s, Sent(Register)).(worker := RegisterPending)) else None
    case RegisterReply(ok) =>
      if s.worker != RegisterPending then None
      else Some(s.(worker := if ok then Idle else Stopped, lock := Free))
    case Abort => Some(s.(worker := Stopped, lock := if s.lock == Worker then Free else s.lock))
    case _ => None
  }

  function At(s: State, id: nat): (c: Option<CloserState>) {
    if id in s.closers then Some(s.closers[id]) else None
  }

  function Move(s: State, id: nat, c: CloserState): (t: State) {
    s.(closers := s.closers[id := c])
  }

  function CloserStep(s: State, a: Action): (t: Option<State>) {
    match a
    case Close(id) => if id !in s.closers then Some(Move(s.(stop := true), id, StopSet)) else None
    case CheckUnwatched(id) =>
      if At(s, id) == Some(StopSet) then Some(Move(s, id, if s.unwatched then Returned(true) else LockWaiting))
      else None
    case LockForClose(id) =>
      if At(s, id) == Some(LockWaiting) && s.lock == Free then Some(Move(s.(lock := Closer(id)), id, Locked)) else None
    case CheckUnwatchedLocked(id) =>
      if At(s, id) != Some(Locked) then None
      else if s.unwatched then Some(Move(s.(lock := Free), id, Returned(true))) else Some(Move(s, id, UnwatchReady))
    case SendUnwatch(id) =>
      if At(s, id) == Some(UnwatchReady) then Some(Move(Record(s, Sent(Unwatch)), id, UnwatchPending)) else None
    case UnwatchReply(id, ok) =>
      if At(s, id) != Some(UnwatchPending) then None
      else if ok then Some(Move(Record(s, UnwatchSucceeded).(unwatched := true, lock := Free), id, Returned(true)))
      else Some(Move(s.(lock := Free), id, Returned(false)))
    case GiveUp(id) =>
      if id !in s.closers || s.closers[id].Returned? then None
      else Some(Move(s.(lock := if s.lock == Closer(id) then Free else s.lock), id, Returned(false)))
    case _ => None
  }

  function Next(s: State, a: Action): (t: Option<State>) {
    if WorkerStep(s, a).Some? then WorkerStep(s, a) else CloserStep(s, a)
  }

  /** Freshly registered: the state `ObjectRef::watch` hands to the worker. */
  predicate Init(s: State) {
    s == State(false, false, Free, Idle, 0, map[], [Sent(Register)])
  }

  // --- what the log must look like

  /** How many reconnects have succeeded since the last registration was sent. */
  function Successes(log: seq<Event>): (n: nat) {
    if log == [] || log[|log| - 1] == Sent(Register) then 0
    else Successes(log[..|log| - 1]) + if log[|log| - 1] == ReconnectSucceeded then 1 else 0
  }

  /** What may be sent after a given history. */
  ghost predicate Fits(log: seq<Event>, e: Event) {
    match e
    case Sent(Register) => Sent(Unwatch) !in log
    case Sent(Reconnect(g)) => Sent(Unwatch) !in log && g == Successes(log) + 1
    case Sent(Ping(g)) => g == Successes(log)
    case Sent(Unwatch) => UnwatchSucceeded !in log
    case _ => true
  }

  ghost predicate Sound(log: seq<Event>) {
    forall i :: 0 <= i < |log| ==> Fits(log[..i], log[i])
  }

  // --- the invariant

  ghost predicate LockOk(s: State) {
    && (s.lock == Worker <==> WorkerHolds(s.worker))
    && (forall id :: s.lock == Closer(id) <==> id in s.closers && CloserHolds(s.closers[id]))
  }

  ghost predicate WorkerOk(s: State) {
    && (s.worker in {Idle, PingWaiting, PingReady, PingPending, RegisterPending} ==> s.generation == Successes(s.log))
    && (s.worker in {RecoverWaiting, RecoverLocked, ReconnectReady, ReconnectPending} ==>
      s.generation == Successes(s.log) + 1)
    && (s.worker == RegisterReady ==> s.generation == 0)
    && (s.worker in {ReconnectReady, ReconnectPending, RegisterReady, RegisterPending} ==> Sent(Unwatch) !in s.log)
  }

  ghost predicate CloserOk(s: State) {
    && (s.closers != map[] ==> s.stop)
    && (Sent(Unwatch) in s.log ==> s.stop)
    && (s.unwatched <==> UnwatchSucceeded in s.log)
    && (forall id :: id in s.closers && s.closers[id] in {UnwatchReady, UnwatchPending} ==> !s.unwatched)
    && (forall id :: id in s.closers && s.closers[id] == Returned(true) ==> s.unwatched)
  }

  ghost predicate Inv(s: State) {
    LockOk(s) && WorkerOk(s) && CloserOk(s) && Sound(s.log)
  }

  lemma RecordSound(log: seq<Event>, e: Event)
    requires Sound(log) && Fits(log, e)
    ensures Sound(log + [e])
  {
    hide Fits;
    var longer := log + [e];
    forall i | 0 <= i < |longer| ensures Fits(longer[..i], longer[i]) {
      assert longer[..i] == if i < |log| then log[..i] else log;
    }
  }

  lemma SuccessesStep(log: seq<Event>, e: Event)
    ensures Successes(log + [e]) == if e == Sent(Register) then 0
                                    else if e == ReconnectSucceeded then Successes(log) + 1
                                    else Successes(log)
    ensures forall x :: x in log + [e] <==> x in log || x == e
  {
    assert (log + [e])[..|log|] == log;
  }

  /** Steps that record nothing. */
  lemma QuietWorkerKeeps(s: State, a: Action)
    requires Inv(s) && WorkerStep(s, a).Some? && WorkerStep(s, a).value.log == s.log
    ensures Inv(WorkerStep(s, a).value)
  {
    hide Sound, Successes;
    var t := WorkerStep(s, a).value;
    assert t.closers == s.closers && t.stop == s.stop && t.unwatched == s.unwatched;
    assert LockOk(t) by { hide WorkerOk, CloserOk; }
    assert WorkerOk(t) by { hide LockOk; }
  }

  lemma WorkerKeeps(s: State, a: Action)
    requires Inv(s) && WorkerStep(s, a).Some?
    ensures Inv(WorkerStep(s, a).value)
  {
    hide Sound, Successes;
    var t := WorkerStep(s, a).value;
    if t.log == s.log {
      QuietWorkerKeeps(s, a);
    } else {
      var e := t.log[|s.log|];
      RecordSound(s.log, e);
      SuccessesStep(s.log, e);
    }
  }

  lemma QuietCloserKeeps(s: State, a: Action)
    requires Inv(s) && CloserStep(s, a).Some? && CloserStep(s, a).value.log == s.log
    ensures Inv(CloserStep(s, a).value)
  {
    hide Sound, Successes;
    var t := CloserStep(s, a).value;
    assert LockOk(t) by { hide WorkerOk, CloserOk; }
    assert WorkerOk(t) by { hide LockOk, CloserOk; }
    assert CloserOk(t) by { hide WorkerOk; }
  }

  lemma CloserKeeps(s: State, a: Action)
    requires Inv(s) && CloserStep(s, a).Some?
    ensures Inv(CloserStep(s, a).value)
  {
    hide Sound, Successes;
    var t := CloserStep(s, a).value;
    if t.log == s.log {
      QuietCloserKeeps(s, a);
    } else {
      assert s.lock == Closer(a.id);
      var e := t.log[|s.log|];
      RecordSound(s.log, e);
      SuccessesStep(s.log, e);
    }
  }

  // --- whole runs

  ghost predicate IsRun(run: seq<State>, actions: seq<Action>) {
    && |run| == |actions| + 1 && Init(run[0])
    && (forall i :: 0 <= i < |actions| ==> Next(run[i], actions[i]) == Some(run[i + 1]))
  }

  lemma {:induction false} RunKeeps(run: seq<State>, actions: seq<Action>, k: nat)
    requires IsRun(run, actions) && k < |run|
    ensures Inv(run[k])
  {
    if k > 0 {
      hide Inv, WorkerStep, CloserStep;
      RunKeeps(run, actions, k - 1);
      var s, a := run[k - 1], actions[k - 1];
      assert Next(s, a) == Some(run[k]);
      if WorkerStep(s, a).Some? {
        WorkerKeeps(s, a);
      } else {
        CloserKeeps(s, a);
      }
    } else {
      assert Sound(run[0].log) by { assert run[0].log[..0] == []; }
    }
  }

  /** In every interleaving: nothing re-registers after an UNWATCH, every RECONNECT and PING carries the
      right generation, no UNWATCH follows one that succeeded, and a close that returns success has an
      acknowledged UNWATCH behind it. */
  lemma EveryRunIsSound(run: seq<State>, actions: seq<Action>)
    requires IsRun(run, actions)
    ensures forall k :: 0 <= k < |run| ==> Sound(run[k].log)
    ensures forall k, id :: 0 <= k < |run| && id in run[k].closers && run[k].closers[id] == Returned(true) ==>
              UnwatchSucceeded in run[k].log
  {
    forall k | 0 <= k < |run| ensures Inv(run[k]) {
      RunKeeps(run, actions, k);
    }
  }

  /** The same, message by message. */
  lemma NothingRegistersAfterUnwatch(run: seq<State>, actions: seq<Action>, k: nat, i: nat, j: nat)
    requires IsRun(run, actions) && k < |run| && i < j < |run[k].log| && run[k].log[i] == Sent(Unwatch)
    ensures run[k].log[j] != Sent(Register)
    ensures run[k].log[j].Sent? ==> !run[k].log[j].message.Reconnect?
  {
    RunKeeps(run, actions, k);
    var log := run[k].log;
    assert Fits(log[..j], log[j]);
    assert log[..j][i] == Sent(Unwatch);
  }

  // --- progress

  /** Who takes a step. */
  function Actor(a: Action): (who: Holder) {
    match a
    case Close(id) => Closer(id)
    case CheckUnwatched(id) => Closer(id)
    case LockForClose(id) => Closer(id)
    case CheckUnwatchedLocked(id) => Closer(id)
    case SendUnwatch(id) => Closer(id)
    case UnwatchReply(id, _) => Closer(id)
    case GiveUp(id) => Closer(id)
    case _ => Worker
  }

  /** A step of what is under way: neither a new close nor a giving up nor the worker's leaving its loop. */
  predicate Proceeds(a: Action) {
    !a.Close? && !a.GiveUp? && !a.Abort? && !a.Leave?
  }

  /** The worker until it has stopped, and every close that has begun and not returned. */
  predicate Running(s: State, who: Holder) {
    match who
    case Free => false
    case Worker => s.worker != Stopped
    case Closer(id) => id in s.closers && !s.closers[id].Returned?
  }

  ghost predicate CanProceed(s: State, who: Holder) {
    exists a :: Proceeds(a) && Actor(a) == who && Next(s, a).Some?
  }

  lemma WorkerMoves(s: State)
    requires s.worker != Stopped && (WorkerHolds(s.worker) || s.lock == Free || s.worker == Idle)
    ensures CanProceed(s, Worker)
  {
    var a := match s.worker
      case Idle => Tick
      case PingWaiting => LockForPing
      case PingReady => SendPing
      case PingPending => PingReply(true)
      case RecoverWaiting => LockForRecovery
      case RecoverLocked => CheckStop
      case ReconnectReady => SendReconnect
      case ReconnectPending => ReconnectReply(true)
      case RegisterReady => SendRegister
      case RegisterPending => RegisterReply(true)
      case Stopped => Abort;
    assert Proceeds(a) && Actor(a) == Worker && WorkerStep(s, a).Some?;
  }

  lemma CloserMoves(s: State, id: nat)
    requires Running(s, Closer(id)) && (CloserHolds(s.closers[id]) || s.lock == Free || s.closers[id] == StopSet)
    ensures CanProceed(s, Closer(id))
  {
    var a := match s.closers[id]
      case StopSet => CheckUnwatched(id)
      case LockWaiting => LockForClose(id)
      case Locked => CheckUnwatchedLocked(id)
      case UnwatchReady => SendUnwatch(id)
      case UnwatchPending => UnwatchReply(id, true)
      case Returned(_) => GiveUp(id);
    assert Proceeds(a) && Actor(a) == Closer(id) && CloserStep(s, a).Some?;
  }

  /** In no reachable state is anyone stuck: the worker, and every close under way, can proceed, or the
      lock is held by another of them that can. */
  lemma NeverStuck(run: seq<State>, actions: seq<Action>, k: nat, who: Holder)
    requires IsRun(run, actions) && k < |run| && Running(run[k], who)
    ensures var s := run[k]; CanProceed(s, who) || (Running(s, s.lock) && CanProceed(s, s.lock))
  {
    RunKeeps(run, actions, k);
    var s := run[k];
    hide CanProceed, Sound, WorkerOk, CloserOk;
    var mover := if s.lock == Free then who else s.lock;
    if mover == Worker {
      WorkerMoves(s);
    } else {
      CloserMoves(s, mover.id);
    }
  }

  /** A state that is no part of any run, in which nobody can: the lock is held by no one who runs. */
  lemma StuckWithoutHolder(s: State, who: Holder)
    requires s.lock == Closer(7) && s.worker == RecoverWaiting && s.closers == map[0 := LockWaiting]
    ensures Running(s, Worker) && Running(s, Closer(0)) && !CanProceed(s, who)
  {
  }

  // --- what each exchange comes to when nothing interrupts it

  /** The state after some steps, if all of them can be taken. */
  function After(s: State, actions: seq<Action>): (t: Option<State>)
    decreases |actions|
  {
    if actions == [] then Some(s)
    else
      match Next(s, actions[0])
      case None => None
      case Some(t) => After(t, actions[1..])
  }

  lemma AfterStep(s: State, a: Action, rest: seq<Action>, t: State)
    requires Next(s, a) == Some(t)
    ensures After(s, [a] + rest) == After(t, rest)
  {
    assert ([a] + rest)[1..] == rest;
  }

  lemma AfterNone(s: State)
    ensures After(s, []) == Some(s)
  {
  }

  /** The worker is between pings or waits for the lock, which nobody holds. */
  predicate Quiet(s: State) {
    s.worker == Idle && s.lock == Free
  }

  /** Recovery takes the lock under the next generation. */
  lemma RecoveryBegins(s: State, rest: seq<Action>)
    requires Quiet(s) && s.generation < 0xffff_ffff
    ensures After(s, [Disconnected] + ([LockForRecovery] + rest)) ==
            After(s.(generation := s.generation + 1, worker := RecoverLocked, lock := Worker), rest)
  {
    hide After;
    var t := s.(generation := s.generation + 1, worker := RecoverWaiting);
    AfterStep(s, Disconnected, [LockForRecovery] + rest, t);
    AfterStep(t, LockForRecovery, rest, t.(worker := RecoverLocked, lock := Worker));
  }

  /** A reconnect that succeeds leaves the worker at the next generation, which the message carried. */
  lemma RecoveryReconnects(s: State)
    requires Quiet(s) && !s.stop && s.generation < 0xffff_ffff
    ensures var g := s.generation + 1;
            After(s, [Disconnected] + ([LockForRecovery] + ([CheckStop] + ([SendReconnect]
                     + [ReconnectReply(true)])))) ==
            Some(s.(generation := g, log := s.log + [Sent(Reconnect(g)), ReconnectSucceeded]))
  {
    hide After;
    var g := s.generation + 1;
    RecoveryBegins(s, [CheckStop] + ([SendReconnect] + [ReconnectReply(true)]));
    var t := s.(generation := g, lock := Worker);
    AfterStep(t.(worker := RecoverLocked), CheckStop, [SendReconnect] + [ReconnectReply(true)],
      t.(worker := ReconnectReady));
    var sent := t.(worker := ReconnectPending, log := s.log + [Sent(Reconnect(g))]);
    AfterStep(t.(worker := ReconnectReady), SendReconnect, [ReconnectReply(true)], sent);
    var u := s.(generation := g, log := s.log + [Sent(Reconnect(g)), ReconnectSucceeded]);
    assert sent.log + [ReconnectSucceeded] == u.log;
    AfterStep(sent, ReconnectReply(true), [], u);
    AfterNone(u);
    assert [ReconnectReply(true)] + [] == [ReconnectReply(true)];
  }

  /** A reconnect that fails is followed by a registration; where that succeeds the worker goes on at
      generation zero, and otherwise it stops. */
  lemma RecoveryRegisters(s: State, ok: bool)
    requires s.worker == ReconnectPending && s.lock == Worker
    ensures After(s, [ReconnectReply(false)] + ([SendRegister] + [RegisterReply(ok)])) ==
            Some(s.(generation := 0, worker := if ok then Idle else Stopped, lock := Free,
                    log := s.log + [Sent(Register)]))
  {
    hide After;
    var t := s.(generation := 0, worker := RegisterReady);
    AfterStep(s, ReconnectReply(false), [SendRegister] + [RegisterReply(ok)], t);
    var sent := t.(worker := RegisterPending, log := s.log + [Sent(Register)]);
    AfterStep(t, SendRegister, [RegisterReply(ok)], sent);
    var u := sent.(worker := if ok then Idle else Stopped, lock := Free);
    AfterStep(sent, RegisterReply(ok), [], u);
    AfterNone(u);
    assert [RegisterReply(ok)] + [] == [RegisterReply(ok)];
  }

  /** A recovery that finds a close under way sends nothing and stops. */
  lemma RecoveryStops(s: State)
    requires Quiet(s) && s.stop && s.generation < 0xffff_ffff
    ensures After(s, [Disconnected] + ([LockForRecovery] + [CheckStop])) ==
            Some(s.(generation := s.generation + 1, worker := Stopped))
  {
    hide After;
    RecoveryBegins(s, [CheckStop]);
    var t, u := s.(generation := s.generation + 1, worker := RecoverLocked, lock := Worker),
      s.(generation := s.generation + 1, worker := Stopped);
    AfterStep(t, CheckStop, [], u);
    AfterNone(u);
    assert [CheckStop] + [] == [CheckStop];
  }

  /** The last generation has no successor: the worker stops. */
  lemma GenerationsEnd(s: State)
    requires s.worker == Idle && s.generation == 0xffff_ffff
    ensures Next(s, Disconnected) == Some(s.(worker := Stopped))
  {
  }

  lemma PingSends(s: State)
    requires Quiet(s)
    ensures Next(s, Tick) == Some(s.(worker := PingWaiting))
    ensures Next(s.(worker := PingWaiting), LockForPing) == Some(s.(worker := PingReady, lock := Worker))
    ensures Next(s.(worker := PingReady, lock := Worker), SendPing) ==
            Some(s.(worker := PingPending, lock := Worker, log := s.log + [Sent(Ping(s.generation))]))
  {
  }

  lemma PingAnswered(s: State, ok: bool)
    requires Quiet(s)
    ensures Next(s.(worker := PingPending, lock := Worker), PingReply(ok)) ==
            if ok then Some(s) else Next(s, Disconnected)
    ensures Next(s, Disconnected).Some?
  {
  }

  /** A ping carries the current generation; one that fails starts a recovery, as a disconnection does. */
  lemma PingExchange(s: State, ok: bool)
    requires Quiet(s)
    ensures var pinged := s.(log := s.log + [Sent(Ping(s.generation))]);
            After(s, [Tick] + ([LockForPing] + ([SendPing] + [PingReply(ok)]))) ==
            if ok then Some(pinged) else Next(pinged, Disconnected)
  {
    hide After, Next;
    PingSends(s);
    var pinged := s.(log := s.log + [Sent(Ping(s.generation))]);
    PingAnswered(pinged, ok);
    var sent := pinged.(worker := PingPending, lock := Worker);
    AfterStep(s, Tick, [LockForPing] + ([SendPing] + [PingReply(ok)]), s.(worker := PingWaiting));
    AfterStep(s.(worker := PingWaiting), LockForPing, [SendPing] + [PingReply(ok)],
      s.(worker := PingReady, lock := Worker));
    AfterStep(s.(worker := PingReady, lock := Worker), SendPing, [PingReply(ok)], sent);
    var u := Next(sent, PingReply(ok)).value;
    AfterStep(sent, PingReply(ok), [], u);
    AfterNone(u);
    assert [PingReply(ok)] + [] == [PingReply(ok)];
  }

  /** A close on a live watch sends UNWATCH and reports what the cluster answers; the watch is gone exactly
      when the answer is yes, and a close that failed leaves the next one to try again. */
  lemma CloseUnwatches(s: State, id: nat, ok: bool)
    requires id !in s.closers && !s.unwatched && s.lock == Free
    ensures After(s, [Close(id)] + ([CheckUnwatched(id)] + ([LockForClose(id)] + ([CheckUnwatchedLocked(id)]
                     + ([SendUnwatch(id)] + [UnwatchReply(id, ok)]))))) ==
            Some(s.(stop := true, unwatched := ok, closers := s.closers[id := Returned(ok)],
                    log := s.log + [Sent(Unwatch)] + if ok then [UnwatchSucceeded] else []))
  {
    hide After, Next, Move;
    var send := [SendUnwatch(id)] + [UnwatchReply(id, ok)];
    var stopped := s.(stop := true);
    var held := stopped.(lock := Closer(id));
    CloseSteps(s, id);
    AfterStep(s, Close(id), [CheckUnwatched(id)] + ([LockForClose(id)] + ([CheckUnwatchedLocked(id)] + send)),
      Move(stopped, id, StopSet));
    AfterStep(Move(stopped, id, StopSet), CheckUnwatched(id), [LockForClose(id)] + ([CheckUnwatchedLocked(id)] + send),
      Move(stopped, id, LockWaiting));
    AfterStep(Move(stopped, id, LockWaiting), LockForClose(id), [CheckUnwatchedLocked(id)] + send,
      Move(held, id, Locked));
    AfterStep(Move(held, id, Locked), CheckUnwatchedLocked(id), send, Move(held, id, UnwatchReady));
    CloseAnswered(held, id, ok);
  }

  /** The steps of a close up to its message. */
  lemma CloseSteps(s: State, id: nat)
    requires id !in s.closers && !s.unwatched && s.lock == Free
    ensures var stopped := s.(stop := true);
            var held := stopped.(lock := Closer(id));
            && Next(s, Close(id)) == Some(Move(stopped, id, StopSet))
            && Next(Move(stopped, id, StopSet), CheckUnwatched(id)) == Some(Move(stopped, id, LockWaiting))
            && Next(Move(stopped, id, LockWaiting), LockForClose(id)) == Some(Move(held, id, Locked))
            && Next(Move(held, id, Locked), CheckUnwatchedLocked(id)) == Some(Move(held, id, UnwatchReady))
  {
    var stopped := s.(stop := true);
    var held := stopped.(lock := Closer(id));
    MoveTwice(stopped, id, StopSet, LockWaiting);
    MoveTwice(held, id, LockWaiting, Locked);
    MoveTwice(held, id, Locked, UnwatchReady);
  }

  lemma MoveTwice(s: State, id: nat, c: CloserState, d: CloserState)
    ensures Move(Move(s, id, c), id, d) == Move(s, id, d)
  {
    assert s.closers[id := c][id := d] == s.closers[id := d];
  }

  lemma CloseAnswered(held: State, id: nat, ok: bool)
    requires held.lock == Closer(id) && !held.unwatched
    ensures After(Move(held, id, UnwatchReady), [SendUnwatch(id)] + [UnwatchReply(id, ok)]) ==
            Some(held.(unwatched := ok, lock := Free, closers := held.closers[id := Returned(ok)],
                       log := held.log + [Sent(Unwatch)] + if ok then [UnwatchSucceeded] else []))
  {
    hide After;
    var sent := Record(held, Sent(Unwatch));
    MoveTwice(sent, id, UnwatchReady, UnwatchPending);
    AfterStep(Move(held, id, UnwatchReady), SendUnwatch(id), [UnwatchReply(id, ok)], Move(sent, id, UnwatchPending));
    var answered := if ok then Record(sent, UnwatchSucceeded).(unwatched := true, lock := Free)
                    else sent.(lock := Free);
    MoveTwice(answered, id, UnwatchPending, Returned(ok));
    AfterStep(Move(sent, id, UnwatchPending), UnwatchReply(id, ok), [], Move(answered, id, Returned(ok)));
    AfterNone(Move(answered, id, Returned(ok)));
    assert !ok ==> held.log + [Sent(Unwatch)] + [] == sent.log;
    assert [UnwatchReply(id, ok)] + [] == [UnwatchReply(id, ok)];
  }

  /** A close on a watch that is gone succeeds without a message. */
  lemma CloseAgain(s: State, id: nat)
    requires id !in s.closers && s.unwatched
    ensures After(s, [Close(id)] + [CheckUnwatched(id)]) ==
            Some(s.(stop := true, closers := s.closers[id := Returned(true)]))
  {
    hide After;
    var stopped := s.(stop := true);
    AfterStep(s, Close(id), [CheckUnwatched(id)], Move(stopped, id, StopSet));
    MoveTwice(stopped, id, StopSet, Returned(true));
    AfterStep(Move(stopped, id, StopSet), CheckUnwatched(id), [], Move(stopped, id, Returned(true)));
    AfterNone(Move(stopped, id, Returned(true)));
    assert [CheckUnwatched(id)] + [] == [CheckUnwatched(id)];
  }
}
