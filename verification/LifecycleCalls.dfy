/** What each call on a client comes to when no other call interrupts it (src/client.rs). */
module LifecycleCalls {
  import opened Wrappers
  import opened ClientLifecycle

  /** `n` steps of one call, each wait with the same outcome, while nobody holds a slot's lock. */
  function Steps(s: Shared, id: nat, c: Call, o: Outcome, n: nat): (t: Step)
    decreases n
  {
    if n == 0 then Moved(s, c)
    else
      match Advance(s, id, c, o)
      case Blocked => Blocked
      case Moved(t, d) => Steps(t, id, d, o, n - 1)
  }

  /** Steps in two parts. */
  lemma {:induction false} StepsSplit(s: Shared, id: nat, c: Call, o: Outcome, a: nat, b: nat, t: Shared, d: Call)
    requires Steps(s, id, c, o, a) == Moved(t, d)
    ensures Steps(s, id, c, o, a + b) == Steps(t, id, d, o, b)
    decreases a
  {
    hide Advance;
    if a == 0 {
    } else {
      var next := Advance(s, id, c, o);
      StepsSplit(next.shared, id, next.call, o, a - 1, b, t, d);
    }
  }

  predicate Unlocked(s: Shared) {
    s.monitorLock == Free && s.managerLock == Free
  }

  /** A close sets the flag and closes what the slots hold. */
  lemma CloseAlone(s: Shared, id: nat)
    requires Unlocked(s)
    ensures Steps(s, id, Close(false, SetFlag), Success, 5) ==
            Moved(s.(closed := true, openManagers := Minus(s.openManagers, s.managerSlot),
                     openMonitors := Minus(s.openMonitors, s.monitorSlot)), Close(false, Closed))
  {
  }

  /** What a shutdown finds once it has closed what the slots hold. */
  lemma ShutdownDrains(s: Shared, id: nat)
    requires Unlocked(s) && s.lifecycle == Some(id)
    ensures var t := Moved(s.(monitorSlot := None, managerSlot := None, lifecycle := None,
                              openManagers := Minus(s.openManagers, s.managerSlot)), Close(true, Closed));
            if s.monitorSlot.Some? then Steps(s, id, Close(true, Drain), Success, 6) == t
            else Steps(s, id, Close(true, Drain), Success, 3) == t
  {
  }

  /** A shutdown also empties the slots and lets the next connect or shutdown in. */
  lemma ShutdownAlone(s: Shared, id: nat)
    requires Unlocked(s) && s.lifecycle == Some(id)
    ensures Steps(s, id, Close(true, SetFlag), Success, 5 + if s.monitorSlot.Some? then 6 else 3) ==
            Moved(s.(closed := true, openManagers := Minus(s.openManagers, s.managerSlot),
                     openMonitors := Minus(s.openMonitors, s.monitorSlot),
                     monitorSlot := None, managerSlot := None, lifecycle := None), Close(true, Closed))
  {
    var t := s.(closed := true, openManagers := Minus(s.openManagers, s.managerSlot),
                openMonitors := Minus(s.openMonitors, s.monitorSlot));
    assert Steps(s, id, Close(true, SetFlag), Success, 5) == Moved(t, Close(true, Drain));
    hide Steps;
    StepsSplit(s, id, Close(true, SetFlag), Success, 5, if s.monitorSlot.Some? then 6 else 3, t, Close(true, Drain));
    ShutdownDrains(t, id);
  }

  /** A connect on a closed client changes nothing. */
  lemma ConnectRefused(s: Shared, id: nat, o: Outcome)
    requires s.closed && s.lifecycle == Some(id)
    ensures Steps(s, id, Connect(CheckOpen), o, 1) == Moved(s.(lifecycle := None), Connect(Connected))
  {
  }

  /** A connect that finds a monitor ready changes nothing. */
  lemma ConnectReuses(s: Shared, id: nat)
    requires Unlocked(s) && !s.closed && s.lifecycle == Some(id) && s.monitorSlot.Some?
    ensures Steps(s, id, Connect(CheckOpen), Success, 2) == Moved(s.(lifecycle := None), Connect(Connected))
  {
  }

  /** A connect that finds none builds a monitor and installs it. */
  lemma ConnectInstalls(s: Shared, id: nat)
    requires Unlocked(s) && !s.closed && s.lifecycle == Some(id) && s.monitorSlot == None
    ensures Steps(s, id, Connect(CheckOpen), Success, 7) ==
            Moved(s.(monitorSlot := Some(s.monitors), monitors := s.monitors + 1,
                     openMonitors := s.openMonitors + {s.monitors}, lifecycle := None), Connect(Connected))
  {
  }

  /** A monitor that is not ready is closed with its manager, and another is built and installed. */
  lemma ConnectReplaces(s: Shared, id: nat)
    requires Unlocked(s) && !s.closed && s.monitorSlot.Some?
    ensures Steps(s, id, Connect(TakeMonitor), Success, 7) ==
            Moved(s.(monitorSlot := Some(s.monitors), managerSlot := None, monitors := s.monitors + 1,
                     openManagers := Minus(s.openManagers, s.managerSlot),
                     openMonitors := s.openMonitors - {s.monitorSlot.value} + {s.monitors}),
                  Connect(AwaitReady(s.monitors)))
  {
  }

  lemma FailedManagerCloses(s: Shared, id: nat, m: nat)
    requires Unlocked(s)
    ensures Steps(s, id, Connect(AwaitReady(m)), Failure, 3) ==
            Moved(s.(managerSlot := None, openManagers := Minus(s.openManagers, s.managerSlot)),
                  Connect(RemoveFailed(m)))
  {
  }

  /** Once its manager is closed, a monitor that did not become ready is taken out of its slot and closed. */
  lemma FailedIsRemoved(s: Shared, id: nat, m: nat)
    requires Unlocked(s) && s.lifecycle == Some(id) && s.monitorSlot == Some(m) && s.managerSlot == None
    ensures Steps(s, id, Connect(RemoveFailed(m)), Failure, 4) ==
            Moved(s.(monitorSlot := None, lifecycle := None, openMonitors := s.openMonitors - {m}),
                  Connect(Connected))
  {
  }

  /** A monitor that does not become ready is taken out of its slot and closed, and so is its manager. */
  lemma ConnectFails(s: Shared, id: nat, m: nat)
    requires Unlocked(s) && s.lifecycle == Some(id) && s.monitorSlot == Some(m)
    ensures Steps(s, id, Connect(AwaitReady(m)), Failure, 3 + 4) ==
            Moved(s.(monitorSlot := None, managerSlot := None, lifecycle := None,
                     openManagers := Minus(s.openManagers, s.managerSlot), openMonitors := s.openMonitors - {m}),
                  Connect(Connected))
  {
    hide Steps;
    var t := s.(managerSlot := None, openManagers := Minus(s.openManagers, s.managerSlot));
    FailedManagerCloses(s, id, m);
    StepsSplit(s, id, Connect(AwaitReady(m)), Failure, 3, 4, t, Connect(RemoveFailed(m)));
    FailedIsRemoved(t, id, m);
  }

  /** A call for the manager finds an open one, or builds one and installs it in place of one that is shut. */
  lemma ManageAlone(s: Shared, id: nat)
    requires Unlocked(s) && !s.closed
    ensures if s.managerSlot.Some? && s.managerSlot.value in s.openManagers
            then Steps(s, id, Manage(LookManager), Success, 1) == Moved(s, Manage(Managed))
            else Steps(s, id, Manage(LookManager), Success, 5) ==
                 Moved(s.(managerSlot := Some(s.managers), managers := s.managers + 1,
                          openManagers := Minus(s.openManagers + {s.managers}, s.managerSlot)), Manage(Managed))
  {
  }

  /** On a closed client the manager that was built is closed again. */
  lemma ManageRefused(s: Shared, id: nat)
    requires Unlocked(s) && s.closed
    ensures Steps(s, id, Manage(BuildManager), Success, 3) ==
            Moved(s.(managers := s.managers + 1, openManagers := s.openManagers + {s.managers} - {s.managers}),
                  Manage(Managed))
  {
  }
}
