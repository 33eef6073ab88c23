/**
 * The receive wake lock of the Bluetooth SMD driver: one lock that does not count its holders, shared by the
 * receive tasklet, a self-rearming timer callback, the consumer of the receive queue, the channel callbacks and
 * deregistration. Each step reads or writes shared state once; a run is any interleaving.
 */
module WakeLock {

  /** Receive tasklet: the loop of hci_smd_rx around the event handler and the data handler. */
  datatype Rx =
    | RxIdle
    | RxLoop                       // about to test whether either channel has data
    | Entering(event: bool)        // about to take the wake lock
    | Reading(event: bool)         // about to load the device pointer for a frame, or to give up
    | Passing(event: bool)         // about to queue the frame with the device loaded
    | Delivered(event: bool)       // frame queued, timer not yet started
    | Releasing(event: bool)       // release_lock: about to load the device pointer
    | Testing(event: bool)         // release_lock: about to test the queue of the device loaded
    | QueueSeenEmpty(event: bool)  // release_lock: about to test the lock
    | Unlocking(event: bool)       // release_lock: about to unlock

  /** Timer callback schedule_timer, which has its own copy of the device pointer. */
  datatype Callback = CbIdle | CbStart | CbQueueEmpty | CbUnlocking | CbRearming

  /** Deregistration. */
  datatype Dereg =
    | Registered
    | Killed                       // tasklet_kill has returned, the device pointer is still set
    | Detached                     // the device pointer is cleared
    | LockSeen(active: bool)
    | Released
    | TimerDeleted                 // del_timer_sync has returned
    | Gone                         // the timer's function is cleared as well

  /**
   * `hdev` says whether the device pointer is set, `inFlight` counts channel callbacks that have seen it set
   * and not yet scheduled the tasklet. After a crash nothing runs any more.
   */
  datatype State = State(
    lock: bool, queue: nat, pending: bool, scheduled: bool, hdev: bool, inFlight: nat,
    rx: Rx, cb: Callback, dereg: Dereg, crashed: bool)

  datatype Action =
    | NotifyTest | NotifySchedule | NotifyDrop
    | StartRx | Continue | Stop
    | TakeLock | LoadDevice | GiveUp | Deliver | Arm | LoadPointer | TestQueue | TestLock | Unlock
    | Consume
    | Fire | CbTestQueue | CbTestLock | CbUnlock | CbRearm
    | Kill | Detach | SeeLock | DropLock | DeleteTimer | ClearTimer

  const INIT := State(false, 0, false, false, true, 0, RxIdle, CbIdle, Registered, false)

  predicate Enabled(s: State, a: Action)
  {
    !s.crashed &&
    match a
    case NotifyTest => true
    case NotifySchedule => s.inFlight > 0
    case NotifyDrop => s.inFlight > 0
    case StartRx => s.scheduled && s.rx.RxIdle?
    case Continue => s.rx.RxLoop?
    case Stop => s.rx.RxLoop?
    case TakeLock => s.rx.Entering?
    case LoadDevice => s.rx.Reading?
    case GiveUp => s.rx.Reading? || s.rx.Passing?
    case Deliver => s.rx.Passing?
    case Arm => s.rx.Delivered?
    case LoadPointer => s.rx.Releasing?
    case TestQueue => s.rx.Testing?
    case TestLock => s.rx.QueueSeenEmpty?
    case Unlock => s.rx.Unlocking?
    case Consume => s.queue > 0
    case Fire => s.pending && s.cb.CbIdle?
    case CbTestQueue => s.cb.CbStart?
    case CbTestLock => s.cb.CbQueueEmpty?
    case CbUnlock => s.cb.CbUnlocking?
    case CbRearm => s.cb.CbRearming?
    case Kill => s.dereg.Registered? && !s.scheduled && s.rx.RxIdle?
    case Detach => s.dereg.Killed?
    case SeeLock => s.dereg.Detached?
    case DropLock => s.dereg.LockSeen?
    case DeleteTimer => s.dereg.Released? && s.cb.CbIdle?
    case ClearTimer => s.dereg.TimerDeleted?
  }

  /** The event handler is followed by the data handler, the data handler by another round of the loop. */
  function AfterHandler(event: bool): Rx
  {
    if event then Entering(false) else RxLoop
  }

  /**
   * A channel callback that finds the pointer cleared does nothing. A handler that loads a cleared pointer
   * uses it at once, and a timer that fires with its function cleared has nothing to call: both crash. A frame
   * that the Bluetooth layer refuses is a GiveUp.
   */
  function Apply(s: State, a: Action): State
    requires Enabled(s, a)
  {
    match a
    case NotifyTest => if s.hdev then s.(inFlight := s.inFlight + 1) else s
    case NotifySchedule => s.(scheduled := true, inFlight := s.inFlight - 1)
    case NotifyDrop => s.(inFlight := s.inFlight - 1)
    case StartRx => s.(scheduled := false, rx := RxLoop)
    case Continue => s.(rx := Entering(true))
    case Stop => s.(rx := RxIdle)
    case TakeLock => s.(lock := true, rx := Reading(s.rx.event))
    case LoadDevice => if s.hdev then s.(rx := Passing(s.rx.event)) else s.(crashed := true)
    case GiveUp => s.(rx := Releasing(s.rx.event))
    case Deliver => s.(queue := s.queue + 1, rx := Delivered(s.rx.event))
    case Arm => s.(pending := true, rx := if s.rx.event then Reading(true) else Releasing(false))
    case LoadPointer => if s.hdev then s.(rx := Testing(s.rx.event)) else s.(crashed := true)
    case TestQueue => s.(rx := if s.queue == 0 then QueueSeenEmpty(s.rx.event) else AfterHandler(s.rx.event))
    case TestLock => s.(rx := if s.lock then Unlocking(s.rx.event) else AfterHandler(s.rx.event))
    case Unlock => s.(lock := false, rx := AfterHandler(s.rx.event))
    case Consume => s.(queue := s.queue - 1)
    case Fire => if s.dereg.Gone? then s.(crashed := true) else s.(pending := false, cb := CbStart)
    case CbTestQueue => s.(cb := if s.queue == 0 then CbQueueEmpty else CbRearming)
    case CbTestLock => s.(cb := if s.lock then CbUnlocking else CbRearming)
    case CbUnlock => s.(lock := false, cb := CbIdle)
    case CbRearm => s.(pending := true, cb := CbIdle)
    case Kill => s.(dereg := Killed)
    case Detach => s.(hdev := false, dereg := Detached)
    case SeeLock => s.(dereg := LockSeen(s.lock))
    case DropLock => s.(lock := s.lock && !s.dereg.active, dereg := Released)
    case DeleteTimer => s.(pending := false, dereg := TimerDeleted)
    case ClearTimer => s.(dereg := Gone)
  }

  ghost predicate Runs(s: State, actions: seq<Action>, s': State)
    decreases |actions|
  {
    if actions == [] then s == s'
    else Enabled(s, actions[0]) && Runs(Apply(s, actions[0]), actions[1..], s')
  }

  // ---------------------------------------------------------------- what a run says about the state it ends in

  function Count(actions: seq<Action>, a: Action): nat
  {
    if actions == [] then 0 else (if actions[0] == a then 1 else 0) + Count(actions[1..], a)
  }

  /** The flag after a run in which some actions set it and some clear it. */
  function LastMove(v: bool, actions: seq<Action>, setting: set<Action>, clearing: set<Action>): bool
    decreases |actions|
  {
    if actions == [] then v
    else LastMove(actions[0] in setting || (v && actions[0] !in clearing), actions[1..], setting, clearing)
  }

  /** Frames are neither lost nor doubled between the handlers and the consumer. */
  lemma {:induction false} QueueCounts(s: State, actions: seq<Action>, s': State)
    requires Runs(s, actions, s')
    ensures s'.queue + Count(actions, Consume) == s.queue + Count(actions, Deliver)
    decreases |actions|
  {
    hide Enabled, Apply;
    if actions != [] {
      QueueMoves(s, actions[0]);
      QueueCounts(Apply(s, actions[0]), actions[1..], s');
    }
  }

  lemma QueueMoves(s: State, a: Action)
    requires Enabled(s, a)
    ensures Apply(s, a).queue == s.queue + (if a.Deliver? then 1 else 0) - (if a.Consume? then 1 else 0)
  {
  }

  /** A channel callback goes on only if it has found the device pointer set, and then schedules the tasklet or not. */
  lemma {:induction false} CallbackCounts(s: State, actions: seq<Action>, s': State)
    requires Runs(s, actions, s')
    ensures !s.hdev ==> !s'.hdev
    ensures Detach !in actions || !s.hdev ==>
              s'.inFlight + Count(actions, NotifySchedule) + Count(actions, NotifyDrop)
              == s.inFlight + if s.hdev then Count(actions, NotifyTest) else 0
    decreases |actions|
  {
    hide Enabled, Apply;
    if actions != [] {
      CallbackMoves(s, actions[0]);
      PointerMoves(s, actions[0]);
      CallbackCounts(Apply(s, actions[0]), actions[1..], s');
      assert Detach !in actions ==> Detach !in actions[1..] && actions[0] != Detach;
    }
  }

  lemma CallbackMoves(s: State, a: Action)
    requires Enabled(s, a)
    ensures Apply(s, a).inFlight ==
            s.inFlight + (if a.NotifyTest? && s.hdev then 1 else 0)
            - (if a.NotifySchedule? then 1 else 0) - (if a.NotifyDrop? then 1 else 0)
  {
  }

  lemma PointerMoves(s: State, a: Action)
    requires Enabled(s, a)
    ensures Apply(s, a).hdev == (s.hdev && !a.Detach?)
  {
  }

  /** Short of a crash, each flag is as the last action that moves it left it; DropLock is told in DropsWhatWasSeen. */
  lemma {:induction false} FlagsByLastMove(s: State, actions: seq<Action>, s': State)
    requires Runs(s, actions, s') && !s'.crashed
    ensures s'.pending == LastMove(s.pending, actions, {Arm, CbRearm}, {Fire, DeleteTimer})
    ensures s'.scheduled == LastMove(s.scheduled, actions, {NotifySchedule}, {StartRx})
    ensures s'.hdev == LastMove(s.hdev, actions, {}, {Detach})
    ensures DropLock !in actions ==> s'.lock == LastMove(s.lock, actions, {TakeLock}, {Unlock, CbUnlock})
    decreases |actions|
  {
    hide Enabled, Apply;
    if actions != [] {
      var a, s1 := actions[0], Apply(s, actions[0]);
      FlagsByLastMove(s1, actions[1..], s');
      assert DropLock !in actions ==> DropLock !in actions[1..] && a != DropLock;
      if s1.crashed {
        CrashIsLast(s1, actions[1..], s');
      } else {
        FlagsMove(s, a);
        PointerMoves(s, a);
      }
    }
  }

  lemma CrashIsLast(s: State, actions: seq<Action>, s': State)
    requires s.crashed && Runs(s, actions, s')
    ensures actions == [] && s' == s
  {
  }

  lemma FlagsMove(s: State, a: Action)
    requires Enabled(s, a) && !Apply(s, a).crashed
    ensures Apply(s, a).pending == (a.Arm? || a.CbRearm? || (s.pending && !a.Fire? && !a.DeleteTimer?))
    ensures Apply(s, a).scheduled == (a.NotifySchedule? || (s.scheduled && !a.StartRx?))
    ensures !a.DropLock? ==> Apply(s, a).lock == (a.TakeLock? || (s.lock && !a.Unlock? && !a.CbUnlock?))
  {
  }

  /** Deregistration drops the lock exactly if it has seen it held, whatever happens in between. */
  lemma DropsWhatWasSeen(s: State, between: seq<Action>, m: State)
    requires Enabled(s, SeeLock) && Runs(Apply(s, SeeLock), between, m) && DropLock !in between && !m.crashed
    ensures Enabled(m, DropLock)
    ensures Apply(m, DropLock) ==
            m.(dereg := Released,
               lock := !s.lock && LastMove(false, between, {TakeLock}, {Unlock, CbUnlock}))
  {
    FlagsByLastMove(Apply(s, SeeLock), between, m);
    SeenStays(Apply(s, SeeLock), between, m);
  }

  lemma {:induction false} SeenStays(s: State, actions: seq<Action>, s': State)
    requires s.dereg.LockSeen? && Runs(s, actions, s') && DropLock !in actions
    ensures s'.dereg == s.dereg
    decreases |actions|
  {
    hide Enabled, Apply;
    if actions != [] {
      assert actions[0] in actions;
      StageMoves(s, actions[0]);
      SeenStays(Apply(s, actions[0]), actions[1..], s');
    }
  }

  /** A crash is a use of the cleared pointer, or a timer that fires with its function cleared. */
  lemma CrashesExactly(s: State, a: Action)
    requires Enabled(s, a)
    ensures Apply(s, a).crashed <==>
            (!s.hdev && (a.LoadDevice? || a.LoadPointer?)) || (a.Fire? && s.dereg.Gone?)
    ensures Apply(s, a).crashed ==> Apply(s, a) == s.(crashed := true)
  {
  }

  /** The actions of a run that are among the given ones, in order. */
  function Only(actions: seq<Action>, some: set<Action>): seq<Action>
  {
    if actions == [] then []
    else (if actions[0] in some then [actions[0]] else []) + Only(actions[1..], some)
  }

  function Stage(dereg: Dereg): (n: nat)
    ensures n <= 6
  {
    match dereg
    case Registered => 0
    case Killed => 1
    case Detached => 2
    case LockSeen(_) => 3
    case Released => 4
    case TimerDeleted => 5
    case Gone => 6
  }

  lemma StageMoves(s: State, a: Action)
    requires Enabled(s, a)
    ensures var d := [Kill, Detach, SeeLock, DropLock, DeleteTimer, ClearTimer];
            if a in d then
              Stage(s.dereg) < 6 && a == d[Stage(s.dereg)] && Stage(Apply(s, a).dereg) == Stage(s.dereg) + 1
            else
              Apply(s, a).dereg == s.dereg
  {
  }

  /** Deregistration takes its six steps in order and once. */
  lemma {:induction false} DeregistersInOrder(s: State, actions: seq<Action>, s': State)
    requires Runs(s, actions, s')
    ensures Stage(s.dereg) <= Stage(s'.dereg)
    ensures Only(actions, set a | a in [Kill, Detach, SeeLock, DropLock, DeleteTimer, ClearTimer])
         == [Kill, Detach, SeeLock, DropLock, DeleteTimer, ClearTimer][Stage(s.dereg)..Stage(s'.dereg)]
    decreases |actions|
  {
    hide Enabled, Apply, Stage;
    if actions != [] {
      var d := [Kill, Detach, SeeLock, DropLock, DeleteTimer, ClearTimer];
      StageMoves(s, actions[0]);
      DeregistersInOrder(Apply(s, actions[0]), actions[1..], s');
      assert forall k, n | 0 <= k < n <= 6 :: d[k..n] == [d[k]] + d[k + 1..n];
    }
  }

  // ---------------------------------------------------------------- the threads one by one

  /** Steps of the tasklet itself. */
  predicate OfTasklet(a: Action)
  {
    || a.StartRx? || a.Continue? || a.Stop? || a.TakeLock? || a.LoadDevice? || a.GiveUp? || a.Deliver? || a.Arm?
    || a.LoadPointer? || a.TestQueue? || a.TestLock? || a.Unlock?
  }

  lemma OthersLeaveTasklet(s: State, a: Action)
    requires Enabled(s, a) && !OfTasklet(a)
    ensures Apply(s, a).rx == s.rx
  {
  }

  /** Locks still to be taken in this round of the tasklet's loop, which runs both handlers. */
  function LocksAhead(rx: Rx): nat
  {
    match rx
    case Entering(event) => if event then 2 else 1
    case RxIdle => 0
    case RxLoop => 0
    case _ => if rx.event then 1 else 0
  }

  lemma LocksMove(s: State, a: Action)
    requires Enabled(s, a) && !s.rx.RxIdle? && !a.Continue? && !a.Stop?
    ensures LocksAhead(Apply(s, a).rx) + (if a.TakeLock? then 1 else 0) == LocksAhead(s.rx)
    ensures !Apply(s, a).rx.RxIdle?
  {
    if !OfTasklet(a) {
      OthersLeaveTasklet(s, a);
      hide Apply, Enabled;
    }
  }

  /** A round of the loop takes the lock once for events and once for data. */
  lemma {:induction false} RoundTakesLockTwice(s: State, actions: seq<Action>, s': State)
    requires Runs(s, actions, s') && !s.rx.RxIdle? && Continue !in actions && Stop !in actions
    ensures Count(actions, TakeLock) + LocksAhead(s'.rx) == LocksAhead(s.rx) && !s'.rx.RxIdle?
    decreases |actions|
  {
    hide Enabled, Apply, LocksAhead;
    if actions != [] {
      assert actions[0] in actions;
      LocksMove(s, actions[0]);
      RoundTakesLockTwice(Apply(s, actions[0]), actions[1..], s');
    }
  }

  /** Frames the data handler may still queue. */
  function DataAhead(rx: Rx): nat
  {
    if (rx.Entering? || rx.Reading? || rx.Passing?) && !rx.event then 1 else 0
  }

  predicate InData(rx: Rx)
  {
    rx.RxLoop? || (!rx.RxIdle? && !rx.event)
  }

  lemma DataAtMostOne(rx: Rx)
    ensures DataAhead(rx) <= 1
  {
  }

  lemma DataMoves(s: State, a: Action)
    requires Enabled(s, a) && InData(s.rx) && !a.Continue? && !a.Stop?
    ensures InData(Apply(s, a).rx)
    ensures DataAhead(Apply(s, a).rx) + (if a.Deliver? then 1 else 0) <= DataAhead(s.rx)
  {
    if !OfTasklet(a) {
      OthersLeaveTasklet(s, a);
      hide Apply, Enabled;
    }
  }

  /** The data handler queues one frame at most. */
  lemma {:induction false} DataHandlerDeliversOnce(s: State, actions: seq<Action>, s': State)
    requires Runs(s, actions, s') && InData(s.rx) && Continue !in actions && Stop !in actions
    ensures InData(s'.rx) && Count(actions, Deliver) + DataAhead(s'.rx) <= DataAhead(s.rx) <= 1
    decreases |actions|
  {
    hide Enabled, Apply, DataAhead, InData;
    DataAtMostOne(s.rx);
    if actions != [] {
      assert actions[0] in actions;
      DataMoves(s, actions[0]);
      DataHandlerDeliversOnce(Apply(s, actions[0]), actions[1..], s');
    }
  }

  lemma RunsThree(s: State, a: Action, b: Action, c: Action)
    requires Enabled(s, a) && Enabled(Apply(s, a), b) && Enabled(Apply(Apply(s, a), b), c)
    ensures Runs(s, [a, b, c], Apply(Apply(Apply(s, a), b), c))
  {
    hide Enabled, Apply;
    RunsTwo(Apply(s, a), b, c);
    RunsCons(s, a, [b, c], Apply(Apply(Apply(s, a), b), c));
    assert [a] + [b, c] == [a, b, c];
  }

  /** The event handler may queue any number of frames; each starts the timer, and the lock stays held. */
  lemma {:induction false} EventHandlerDelivers(s: State, n: nat) returns (actions: seq<Action>, s': State)
    requires !s.crashed && s.hdev && s.rx == Reading(true)
    ensures Runs(s, actions, s') && s' == s.(queue := s.queue + n, pending := s.pending || n > 0)
    decreases n
  {
    if n == 0 {
      return [], s;
    }
    var s1 := Apply(Apply(Apply(s, LoadDevice), Deliver), Arm);
    RunsThree(s, LoadDevice, Deliver, Arm);
    var rest;
    rest, s' := EventHandlerDelivers(s1, n - 1);
    RunsAppend(s, [LoadDevice, Deliver, Arm], s1, rest, s');
    actions := [LoadDevice, Deliver, Arm] + rest;
  }

  /** Where release_lock is between its start and its end. */
  predicate InRelease(rx: Rx, event: bool)
  {
    rx in {Releasing(event), Testing(event), QueueSeenEmpty(event), Unlocking(event), AfterHandler(event)}
  }

  /** The lock that release_lock is going to leave if nothing else runs. */
  function LockLeft(s: State): bool
  {
    match s.rx
    case Releasing(_) => s.lock && s.queue > 0
    case Testing(_) => s.lock && s.queue > 0
    case QueueSeenEmpty(_) => false
    case Unlocking(_) => false
    case _ => s.lock
  }

  lemma ReleaseStep(s: State, a: Action, event: bool)
    requires Enabled(s, a) && a in {LoadPointer, TestQueue, TestLock, Unlock} && s.hdev && InRelease(s.rx, event)
    ensures var s1 := Apply(s, a);
            InRelease(s1.rx, event) && LockLeft(s1) == LockLeft(s) && s1 == s.(rx := s1.rx, lock := s1.lock)
    ensures s.rx != AfterHandler(event)
  {
  }

  lemma {:induction false} ReleaseRun(s: State, actions: seq<Action>, s': State, event: bool)
    requires Runs(s, actions, s') && s.hdev && InRelease(s.rx, event) && s'.rx == AfterHandler(event)
    requires forall a :: a in actions ==> a in {LoadPointer, TestQueue, TestLock, Unlock}
    ensures s' == s.(rx := s'.rx, lock := LockLeft(s))
    decreases |actions|
  {
    hide Enabled, Apply, InRelease;
    if actions != [] {
      assert actions[0] in actions;
      assert forall a :: a in actions[1..] ==> a in actions;
      ReleaseStep(s, actions[0], event);
      ReleaseRun(Apply(s, actions[0]), actions[1..], s', event);
    }
  }

  /** On its own, release_lock unlocks if the queue is empty, and changes nothing else. */
  lemma ReleaseAlone(s: State, actions: seq<Action>, s': State)
    requires Runs(s, actions, s') && s.rx.Releasing? && s.hdev
    requires forall a :: a in actions ==> a in {LoadPointer, TestQueue, TestLock, Unlock}
    requires s'.rx == if s.rx.event then Entering(false) else RxLoop
    ensures s' == s.(rx := s'.rx, lock := s.lock && s.queue > 0)
  {
    hide Runs;
    ReleaseRun(s, actions, s', s.rx.event);
  }

  function UnlockedBy(s: State): State
  {
    s.(cb := CbIdle, lock := false)
  }

  function RearmedBy(s: State): State
  {
    s.(cb := CbIdle, pending := true)
  }

  /** The flags the timer callback is going to leave if nothing else runs. */
  function CallbackLeaves(s: State): State
  {
    match s.cb
    case CbIdle => s
    case CbStart => if s.queue == 0 && s.lock then UnlockedBy(s) else RearmedBy(s)
    case CbQueueEmpty => if s.lock then UnlockedBy(s) else RearmedBy(s)
    case CbUnlocking => UnlockedBy(s)
    case CbRearming => RearmedBy(s)
  }

  lemma CallbackLeavesSame(s: State, a: Action)
    requires Enabled(s, a) && a in {CbTestQueue, CbTestLock, CbUnlock, CbRearm}
    ensures CallbackLeaves(Apply(s, a)) == CallbackLeaves(s)
  {
  }

  lemma {:induction false} CallbackRun(s: State, actions: seq<Action>, s': State)
    requires Runs(s, actions, s') && s'.cb.CbIdle?
    requires forall a :: a in actions ==> a in {CbTestQueue, CbTestLock, CbUnlock, CbRearm}
    ensures s' == CallbackLeaves(s)
    decreases |actions|
  {
    hide Enabled, Apply;
    if actions != [] {
      assert actions[0] in actions;
      assert forall a :: a in actions[1..] ==> a in actions;
      CallbackLeavesSame(s, actions[0]);
      CallbackRun(Apply(s, actions[0]), actions[1..], s');
    }
  }

  /** On its own, the timer callback unlocks a held lock if the queue is empty, and otherwise starts the timer again. */
  lemma CallbackAlone(s: State, actions: seq<Action>, s': State)
    requires Runs(s, actions, s') && s.cb.CbStart? && s'.cb.CbIdle?
    requires forall a :: a in actions ==> a in {CbTestQueue, CbTestLock, CbUnlock, CbRearm}
    ensures s.queue == 0 && s.lock ==> s' == s.(cb := CbIdle, lock := false)
    ensures s.queue > 0 || !s.lock ==> s' == s.(cb := CbIdle, pending := true)
  {
    hide Runs;
    CallbackRun(s, actions, s');
  }

  // ---------------------------------------------------------------- the lock never leaks

  /** A receive handler runs between taking the lock and the end of release_lock. */
  predicate InHandler(rx: Rx)
  {
    !rx.RxIdle? && !rx.RxLoop? && !rx.Entering?
  }

  predicate TimerWorks(s: State)
  {
    s.pending || !s.cb.CbIdle?
  }

  /** A callback that has not looked at the queue yet, or has found it filled, is going to look again. */
  predicate WillLook(s: State)
  {
    s.pending || s.cb.CbStart? || s.cb.CbRearming?
  }

  predicate TimerInUse(dereg: Dereg)
  {
    !dereg.TimerDeleted? && !dereg.Gone?
  }

  predicate Inv(s: State)
  {
    PointerInv(s) && FramesInv(s) && LockInv(s)
  }

  lemma StepKeepsInv(s: State, a: Action)
    requires Inv(s) && Enabled(s, a)
    ensures Inv(Apply(s, a))
  {
    PointerStep(s, a);
    FramesStep(s, a);
    LockStep(s, a);
    hide Apply, Enabled;
  }

  predicate PointerInv(s: State)
  {
    s.hdev <==> s.dereg.Registered? || s.dereg.Killed?
  }

  /** A queued frame is watched, except between its delivery and the start of the timer. */
  predicate FramesInv(s: State)
  {
    TimerInUse(s.dereg) && s.queue > 0 && !s.rx.Delivered? ==> WillLook(s)
  }

  /** A lock nobody is going to release is watched. */
  predicate LockInv(s: State)
  {
    TimerInUse(s.dereg) && s.lock && !InHandler(s.rx) ==> TimerWorks(s)
  }

  lemma PointerStep(s: State, a: Action)
    requires PointerInv(s) && Enabled(s, a)
    ensures PointerInv(Apply(s, a))
  {
  }

  lemma FramesStep(s: State, a: Action)
    requires FramesInv(s) && Enabled(s, a)
    ensures FramesInv(Apply(s, a))
  {
  }

  lemma LockStep(s: State, a: Action)
    requires FramesInv(s) && LockInv(s) && Enabled(s, a)
    ensures LockInv(Apply(s, a))
  {
  }

  lemma {:induction false} RunKeepsInv(s: State, actions: seq<Action>, s': State)
    requires Inv(s) && Runs(s, actions, s')
    ensures Inv(s')
    decreases |actions|
  {
    hide Inv, Enabled, Apply;
    if actions != [] {
      StepKeepsInv(s, actions[0]);
      RunKeepsInv(Apply(s, actions[0]), actions[1..], s');
    }
  }

  lemma TimerWorksOn(s: State, a: Action)
    requires Enabled(s, a) && TimerWorks(s) && !a.CbUnlock? && !a.DeleteTimer?
    ensures TimerWorks(Apply(s, a))
  {
  }

  /** Once it works, the timer stops only by releasing the lock or by being deleted. */
  lemma {:induction false} TimerKeepsWorking(s: State, actions: seq<Action>, s': State)
    requires Runs(s, actions, s') && (s.pending || !s.cb.CbIdle?)
    requires CbUnlock !in actions && DeleteTimer !in actions
    ensures s'.pending || !s'.cb.CbIdle?
    decreases |actions|
  {
    hide Enabled, Apply;
    if actions != [] {
      assert actions[0] in actions;
      TimerWorksOn(s, actions[0]);
      TimerKeepsWorking(Apply(s, actions[0]), actions[1..], s');
    }
  }

  /**
   * Under every interleaving: until the timer is deleted, a held wake lock with no receive handler running has
   * its timer pending or its callback running.
   */
  lemma LockIsWatched(actions: seq<Action>, s: State)
    requires Runs(INIT, actions, s) && TimerInUse(s.dereg)
    ensures s.lock && !InHandler(s.rx) ==> s.pending || !s.cb.CbIdle?
  {
    RunKeepsInv(INIT, actions, s);
  }

  lemma RunsCons(s: State, a: Action, rest: seq<Action>, s': State)
    requires Enabled(s, a) && Runs(Apply(s, a), rest, s')
    ensures Runs(s, [a] + rest, s')
  {
  }

  lemma {:induction false} RunsAppend(s: State, a: seq<Action>, m: State, b: seq<Action>, s': State)
    requires Runs(s, a, m) && Runs(m, b, s')
    ensures Runs(s, a + b, s')
    decreases |a|
  {
    hide Enabled, Apply;
    if a == [] {
      assert a + b == b;
    } else {
      assert (a + b)[1..] == a[1..] + b;
      RunsAppend(Apply(s, a[0]), a[1..], m, b, s');
    }
  }

  // ---------------------------------------------------------------- the watched lock is released

  predicate Outside(a: Action)
  {
    a.Consume? || a.Fire? || a.CbTestQueue? || a.CbTestLock? || a.CbUnlock? || a.CbRearm?
  }

  /** Steps the callback needs to unlock, once the queue is empty and the lock is held. */
  function ToUnlock(cb: Callback): nat
  {
    match cb case CbUnlocking => 1 case CbQueueEmpty => 2 case CbStart => 3 case CbIdle => 4 case CbRearming => 5
  }

  function CallbackStep(cb: Callback): Action
  {
    match cb
    case CbIdle => Fire
    case CbStart => CbTestQueue
    case CbQueueEmpty => CbTestLock
    case CbUnlocking => CbUnlock
    case CbRearming => CbRearm
  }

  lemma {:induction false} CallbackUnlocks(s: State) returns (actions: seq<Action>, s': State)
    requires s.lock && TimerWorks(s) && !s.crashed && TimerInUse(s.dereg)
    ensures Runs(s, actions, s') && !s'.lock && s'.rx == s.rx && s'.dereg == s.dereg
    ensures forall a :: a in actions ==> Outside(a)
    decreases s.queue, ToUnlock(s.cb)
  {
    var a := if s.queue > 0 then Consume else CallbackStep(s.cb);
    var s1 := Apply(s, a);
    if s1.lock {
      var rest;
      rest, s' := CallbackUnlocks(s1);
      RunsCons(s, a, rest, s');
      actions := [a] + rest;
    } else {
      s' := s1;
      assert Runs(s1, [], s1);
      RunsCons(s, a, [], s1);
      actions := [a] + [];
    }
  }

  /** A held lock can always be released by the consumer and the timer alone, without another received frame. */
  lemma LockCanBeReleased(before: seq<Action>, s: State) returns (actions: seq<Action>, s': State)
    requires Runs(INIT, before, s) && !s.crashed && TimerInUse(s.dereg)
    requires s.lock && !InHandler(s.rx)
    ensures Runs(s, actions, s') && !s'.lock && s'.rx == s.rx
    ensures forall a :: a in actions ==> Outside(a)
  {
    LockIsWatched(before, s);
    actions, s' := CallbackUnlocks(s);
  }

  // ---------------------------------------------------------------- deregistration

  /** The device pointer has just been cleared, in a run of the driver. */
  ghost predicate JustDetached(s: State)
  {
    s.dereg.Detached? && !s.crashed && exists before :: Runs(INIT, before, s)
  }

  lemma PointerIsCleared(s: State)
    requires JustDetached(s)
    ensures !s.hdev
  {
    var before :| Runs(INIT, before, s);
    RunKeepsInv(INIT, before, s);
  }

  /** Nothing that receives is running, scheduled or about to be scheduled. */
  predicate Quiet(s: State)
  {
    s.rx.RxIdle? && !s.scheduled && s.inFlight == 0
  }

  /** No run crashes, and every completed deregistration leaves the lock free and the timer dead. */
  ghost predicate EndsClean(s: State)
  {
    forall actions, s' | Runs(s, actions, s') :: !s'.crashed && (s'.dereg.Gone? ==> !s'.lock && !TimerWorks(s'))
  }

  ghost predicate CanCrash(s: State)
  {
    exists actions, s' :: Runs(s, actions, s') && s'.crashed
  }

  /** Deregistration and tasklet are over, and no callback is left to start the tasklet again. */
  predicate AtRest(s: State)
  {
    !s.crashed && s.dereg.Gone? && Quiet(s)
  }

  ghost predicate CanFinish(s: State)
  {
    exists actions, s' :: Runs(s, actions, s') && AtRest(s')
  }

  /** The tasklet still has to load the device pointer before it can leave the handlers. */
  predicate Doomed(rx: Rx)
  {
    match rx
    case Entering(_) => true
    case Reading(_) => true
    case Passing(_) => true
    case Delivered(_) => true
    case Releasing(_) => true
    case Testing(event) => event
    case QueueSeenEmpty(event) => event
    case Unlocking(event) => event
    case RxIdle => false
    case RxLoop => false
  }

  /** The handler may have taken the lock, or started the timer, since the pointer was cleared. */
  predicate Unreleased(rx: Rx)
  {
    rx.Reading? || rx.Passing? || rx.Delivered? || rx.Releasing?
  }

  // ---------------------------------------------------------------- a quiet driver ends clean

  predicate QuietInv(s: State)
  {
    && !s.crashed && !s.hdev && Quiet(s)
    && !s.dereg.Registered? && !s.dereg.Killed?
    && (s.dereg == LockSeen(false) ==> !s.lock)
    && (s.dereg.Released? || s.dereg.TimerDeleted? || s.dereg.Gone? ==> !s.lock)
    && (s.dereg.TimerDeleted? || s.dereg.Gone? ==> !TimerWorks(s))
  }

  lemma QuietStep(s: State, a: Action)
    requires QuietInv(s) && Enabled(s, a)
    ensures QuietInv(Apply(s, a))
  {
  }

  lemma {:induction false} QuietStays(s: State, actions: seq<Action>, s': State)
    requires QuietInv(s) && Runs(s, actions, s')
    ensures QuietInv(s')
    decreases |actions|
  {
    hide QuietInv, Enabled, Apply;
    if actions != [] {
      QuietStep(s, actions[0]);
      QuietStays(Apply(s, actions[0]), actions[1..], s');
    }
  }

  // ---------------------------------------------------------------- otherwise it can crash

  function CrashStep(s: State): Action
  {
    match s.rx
    case RxIdle => if s.scheduled then StartRx else NotifySchedule
    case RxLoop => Continue
    case Entering(_) => TakeLock
    case Reading(_) => GiveUp
    case Passing(_) => GiveUp
    case Delivered(_) => Arm
    case Releasing(_) => LoadPointer
    case Testing(_) => TestQueue
    case QueueSeenEmpty(_) => TestLock
    case Unlocking(_) => Unlock
  }

  /** Steps left on the shortest way to the next load of the pointer. */
  function ToCrash(s: State): nat
  {
    match s.rx
    case RxIdle => if s.scheduled then 8 else 9
    case RxLoop => 4
    case Entering(_) => 3
    case Reading(_) => 2
    case Passing(_) => 2
    case Delivered(_) => 3
    case Releasing(_) => 1
    case Testing(_) => 7
    case QueueSeenEmpty(_) => 6
    case Unlocking(_) => 5
  }

  lemma CrashStepWorks(s: State)
    requires !s.crashed && !s.hdev && !Quiet(s)
    ensures Enabled(s, CrashStep(s))
    ensures var s1 := Apply(s, CrashStep(s));
            !s1.hdev && (s1.crashed || (!Quiet(s1) && ToCrash(s1) < ToCrash(s)))
  {
  }

  lemma {:induction false} ReachCrash(s: State) returns (actions: seq<Action>, s': State)
    requires !s.crashed && !s.hdev && !Quiet(s)
    ensures Runs(s, actions, s') && s'.crashed
    decreases ToCrash(s)
  {
    hide Enabled, Apply, ToCrash, Quiet;
    CrashStepWorks(s);
    var a := CrashStep(s);
    var s1 := Apply(s, a);
    if s1.crashed {
      s' := s1;
      assert Runs(s1, [], s1);
      RunsCons(s, a, [], s1);
      actions := [a] + [];
    } else {
      var rest;
      rest, s' := ReachCrash(s1);
      RunsCons(s, a, rest, s');
      actions := [a] + rest;
    }
  }

  /**
   * The driver ends a deregistration clean exactly when, at the moment it clears the device pointer, the
   * tasklet is idle and not scheduled and no channel callback is between its pointer test and its scheduling.
   */
  lemma DeregistrationEndsClean(s: State)
    requires JustDetached(s)
    ensures EndsClean(s) <==> Quiet(s)
    ensures CanCrash(s) <==> !Quiet(s)
  {
    hide Quiet, Runs;
    PointerIsCleared(s);
    if Quiet(s) {
      assert QuietInv(s);
      forall actions, s' | Runs(s, actions, s') ensures QuietInv(s') {
        QuietStays(s, actions, s');
      }
    } else {
      var actions, s' := ReachCrash(s);
    }
  }

  // ---------------------------------------------------------------- a tasklet that cannot finish

  predicate DoomedInv(s: State)
  {
    !s.hdev && Doomed(s.rx) && !s.dereg.Registered? && !s.dereg.Killed?
  }

  lemma DoomedStep(s: State, a: Action)
    requires DoomedInv(s) && Enabled(s, a)
    ensures DoomedInv(Apply(s, a))
  {
  }

  lemma {:induction false} DoomedStays(s: State, actions: seq<Action>, s': State)
    requires DoomedInv(s) && Runs(s, actions, s')
    ensures DoomedInv(s')
    decreases |actions|
  {
    hide DoomedInv, Enabled, Apply;
    if actions != [] {
      DoomedStep(s, actions[0]);
      DoomedStays(Apply(s, actions[0]), actions[1..], s');
    }
  }

  function RestStep(s: State): Action
  {
    if s.inFlight > 0 then NotifyDrop
    else
      match s.rx
      case RxLoop => Stop
      case Testing(_) => TestQueue
      case QueueSeenEmpty(_) => TestLock
      case Unlocking(_) => Unlock
      case _ => StartRx
  }

  function ToRest(rx: Rx): nat
  {
    match rx case RxLoop => 1 case Unlocking(_) => 2 case QueueSeenEmpty(_) => 3 case Testing(_) => 4 case _ => 0
  }

  lemma RestStepWorks(s: State)
    requires !s.crashed && !s.hdev && !Doomed(s.rx) && !Quiet(s)
    ensures Enabled(s, RestStep(s))
    ensures var s1 := Apply(s, RestStep(s));
            && !s1.crashed && !s1.hdev && !Doomed(s1.rx) && s1.dereg == s.dereg
            && (s1.inFlight < s.inFlight
                || (s1.inFlight == s.inFlight && !s1.scheduled && s.scheduled)
                || (s1.inFlight == s.inFlight && s1.scheduled == s.scheduled && ToRest(s1.rx) < ToRest(s.rx)))
  {
  }

  lemma {:induction false} ReachQuiet(s: State) returns (actions: seq<Action>, s': State)
    requires !s.crashed && !s.hdev && !Doomed(s.rx)
    ensures Runs(s, actions, s') && !s'.crashed && !s'.hdev && Quiet(s') && s'.dereg == s.dereg
    decreases s.inFlight, s.scheduled, ToRest(s.rx)
  {
    hide Enabled, Apply, Doomed, Quiet, ToRest;
    if Quiet(s) {
      return [], s;
    }
    RestStepWorks(s);
    var a := RestStep(s);
    var rest;
    rest, s' := ReachQuiet(Apply(s, a));
    RunsCons(s, a, rest, s');
    actions := [a] + rest;
  }

  function ToCbIdle(cb: Callback): nat
  {
    match cb case CbIdle => 0 case CbRearming => 1 case CbUnlocking => 1 case CbQueueEmpty => 2 case CbStart => 3
  }

  lemma {:induction false} ReachCbIdle(s: State) returns (actions: seq<Action>, s': State)
    requires !s.crashed
    ensures Runs(s, actions, s') && s'.cb.CbIdle? && s' == s.(lock := s'.lock, pending := s'.pending, cb := CbIdle)
    decreases ToCbIdle(s.cb)
  {
    if s.cb.CbIdle? {
      return [], s;
    }
    var a := CallbackStep(s.cb);
    var rest;
    rest, s' := ReachCbIdle(Apply(s, a));
    RunsCons(s, a, rest, s');
    actions := [a] + rest;
  }

  lemma RunsTwo(s: State, a: Action, b: Action)
    requires Enabled(s, a) && Enabled(Apply(s, a), b)
    ensures Runs(s, [a, b], Apply(Apply(s, a), b))
  {
    hide Enabled, Apply;
    var s' := Apply(Apply(s, a), b);
    assert Runs(s', [], s');
    assert [a, b][1..] == [b] && [b][1..] == [];
    assert Runs(Apply(s, a), [b], s');
  }

  /** Deregistration itself never waits for more than the timer callback. */
  lemma ReachGone(s: State) returns (actions: seq<Action>, s': State)
    requires s.dereg.Detached? && !s.crashed && Quiet(s)
    ensures Runs(s, actions, s') && AtRest(s')
  {
    hide Runs;
    var s2 := Apply(Apply(s, SeeLock), DropLock);
    RunsTwo(s, SeeLock, DropLock);
    var a2, s3 := ReachCbIdle(s2);
    s' := Apply(Apply(s3, DeleteTimer), ClearTimer);
    RunsTwo(s3, DeleteTimer, ClearTimer);
    RunsAppend(s2, a2, s3, [DeleteTimer, ClearTimer], s');
    RunsAppend(s, [SeeLock, DropLock], s2, a2 + [DeleteTimer, ClearTimer], s');
    actions := [SeeLock, DropLock] + (a2 + [DeleteTimer, ClearTimer]);
  }

  /**
   * The driver can come to rest exactly when the tasklet has no load of the cleared pointer in front of it;
   * otherwise the tasklet never leaves its handlers again, except by a crash.
   */
  lemma DeregistrationCanFinish(s: State)
    requires JustDetached(s)
    ensures CanFinish(s) <==> !Doomed(s.rx)
  {
    PointerIsCleared(s);
    if Doomed(s.rx) {
      forall actions, s' | Runs(s, actions, s') ensures !AtRest(s') {
        DoomedStays(s, actions, s');
      }
    } else {
      var a1, s1 := ReachQuiet(s);
      var a2, s2 := ReachGone(s1);
      RunsAppend(s, a1, s1, a2, s2);
    }
  }

  // ---------------------------------------------------------------- no silent leak

  /** Once seen free or dropped, the lock is held again only by a handler that has not released it yet. */
  predicate LeakInv(s: State)
  {
    && !s.hdev
    && !s.dereg.Registered? && !s.dereg.Killed?
    && (!s.dereg.Detached? && s.dereg != LockSeen(true) && s.lock ==> Unreleased(s.rx))
    && (!TimerInUse(s.dereg) && TimerWorks(s) ==> Unreleased(s.rx))
  }

  lemma LeakStep(s: State, a: Action)
    requires LeakInv(s) && Enabled(s, a)
    ensures LeakInv(Apply(s, a))
  {
  }

  lemma {:induction false} LeakInvStays(s: State, actions: seq<Action>, s': State)
    requires LeakInv(s) && Runs(s, actions, s')
    ensures LeakInv(s')
    decreases |actions|
  {
    hide LeakInv, Enabled, Apply;
    if actions != [] {
      LeakStep(s, actions[0]);
      LeakInvStays(Apply(s, actions[0]), actions[1..], s');
    }
  }

  /**
   * Whatever runs at the time, a completed deregistration never leaves the lock held or the timer alive
   * outside a handler that is about to crash: it ends clean or it crashes.
   */
  lemma NoSilentLeak(s: State, actions: seq<Action>, s': State)
    requires JustDetached(s) && Runs(s, actions, s') && s'.dereg.Gone?
    ensures Unreleased(s'.rx) || (!s'.lock && !TimerWorks(s'))
    ensures AtRest(s') ==> !s'.lock && !TimerWorks(s')
  {
    PointerIsCleared(s);
    assert LeakInv(s);
    LeakInvStays(s, actions, s');
  }

  // ---------------------------------------------------------------- channel events

  predicate NoCallbackInv(s: State)
  {
    && !s.crashed && Quiet(s)
    && ((s.dereg.Killed? && s.hdev) || QuietInv(s))
  }

  lemma NoCallbackStep(s: State, a: Action)
    requires NoCallbackInv(s) && Enabled(s, a) && !a.NotifyTest?
    ensures NoCallbackInv(Apply(s, a))
  {
  }

  lemma {:induction false} NoCallbackStays(s: State, actions: seq<Action>, s': State)
    requires NoCallbackInv(s) && Runs(s, actions, s') && NotifyTest !in actions
    ensures NoCallbackInv(s')
    decreases |actions|
  {
    hide NoCallbackInv, Enabled, Apply;
    if actions != [] {
      assert actions[0] in actions;
      NoCallbackStep(s, actions[0]);
      NoCallbackStays(Apply(s, actions[0]), actions[1..], s');
    }
  }

  /** Without a channel callback in flight or starting after tasklet_kill, the end is clean and nothing crashes. */
  lemma KillWithoutEvents(before: seq<Action>, s: State, actions: seq<Action>, s': State)
    requires Runs(INIT, before, s) && Enabled(s, Kill) && s.inFlight == 0
    requires Runs(Apply(s, Kill), actions, s') && NotifyTest !in actions
    ensures !s'.crashed && (s'.dereg.Gone? ==> !s'.lock && !TimerWorks(s'))
  {
    RunKeepsInv(INIT, before, s);
    NoCallbackStays(Apply(s, Kill), actions, s');
  }

  /** A callback has seen the pointer set before it was cleared and schedules the tasklet afterwards. */
  const LATE := State(false, 0, false, true, false, 0, RxIdle, CbIdle, Detached, false)

  lemma CallbackSlipsThrough()
    ensures Runs(INIT, [NotifyTest, Kill] + [Detach, NotifySchedule], LATE)
  {
    var s2 := Apply(Apply(INIT, NotifyTest), Kill);
    RunsTwo(INIT, NotifyTest, Kill);
    RunsTwo(s2, Detach, NotifySchedule);
    hide Runs;
    RunsAppend(INIT, [NotifyTest, Kill], s2, [Detach, NotifySchedule], LATE);
  }

  lemma TaskletCrashes() returns (s: State)
    ensures Runs(LATE, [StartRx, Continue] + ([TakeLock, GiveUp] + [LoadPointer]), s)
    ensures s.crashed && s.lock && s.rx == Releasing(true)
  {
    var s2 := Apply(Apply(LATE, StartRx), Continue);
    var s4 := Apply(Apply(s2, TakeLock), GiveUp);
    s := Apply(s4, LoadPointer);
    RunsTwo(LATE, StartRx, Continue);
    RunsTwo(s2, TakeLock, GiveUp);
    assert Runs(s, [], s);
    RunsCons(s4, LoadPointer, [], s);
    assert [LoadPointer] + [] == [LoadPointer];
    hide Runs;
    RunsAppend(s2, [TakeLock, GiveUp], s4, [LoadPointer], s);
    RunsAppend(LATE, [StartRx, Continue], s2, [TakeLock, GiveUp] + [LoadPointer], s);
  }

  /**
   * One channel callback is enough: it sees the pointer set, the pointer is cleared, the callback schedules the
   * tasklet, and the first handler takes the lock and crashes in release_lock.
   */
  lemma LateCallbackCrashes() returns (s: State)
    ensures Runs(INIT, [NotifyTest, Kill] + [Detach, NotifySchedule]
                       + ([StartRx, Continue] + ([TakeLock, GiveUp] + [LoadPointer])), s)
    ensures s.crashed && s.lock && s.rx == Releasing(true)
  {
    hide Runs;
    CallbackSlipsThrough();
    s := TaskletCrashes();
    RunsAppend(INIT, [NotifyTest, Kill] + [Detach, NotifySchedule], LATE,
               [StartRx, Continue] + ([TakeLock, GiveUp] + [LoadPointer]), s);
  }
}
