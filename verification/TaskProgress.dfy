/** Which tasks of an instance can still be executed: what some continuation of a run
    can do, up to the moment when the worker leaves. */
module TaskProgress {
  import opened Wrappers
  import opened TaskQueue
  import opened TaskRuns

  /** Steps left before everything submitted so far is terminated. */
  ghost function Remaining(s: State): nat {
    30 * |s.sh.queue| + |Unreleased(s.submitters)| +
    (if s.sh.lock.Submitter? || s.sh.lock.Reader? then 1 else 0) + WorkerRemaining(s.worker)
  }

  function WorkerRemaining(w: WorkerPc): nat {
    match w
    case Popped(_) => 41
    case Published(_) => 40
    case Picked(_) => 39
    case Registered(_) => 38
    case PurgeLocked(_) => 37
    case PurgeDumped(_, _) => 36
    case Purging(_, _) => 35
    case Executing(_) => 34
    case Cleared => 19
    case WorkerSaving => 18
    case Waiting => 18
    case Ended => 17
    case SawEmpty => 16
    case Checking => 15
    case Idle => 14
    case Acquired => 13
    case Locked => 12
    case Left => 0
  }

  function WorkerNext(w: WorkerPc): Action
    requires w != Left
  {
    match w
    case Idle => Acquire
    case Waiting => WaitEnds
    case Acquired => TakeLock
    case Locked => PopLeft
    case Popped(_) => SetRunning
    case Published(_) => FreeLock
    case Picked(_) => Register
    case Registered(_) => Prerun
    case Executing(_) => ClearRunning
    case PurgeLocked(_) => PurgeDump
    case PurgeDumped(_, _) => PurgeSkip
    case Purging(_, _) => PurgeEnd
    case Cleared => WorkerSaveLock
    case WorkerSaving => WorkerSaveUnlock
    case Ended => CheckQueue
    case SawEmpty => Unregister
    case Checking => TimerNotOver
  }

  /** With the lock free or its own and every put complete, the worker can go on. */
  lemma WorkerProgresses(s: State, s': Option<State>)
    requires QueueInv(s) && LockInv(s) && s.done != s.appended && s.worker != Left
    requires !s.sh.lock.Submitter? && !s.sh.lock.Reader? && Unreleased(s.submitters) == {}
    requires s' == Step(s, WorkerNext(s.worker))
    ensures s'.Some? && WorkerAdvanced(s, s'.value)
  {
    if IsPickAction(WorkerNext(s.worker)) {
      PickProgresses(s, s');
    } else {
      RunProgresses(s, s');
    }
  }

  predicate WorkerAdvanced(s: State, s': State) {
    && 30 * |s'.sh.queue| + WorkerRemaining(s'.worker) < 30 * |s.sh.queue| + WorkerRemaining(s.worker)
    && s'.appended == s.appended && s'.submitters == s.submitters && s'.worker != Left
    && !s'.sh.lock.Submitter? && !s'.sh.lock.Reader?
  }

  lemma PickProgresses(s: State, s': Option<State>)
    requires QueueInv(s) && s.done != s.appended && s.worker != Left
    requires !s.sh.lock.Submitter? && !s.sh.lock.Reader? && Unreleased(s.submitters) == {}
    requires s.sh.lock == Worker ==> HoldsLock(s.worker)
    requires IsPickAction(WorkerNext(s.worker)) && s' == PickStep(s, WorkerNext(s.worker))
    ensures s'.Some? && WorkerAdvanced(s, s'.value)
  {
  }

  lemma RunProgresses(s: State, s': Option<State>)
    requires s.worker != Left && !s.sh.lock.Submitter? && !s.sh.lock.Reader?
    requires s.sh.lock == Worker ==> HoldsLock(s.worker)
    requires !IsPickAction(WorkerNext(s.worker)) && s' == Step(s, WorkerNext(s.worker))
    ensures s'.Some? && WorkerAdvanced(s, s'.value)
  {
  }

  /** Until all submitted tasks are done, some thread can make progress, unless the
      worker has left. */
  lemma SomeStepProgresses(s: State) returns (a: Action)
    requires Inv(s) && s.done != s.appended && s.worker != Left
    ensures Step(s, a).Some?
    ensures Remaining(Step(s, a).value) < Remaining(s)
    ensures Step(s, a).value.appended == s.appended && Step(s, a).value.worker != Left
  {
    if s.sh.lock.Submitter? {
      a := SaveUnlock(s.sh.lock.i);
      UnreleasedOther(s.submitters, s.sh.lock.i, Submitted);
    } else if s.sh.lock.Reader? {
      a := ReadDump(s.sh.lock.r);
    } else if i :| i in Unreleased(s.submitters) {
      a := Release(i);
      UnreleasedReleased(s.submitters, i);
    } else {
      a := WorkerNext(s.worker);
      WorkerProgresses(s, Step(s, a));
    }
  }

  /** A continuation that terminates every task submitted so far, with no other. */
  ghost predicate FinishesAll(s: State, actions: seq<Action>) {
    Exec(s, actions).Some? && Exec(s, actions).value.done == Exec(s, actions).value.appended == s.appended
  }

  lemma {:induction false} CanFinishFrom(s: State)
    requires Inv(s) && s.worker != Left
    ensures exists actions :: FinishesAll(s, actions)
    decreases Remaining(s)
  {
    if s.done == s.appended {
      assert FinishesAll(s, []);
    } else {
      var a := SomeStepProgresses(s);
      var next := Step(s, a).value;
      StepInv(s, a, next);
      CanFinishFrom(next);
      var rest :| FinishesAll(next, rest);
      assert ([a] + rest)[1..] == rest;
      assert FinishesAll(s, [a] + rest);
    }
  }

  /** Nobody takes over from a worker that has left. */
  lemma {:induction false} LeftIsFinal(s: State, actions: seq<Action>, s': State)
    requires s.worker == Left && Exec(s, actions) == Some(s')
    ensures s'.worker == Left && s'.done == s.done
    decreases actions
  {
    if actions != [] {
      LeftIsFinal(Step(s, actions[0]).value, actions[1..], s');
    }
  }

  /** In every reachable state, some continuation terminates every task submitted so
      far if and only if the worker has not left or there is none to terminate: no
      interleaving leaves a task or the lock stuck, but a task submitted to an
      instance whose worker has left is never executed. */
  lemma CanFinishUnlessLeft(s: State)
    requires Reachable(s)
    ensures (exists actions :: FinishesAll(s, actions)) <==> s.worker != Left || s.done == s.appended
  {
    ReachableInv(s);
    if s.worker != Left {
      CanFinishFrom(s);
    } else if s.done == s.appended {
      assert FinishesAll(s, []);
    } else {
      forall actions
        ensures !FinishesAll(s, actions)
      {
        if Exec(s, actions).Some? {
          LeftIsFinal(s, actions, Exec(s, actions).value);
        }
      }
    }
  }

  lemma ReachableStart(workspaces: set<TaskId>)
    ensures Reachable(Start(workspaces))
  {
    assert Exec(Start(workspaces), []) == Some(Start(workspaces));
  }

  lemma IdleWorkerWaits(s: State) returns (s': State)
    requires Reachable(s) && s.worker == Idle && s.sh.value == 0
    ensures Reachable(s') && s' == s.(worker := Ended)
  {
    var waiting := ReachableStep(s, Acquire);
    s' := ReachableStep(waiting, WaitEnds);
  }

  lemma UnregisteredLeaves(s: State) returns (s': State)
    requires Reachable(s) && s.worker == Checking && !s.registered
    ensures Reachable(s') && s' == s.(worker := Left)
  {
    s' := ReachableStep(s, TimerOver);
  }

  /** A worker that sees its queue empty may leave. */
  lemma EndedWorkerLeaves(s: State) returns (s': State)
    requires Reachable(s) && s.worker == Ended && s.sh.queue == []
    ensures Reachable(s') && s' == s.(worker := Left, registered := false)
  {
    var empty := ReachableStep(s, CheckQueue);
    var checking := ReachableStep(empty, Unregister);
    s' := UnregisteredLeaves(checking);
  }

  lemma TaskIsSubmitted(s: State, i: ThreadId, task: TaskId) returns (s': State)
    requires Reachable(s) && i !in s.submitters && task !in s.appended && task !in s.workspaces
    ensures Reachable(s') && s'.worker == s.worker && s'.done == s.done
    ensures s'.sh.queue == s.sh.queue + [task] && s'.appended == s.appended + [task]
  {
    var appended := ReachableStep(s, Append(i, task));
    s' := ReachableStep(appended, Release(i));
  }

  /** It does happen: the worker of an idle instance leaves, another one keeps the
      daemon alive, and a task is submitted to the first instance. */
  lemma TaskAfterLeaving(task: TaskId) returns (s: State)
    ensures Reachable(s) && s.worker == Left && s.sh.queue == [task] && s.done == []
    ensures forall actions :: !FinishesAll(s, actions)
  {
    ReachableStart({});
    var ended := IdleWorkerWaits(Start({}));
    var left := EndedWorkerLeaves(ended);
    s := TaskIsSubmitted(left, 0, task);
    CanFinishUnlessLeft(s);
  }
}
