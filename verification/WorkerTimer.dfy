/** The worker threads and the timer thread of the daemon
    (fatbuildr/cli/fatbuildrd.py) around the shared ServerTimer
    (fatbuildr/timer.py), as a step relation.  `over` is two accesses: the set of
    registered workers under the condition, then the clock. */
module WorkerTimer {
  import opened Wrappers

  type WorkerId = string

  datatype WorkerPc =
    | AtPick
    | HasTask        // pick() returned a task
    | Registered     // register_worker() done
    | Running        // tasks_mgr.run(task)
    | Ending         // past the try block, queue checks to come
    | Checking       // about to evaluate timer.over
    | SawNoTask      // notask was true, the clock is still to be read
    | Left

  datatype TimerPc = TimerChecking | TimerSawNoTask | TimerWaiting | TimerLeft

  /** `expired` tells whether `remaining` is 0 at this moment. */
  datatype State = State(
    registered: set<WorkerId>,
    expired: bool,
    workers: map<WorkerId, WorkerPc>,
    timer: TimerPc)

  datatype Action =
    | PickTask(w: WorkerId)
    | PickNone(w: WorkerId)
    | Register(w: WorkerId)
    | StartTask(w: WorkerId)
    | EndTask(w: WorkerId)
    | Unregister(w: WorkerId)      // the queue was seen empty
    | StayRegistered(w: WorkerId)  // the queue was not empty
    | ReadNoTask(w: WorkerId)
    | ReadClock(w: WorkerId)
    | TimerReadNoTask
    | TimerReadClock
    | TimerWakes
    | ClockRuns(expired: bool)     // time passes, or a request resets the timer

  predicate At(s: State, w: WorkerId, pc: WorkerPc) {
    w in s.workers && s.workers[w] == pc
  }

  function Move(s: State, w: WorkerId, pc: WorkerPc): State {
    s.(workers := s.workers[w := pc])
  }

  function Step(s: State, a: Action): Option<State> {
    match a
    case PickTask(w) => if At(s, w, AtPick) then Some(Move(s, w, HasTask)) else None
    case PickNone(w) => if At(s, w, AtPick) then Some(Move(s, w, Ending)) else None
    case Register(w) =>
      if At(s, w, HasTask) then Some(Move(s, w, Registered).(registered := s.registered + {w})) else None
    case StartTask(w) => if At(s, w, Registered) then Some(Move(s, w, Running)) else None
    case EndTask(w) => if At(s, w, Running) then Some(Move(s, w, Ending)) else None
    case Unregister(w) =>
      if At(s, w, Ending) then Some(Move(s, w, Checking).(registered := s.registered - {w})) else None
    case StayRegistered(w) => if At(s, w, Ending) then Some(Move(s, w, Checking)) else None
    case ReadNoTask(w) =>
      if At(s, w, Checking) then Some(Move(s, w, if s.registered == {} then SawNoTask else AtPick)) else None
    case ReadClock(w) =>
      if At(s, w, SawNoTask) then Some(Move(s, w, if s.expired then Left else AtPick)) else None
    case TimerReadNoTask =>
      if s.timer == TimerChecking
      then Some(s.(timer := if s.registered == {} then TimerSawNoTask else TimerWaiting)) else None
    case TimerReadClock =>
      if s.timer == TimerSawNoTask then Some(s.(timer := if s.expired then TimerLeft else TimerWaiting)) else None
    case TimerWakes => if s.timer == TimerWaiting then Some(s.(timer := TimerChecking)) else None
    case ClockRuns(expired) => Some(s.(expired := expired))
  }

  /** A run: the state after an interleaving of steps, None when one of them was not
      possible. */
  function Exec(s: State, actions: seq<Action>): Option<State>
    decreases actions
  {
    if actions == [] then Some(s)
    else match Step(s, actions[0])
         case None => None
         case Some(s') => Exec(s', actions[1..])
  }

  lemma {:induction false} ExecConcat(s: State, a: seq<Action>, b: seq<Action>)
    requires Exec(s, a).Some?
    ensures Exec(s, a + b) == Exec(Exec(s, a).value, b)
    decreases a
  {
    if a == [] {
      assert a + b == b;
    } else {
      assert (a + b)[1..] == a[1..] + b;
      ExecConcat(Step(s, a[0]).value, a[1..], b);
    }
  }

  lemma ExecOne(s: State, a: Action)
    ensures Exec(s, [a]) == Step(s, a)
  {
    assert forall s' :: Exec(s', [a][1..]) == Some(s');
  }

  function Start(workers: set<WorkerId>): State {
    State({}, false, map w | w in workers :: AtPick, TimerChecking)
  }

  ghost predicate Reachable(s: State) {
    exists workers, actions :: Exec(Start(workers), actions) == Some(s)
  }

  /** Between register_worker() and the end of the task a worker is registered. */
  ghost predicate Inv(s: State) {
    forall w :: (At(s, w, Registered) || At(s, w, Running)) ==> w in s.registered
  }

  lemma StartInv(workers: set<WorkerId>)
    ensures Inv(Start(workers))
  {
  }

  lemma StepInv(s: State, a: Action, s': State)
    requires Inv(s) && Step(s, a) == Some(s')
    ensures Inv(s')
  {
  }

  lemma {:induction false} ExecInv(s: State, actions: seq<Action>, s': State)
    requires Inv(s) && Exec(s, actions) == Some(s')
    ensures Inv(s')
    decreases actions
  {
    if actions != [] {
      StepInv(s, actions[0], Step(s, actions[0]).value);
      ExecInv(Step(s, actions[0]).value, actions[1..], s');
    }
  }

  /** Over any run of any number of workers, a task executes only while its worker is
      registered. */
  lemma TasksRunRegistered(s: State, w: WorkerId)
    requires Reachable(s)
    ensures At(s, w, Registered) || At(s, w, Running) ==> w in s.registered
  {
    var workers, actions :| Exec(Start(workers), actions) == Some(s);
    StartInv(workers);
    ExecInv(Start(workers), actions, s);
  }

  /** Only a worker's own thread changes its registration. */
  lemma RegistrationIsOwn(s: State, a: Action, s': State, w: WorkerId)
    requires Step(s, a) == Some(s') && (w in s.registered) != (w in s'.registered)
    ensures a == Register(w) || a == Unregister(w)
    ensures w in s.workers && s.workers[w] != s'.workers[w]
  {
  }

  /** A worker registered at the end but not at the start registered in between. */
  lemma {:induction false} RegisteredInBetween(s: State, actions: seq<Action>, s': State, w: WorkerId)
    requires Exec(s, actions) == Some(s') && w !in s.registered && w in s'.registered
    ensures Register(w) in actions
    decreases actions
  {
    var next := Step(s, actions[0]).value;
    if w in next.registered {
      RegistrationIsOwn(s, actions[0], next, w);
    } else {
      RegisteredInBetween(next, actions[1..], s', w);
      assert actions == [actions[0]] + actions[1..];
    }
  }

  // ---- `over`, evaluated by a worker or by the timer thread (None) ----

  function NoTaskAccess(thread: Option<WorkerId>): Action {
    if thread.Some? then ReadNoTask(thread.value) else TimerReadNoTask
  }

  function ClockAccess(thread: Option<WorkerId>): Action {
    if thread.Some? then ReadClock(thread.value) else TimerReadClock
  }

  predicate Checks(s: State, thread: Option<WorkerId>) {
    if thread.Some? then At(s, thread.value, Checking) else s.timer == TimerChecking
  }

  predicate SawNone(s: State, thread: Option<WorkerId>) {
    if thread.Some? then At(s, thread.value, SawNoTask) else s.timer == TimerSawNoTask
  }

  predicate HasLeft(s: State, thread: Option<WorkerId>) {
    if thread.Some? then At(s, thread.value, Left) else s.timer == TimerLeft
  }

  /** `check` is one evaluation of `over` that returned True: it starts with the notask
      access of `leaver` and ends with its leaving. */
  ghost predicate IsOverCheck(s: State, check: seq<Action>, s': State, leaver: Option<WorkerId>) {
    && |check| >= 2 && Exec(s, check) == Some(s')
    && check[0] == NoTaskAccess(leaver) && SawNone(Step(s, check[0]).value, leaver)
    && check[|check| - 1] == ClockAccess(leaver) && HasLeft(s', leaver)
  }

  /** `over` is never True while some worker stays registered, so a thread that
      leaves while a task executes did so on a check during which the worker of
      that task registered: a task that ran through the whole check forbids it. */
  lemma OverSparesRunningTasks(s: State, check: seq<Action>, s': State, leaver: Option<WorkerId>, w: WorkerId)
    requires IsOverCheck(s, check, s', leaver) && Inv(s)
    ensures w !in s.registered && !At(s, w, Running)
    ensures At(s', w, Running) ==> Register(w) in check
  {
    ExecInv(s, check, s');
    if At(s', w, Running) {
      RegisteredInBetween(s, check, s', w);
    }
  }

  // ---- when a thread can leave during a task ----

  /** A step of this thread; the clock is nobody's. */
  predicate By(thread: Option<WorkerId>, a: Action) {
    match a
    case TimerReadNoTask | TimerReadClock | TimerWakes => thread == None
    case ClockRuns(_) => false
    case _ => thread == Some(a.w)
  }

  /** `leaver`, which has seen no task, does nothing more until its clock access, on
      which it leaves while `v` executes a task. */
  ghost predicate LeavesDuringTask(s: State, leaver: Option<WorkerId>, before: seq<Action>, v: WorkerId) {
    && (forall a :: a in before ==> !By(leaver, a))
    && var end := Exec(s, before + [ClockAccess(leaver)]);
       end.Some? && HasLeft(end.value, leaver) && At(end.value, v, Running)
  }

  /** Some other worker is still there. */
  predicate Stays(s: State, leaver: Option<WorkerId>, v: WorkerId) {
    v in s.workers && s.workers[v] != Left && leaver != Some(v)
  }

  lemma {:induction false} LeftStays(s: State, actions: seq<Action>, s': State, v: WorkerId)
    requires Exec(s, actions) == Some(s') && v in s'.workers && s'.workers[v] != Left
    ensures v in s.workers && s.workers[v] != Left
    decreases actions
  {
    if actions != [] {
      LeftStays(Step(s, actions[0]).value, actions[1..], s', v);
    }
  }

  /** What worker `v` does next on its way to a task. */
  function TowardsTask(s: State, v: WorkerId): Action
    requires v in s.workers && s.workers[v] != Left && s.workers[v] != Running
  {
    match s.workers[v]
    case AtPick => PickTask(v)
    case HasTask => Register(v)
    case Registered => StartTask(v)
    case Ending => StayRegistered(v)
    case Checking => ReadNoTask(v)
    case SawNoTask => if s.expired then ClockRuns(false) else ReadClock(v)
  }

  function TaskDistance(s: State, v: WorkerId): nat
    requires v in s.workers && s.workers[v] != Left
  {
    match s.workers[v]
    case Running => 0
    case Registered => 1
    case HasTask => 2
    case AtPick => 3
    case SawNoTask => if s.expired then 5 else 4
    case Checking => 6
    case Ending => 7
  }

  /** The others are where they were. */
  predicate OnlyMoved(s: State, s': State, v: WorkerId) {
    && s'.timer == s.timer && s'.workers.Keys == s.workers.Keys
    && forall u :: u in s.workers && u != v ==> s'.workers[u] == s.workers[u]
  }

  lemma {:induction false} CanReachTask(s: State, v: WorkerId) returns (actions: seq<Action>)
    requires v in s.workers && s.workers[v] != Left
    ensures Exec(s, actions).Some? && At(Exec(s, actions).value, v, Running)
    ensures OnlyMoved(s, Exec(s, actions).value, v)
    ensures forall a, u :: a in actions && By(u, a) ==> u == Some(v)
    decreases TaskDistance(s, v)
  {
    if s.workers[v] == Running {
      actions := [];
    } else {
      var a := TowardsTask(s, v);
      var next := Step(s, a).value;
      var rest := CanReachTask(next, v);
      actions := [a] + rest;
      assert actions[1..] == rest;
    }
  }

  /** Some thread that saw no task can leave during a task, on this very check, if and
      only if some other worker has not left. */
  lemma OverlapIffAnotherStays(s: State, leaver: Option<WorkerId>)
    requires SawNone(s, leaver)
    ensures (exists before, v :: LeavesDuringTask(s, leaver, before, v)) <==> exists v :: Stays(s, leaver, v)
  {
    if v :| Stays(s, leaver, v) {
      var before := OverlapPath(s, leaver, v);
      assert LeavesDuringTask(s, leaver, before, v);
    }
    if before, v :| LeavesDuringTask(s, leaver, before, v) {
      var end := Exec(s, before + [ClockAccess(leaver)]).value;
      LeftStays(s, before + [ClockAccess(leaver)], end, v);
      assert Stays(s, leaver, v);
    }
  }

  lemma OverlapPath(s: State, leaver: Option<WorkerId>, v: WorkerId) returns (before: seq<Action>)
    requires SawNone(s, leaver) && Stays(s, leaver, v)
    ensures LeavesDuringTask(s, leaver, before, v)
  {
    var actions := CanReachTask(s, v);
    var running := Exec(s, actions).value;
    var late := running.(expired := true);
    ExecOne(running, ClockRuns(true));
    ExecConcat(s, actions, [ClockRuns(true)]);
    before := actions + [ClockRuns(true)];
    ExecOne(late, ClockAccess(leaver));
    ExecConcat(s, before, [ClockAccess(leaver)]);
  }

  /** It does happen from a fresh start: "a" leaves while "b" executes a task that it
      picked before the check of "a" began, but for which it registered during it. */
  lemma OverCanOverlapTask() returns (s: State, check: seq<Action>, s': State)
    ensures Reachable(s) && At(s, "b", HasTask)
    ensures IsOverCheck(s, check, s', Some("a")) && At(s', "b", Running)
  {
    s := LeaverChecks();
    check := [ReadNoTask("a"), Register("b"), StartTask("b"), ReadClock("a")];
    s' := OverlappingCheck(s, check);
  }

  lemma LeaverChecks() returns (s: State)
    ensures Reachable(s) && s.expired && s.registered == {} && At(s, "a", Checking) && At(s, "b", HasTask)
  {
    var before := [ClockRuns(true), PickTask("b"), PickNone("a"), Unregister("a")];
    var p0 := Start({"a", "b"});
    var p1 := p0.(expired := true);
    var p2 := Move(p1, "b", HasTask);
    var p3 := Move(p2, "a", Ending);
    s := Move(p3, "a", Checking);
    assert p3.registered - {"a"} == {};
    assert Step(p3, before[3]) == Some(s);
    ExecOne(p3, before[3]);
    assert Step(p2, before[2]) == Some(p3) && before[2..][1..] == [before[3]];
    assert Step(p1, before[1]) == Some(p2) && before[1..][1..] == before[2..];
    assert Exec(p0, before) == Some(s);
  }

  lemma OverlappingCheck(s: State, check: seq<Action>) returns (s': State)
    requires s.expired && s.registered == {} && At(s, "a", Checking) && At(s, "b", HasTask)
    requires check == [ReadNoTask("a"), Register("b"), StartTask("b"), ReadClock("a")]
    ensures IsOverCheck(s, check, s', Some("a")) && At(s', "b", Running)
  {
    var s1 := Move(s, "a", SawNoTask);
    var s2 := Move(s1, "b", Registered).(registered := {"b"});
    var s3 := Move(s2, "b", Running);
    s' := Move(s3, "a", Left);
    assert s1.registered + {"b"} == {"b"};
    assert Step(s3, check[3]) == Some(s');
    ExecOne(s3, check[3]);
    assert Step(s2, check[2]) == Some(s3) && check[2..][1..] == [check[3]];
    assert Step(s1, check[1]) == Some(s2) && check[1..][1..] == check[2..];
    assert Step(s, check[0]) == Some(s1);
    assert Exec(s1, check[1..]) == Some(s');
  }

  // ---- the timer, updated in place ----

  /** Where a thread is, and whether it is registered, while the others act. */
  predicate Rely(thread: Option<WorkerId>, s: State, s': State) {
    if thread == None then s'.timer == s.timer
    else
      && (thread.value in s.workers <==> thread.value in s'.workers)
      && (thread.value in s.workers ==> s'.workers[thread.value] == s.workers[thread.value])
      && (thread.value in s.registered <==> thread.value in s'.registered)
  }

  /** ServerTimer.  `run` is the run its attributes belong to: the steps taken so far
      by the caller and by the other threads, which Others() draws. */
  class ServerTimer {
    var workers: set<WorkerId>
    var run: State

    ghost predicate Valid()
      reads this
    {
      Inv(run) && run.registered == workers
    }

    constructor (all: set<WorkerId>)
      ensures Valid() && run == Start(all)
    {
      workers, run := {}, Start(all);
      new;
      StartInv(all);
    }

    method Record(a: Action)
      requires Inv(run) && Step(run, a).Some?
      modifies this`run
      ensures Inv(run) && Step(old(run), a) == Some(run)
    {
      StepInv(run, a, Step(run, a).value);
      run := Step(run, a).value;
    }

    /** The other threads take any steps they can, and time passes. */
    method Others(thread: Option<WorkerId>)
      requires Valid()
      modifies this
      ensures Valid() && Rely(thread, old(run), run)
    {
      var steps: nat := *;
      while steps > 0
        invariant Valid() && Rely(thread, old(run), run)
      {
        steps := steps - 1;
        var a: Action := *;
        if !By(thread, a) && Step(run, a).Some? {
          Record(a);
          workers := run.registered;
        }
      }
    }

    /** register_worker() */
    method RegisterWorker(w: WorkerId)
      requires Valid() && At(run, w, HasTask)
      modifies this
      ensures Valid() && At(run, w, Registered) && w in workers
    {
      workers := workers + {w};
      Record(Register(w));
      Others(Some(w));
    }

    /** unregister_worker(): a worker that is not registered is ignored; True is the
        notify sent when no other worker is registered. */
    method UnregisterWorker(w: WorkerId) returns (notified: bool)
      requires Valid() && At(run, w, Ending)
      modifies this
      ensures Valid() && At(run, w, Checking) && w !in workers
      ensures notified <==> forall v :: v in old(workers) ==> v == w
    {
      if w in workers {
        workers := workers - {w};
      }
      assert forall v :: v in old(workers) && v != w ==> v in workers;
      notified := workers == {};
      assert workers == old(workers) - {w};
      Record(Unregister(w));
      Others(Some(w));
    }

    /** A task in the worker loop: the worker is registered from before its start to
        the end of the loop. */
    method Execute(w: WorkerId)
      requires Valid() && At(run, w, HasTask)
      modifies this
      ensures Valid() && At(run, w, Ending) && w in workers
    {
      RegisterWorker(w);
      Record(StartTask(w));
      Others(Some(w));
      Record(EndTask(w));
      Others(Some(w));
    }

    /** over, with the other threads between its two accesses: True exactly when no
        worker was registered at the first and the delay has run out at the second. */
    method Over(thread: Option<WorkerId>) returns (over: bool)
      requires Valid() && Checks(run, thread)
      modifies this
      ensures Valid() && (over <==> HasLeft(run, thread))
      ensures over <==> old(workers) == {} && run.expired
      ensures over ==> forall v :: At(run, v, Running) ==> v in workers && v !in old(workers)
    {
      var none := workers == {};
      Record(NoTaskAccess(thread));
      Others(thread);
      over := none && run.expired;
      if none {
        Record(ClockAccess(thread));
      }
    }

    /** The end of the worker loop: a worker that has just executed a task and sees its
        queue not empty goes on. */
    method EndLoop(w: WorkerId, empty: bool) returns (over: bool)
      requires Valid() && At(run, w, Ending)
      modifies this
      ensures Valid() && (over <==> HasLeft(run, Some(w)))
      ensures w in old(workers) && !empty ==> !over
    {
      if empty {
        var _ := UnregisterWorker(w);
      } else {
        Record(StayRegistered(w));
        Others(Some(w));
      }
      over := Over(Some(w));
    }
  }
}
