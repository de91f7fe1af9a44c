/** ServerTasksManager, its QueueManager and the worker loop, with their attributes
    updated in place: whole calls, while the other threads act between any two
    accesses to shared data. */
module ServerTasksManager {
  import opened Wrappers
  import opened TaskQueue
  import opened TaskRuns
  import opened TaskProgress
  import opened TaskOrder

  datatype Caller = TheWorker | TheSubmitter(i: ThreadId) | TheReader(r: ThreadId)

  predicate ByCaller(me: Caller, a: Action) {
    match me
    case TheWorker => IsWorkerAction(a)
    case TheSubmitter(i) => IsSubmitterAction(a) && a.i == i
    case TheReader(r) => IsReaderAction(a) && a.r == r
  }

  predicate Holding(me: Caller, s: State) {
    match me
    case TheWorker => HoldsLock(s.worker)
    case TheSubmitter(i) => i in s.submitters && s.submitters[i] == Saving
    case TheReader(r) => r in s.readers && s.readers[r].Reading?
  }

  /** What a thread can rely on while the others act. */
  predicate Rely(me: Caller, s: State, s': State) {
    && s.appended <= s'.appended && s.done <= s'.done
    && match me
       case TheWorker =>
         && s'.worker == s.worker && s'.registered == s.registered && s'.done == s.done
         && s.sh.queue <= s'.sh.queue && s.sh.value <= s'.sh.value
         && s'.sh.running == s.sh.running && s'.workspaces == s.workspaces
       case TheSubmitter(i) =>
         (i in s.submitters <==> i in s'.submitters) && (i in s.submitters ==> s'.submitters[i] == s.submitters[i])
       case TheReader(r) =>
         (r in s.readers <==> r in s'.readers) && (r in s.readers ==> s'.readers[r] == s.readers[r])
  }

  lemma OtherStep(me: Caller, s: State, a: Action, s': State)
    requires Step(s, a) == Some(s') && !ByCaller(me, a)
    ensures Rely(me, s, s')
  {
    if IsWorkerAction(a) {
      StepGrows(s, a, s');
      WorkerSparesOthers(s, a, s');
    } else if IsSubmitterAction(a) {
      OtherSubmitterStep(me, s, a, s');
    } else {
      OtherReaderStep(me, s, a, s');
    }
  }

  lemma OtherSubmitterStep(me: Caller, s: State, a: Action, s': State)
    requires IsSubmitterAction(a) && SubmitterStep(s, a) == Some(s') && !ByCaller(me, a)
    ensures Rely(me, s, s')
  {
  }

  lemma OtherReaderStep(me: Caller, s: State, a: Action, s': State)
    requires IsReaderAction(a) && ReaderStep(s, a) == Some(s') && !ByCaller(me, a)
    ensures Rely(me, s, s')
  {
  }

  lemma WorkerSparesOthers(s: State, a: Action, s': State)
    requires Step(s, a) == Some(s') && IsWorkerAction(a)
    ensures s'.submitters == s.submitters && s'.readers == s.readers
  {
    if IsRunAction(a) {
      RunSparesOthers(s, a, s');
    }
  }

  lemma RunSparesOthers(s: State, a: Action, s': State)
    requires IsRunAction(a) && RunStep(s, a) == Some(s')
    ensures s'.submitters == s.submitters && s'.readers == s.readers
  {
  }

  /** From one worker section to the end of the next, whatever the other threads do. */
  predicate Meanwhile(s: State, s': State) {
    && s.appended <= s'.appended && s'.done == s.done && s'.registered == s.registered
    && s.sh.queue <= s'.sh.queue && s'.sh.running == s.sh.running && s'.workspaces == s.workspaces
  }

  lemma ReturnedTasks(s: State, r: ThreadId, appended: seq<TaskId>, done: seq<TaskId>)
    requires Inv(s) && Ordered(s) && r in s.readers && s.readers[r].Returned?
    requires s.readers[r].since == |appended| && appended <= s.appended
    requires s.readers[r].ended == |done| && done <= s.done
    ensures var tasks := s.readers[r].tasks;
            && Distinct(tasks)
            && (forall t :: t in appended && t !in s.done ==> t in tasks)
            && (forall t :: t in tasks ==> t in s.appended && t !in done)
            && LiveInOrder(s, tasks)
  {
    assert ReadInv(s, s.readers[r]) && ReadOrdered(s, s.readers[r]);
    assert s.appended[..|appended|] == appended && s.done[..|done|] == done;
  }

  lemma SkippedSparesLive(s: State, d: TaskId)
    requires Inv(s) && s.worker.Purging? && d in s.workspaces && d !in s.worker.skip
    ensures d in s.appended ==> d in s.done
  {
    HistoryParts(s);
  }

  /** Pending tasks have no workspace: of the directories only that of the purging task
      is skipped. */
  lemma OnlyOwnIsSkipped(s: State)
    requires Inv(s) && s.worker.Purging?
    ensures forall d :: d in s.worker.skip && d in s.workspaces ==> d == s.worker.t
    ensures s.worker.t in s.worker.skip && s.worker.t in s.workspaces
  {
  }

  /** Steps until the thread that holds the lock frees it. */
  function HeldFor(s: State): nat {
    if s.sh.lock == Free then 0
    else if s.sh.lock == Worker then
      match s.worker
      case Locked => 3
      case Popped(_) => 2
      case _ => 1
    else 1
  }

  /** What the thread that holds the lock does next. */
  function HolderNext(s: State): Action
    requires s.sh.lock != Free && (s.sh.lock == Worker ==> HoldsLock(s.worker))
  {
    match s.sh.lock
    case Worker => WorkerNext(s.worker)
    case Submitter(i) => SaveUnlock(i)
    case Reader(r) => ReadDump(r)
  }

  lemma HolderAdvances(me: Caller, s: State)
    requires QueueInv(s) && LockInv(s) && s.sh.lock != Free && !Holding(me, s)
    ensures var next := Step(s, HolderNext(s));
            next.Some? && !ByCaller(me, HolderNext(s)) && HeldFor(next.value) < HeldFor(s)
  {
  }

  /** The shared attributes of one instance.  `run` is the run they belong to: the
      steps taken so far by this caller and by the other threads, which Others()
      draws. */
  class TasksManager {
    var queue: seq<TaskId>
    var value: nat
    var lock: Holder
    var running: Option<TaskId>
    var workspaces: set<TaskId>
    var registered: bool
    var run: State

    ghost predicate Valid()
      reads this
    {
      && Inv(run) && Ordered(run) && run.sh == Shared(queue, value, lock, running)
      && run.workspaces == workspaces && run.registered == registered
    }

    constructor (workspaces: set<TaskId>)
      ensures Valid() && run == Start(workspaces)
    {
      queue, value, lock, running := [], 0, Free, None;
      this.workspaces, registered := workspaces, false;
      run := Start(workspaces);
      new;
      StartInv(workspaces);
    }

    /** The step that an access of the caller to shared data was. */
    method Record(a: Action)
      requires Inv(run) && Ordered(run) && Step(run, a).Some?
      modifies this`run
      ensures Inv(run) && Ordered(run) && Step(old(run), a) == Some(run)
    {
      StepInv(run, a, Step(run, a).value);
      StepOrdered(run, a, Step(run, a).value);
      run := Step(run, a).value;
    }

    /** A step of another thread. */
    method Other(me: Caller, a: Action)
      requires Valid() && !ByCaller(me, a) && Step(run, a).Some?
      modifies this
      ensures Valid() && Step(old(run), a) == Some(run) && Rely(me, old(run), run)
    {
      OtherStep(me, run, a, Step(run, a).value);
      Record(a);
      queue, value, lock, running := run.sh.queue, run.sh.value, run.sh.lock, run.sh.running;
      workspaces, registered := run.workspaces, run.registered;
    }

    /** The other threads take any steps they can. */
    method Others(me: Caller)
      requires Valid()
      modifies this
      ensures Valid() && Rely(me, old(run), run)
    {
      var steps: nat := *;
      while steps > 0
        invariant Valid() && Rely(me, old(run), run)
      {
        steps := steps - 1;
        var a: Action := *;
        if !ByCaller(me, a) && Step(run, a).Some? {
          Other(me, a);
        }
      }
    }

    /** Waiting for the state lock: the other threads go on until it is free. */
    method AwaitLock(me: Caller)
      requires Valid() && !Holding(me, run)
      modifies this
      ensures Valid() && Rely(me, old(run), run) && lock == Free
    {
      Others(me);
      while lock != Free
        invariant Valid() && Rely(me, old(run), run) && !Holding(me, run)
        decreases HeldFor(run)
      {
        HolderAdvances(me, run);
        Other(me, HolderNext(run));
      }
    }

    // ---- submitters ----

    /** put() */
    method Put(i: ThreadId, task: TaskId)
      requires Valid() && (i in run.submitters ==> run.submitters[i] == Submitted)
      requires task !in run.appended && task !in workspaces
      modifies this
      ensures Valid() && i in run.submitters && run.submitters[i] == Released
      ensures old(run.appended) + [task] <= run.appended
    {
      queue := queue + [task];
      Record(Append(i, task));
      Others(TheSubmitter(i));
      value := value + 1;
      Record(Release(i));
    }

    /** save() after put(): what is written to the queue state file. */
    method Save(i: ThreadId) returns (saved: seq<TaskId>)
      requires Valid() && i in run.submitters && run.submitters[i] == Released
      modifies this
      ensures Valid() && i in run.submitters && run.submitters[i] == Submitted
      ensures old(run.appended) <= run.appended
      ensures saved == queue
    {
      AwaitLock(TheSubmitter(i));
      lock := Submitter(i);
      Record(SaveLock(i));
      Others(TheSubmitter(i));
      saved := queue;
      lock := Free;
      Record(SaveUnlock(i));
    }

    /** submit(): the task is next in the order of submissions, and the saved list has
        every submitted task but the terminated ones and the one in hand. */
    method Submit(i: ThreadId, task: TaskId) returns (saved: seq<TaskId>)
      requires Valid() && (i in run.submitters ==> run.submitters[i] == Submitted)
      requires task !in run.appended && task !in workspaces
      modifies this
      ensures Valid() && i in run.submitters && run.submitters[i] == Submitted
      ensures old(run.appended) + [task] <= run.appended
      ensures run.done + InHand(run.worker) + saved == run.appended
    {
      Put(i, task);
      saved := Save(i);
    }

    // ---- readers ----

    method TakeReaderLock(r: ThreadId)
      requires Valid() && r in run.readers && run.readers[r].Begun?
      modifies this
      ensures Valid() && r in run.readers
      ensures run.readers[r] == Reading(old(run.readers[r].since), old(run.readers[r].ended))
      ensures old(run.appended) <= run.appended && old(run.done) <= run.done
    {
      AwaitLock(TheReader(r));
      lock := Reader(r);
      Record(ReadLock(r));
      Others(TheReader(r));
    }

    /** dump(), as fullqueue calls it. */
    method Dump(r: ThreadId) returns (tasks: seq<TaskId>)
      requires Valid() && r in run.readers && run.readers[r].Begun?
      modifies this
      ensures Valid() && r in run.readers
      ensures run.readers[r] == Dumped(old(run.readers[r].since), old(run.readers[r].ended), tasks)
      ensures old(run.appended) <= run.appended && old(run.done) <= run.done
    {
      TakeReaderLock(r);
      tasks := queue;
      lock := Free;
      Record(ReadDump(r));
    }

    /** fullqueue after its dump. */
    method AddRunning(r: ThreadId, dumped: seq<TaskId>) returns (tasks: seq<TaskId>)
      requires Valid() && r in run.readers && run.readers[r].Dumped? && run.readers[r].dumped == dumped
      modifies this`run
      ensures Valid() && r in run.readers
      ensures run.readers[r] == Returned(old(run.readers[r].since), old(run.readers[r].ended), tasks)
      ensures run.appended == old(run.appended) && run.done == old(run.done)
    {
      tasks := dumped;
      if running.Some? && running.value !in tasks {
        tasks := [running.value] + tasks;
      }
      Record(ReadRunning(r));
    }

    method BeginRead(r: ThreadId)
      requires Valid() && (r in run.readers ==> run.readers[r].Returned?)
      modifies this
      ensures Valid() && r in run.readers
      ensures run.readers[r] == Begun(|old(run.appended)|, |old(run.done)|)
      ensures old(run.appended) <= run.appended && old(run.done) <= run.done
    {
      Record(ReadBegin(r));
      Others(TheReader(r));
    }

    /** fullqueue: no duplicate, every task submitted before the call and not
        terminated when it returns, and none that had terminated before it. */
    method GetFullQueue(r: ThreadId) returns (tasks: seq<TaskId>)
      requires Valid() && (r in run.readers ==> run.readers[r].Returned?)
      modifies this
      ensures Valid() && Distinct(tasks)
      ensures forall t :: t in old(run.appended) && t !in run.done ==> t in tasks
      ensures forall t :: t in tasks ==> t in run.appended && t !in old(run.done)
      ensures LiveInOrder(run, tasks)
    {
      BeginRead(r);
      var dumped := Dump(r);
      tasks := AddRunning(r, dumped);
      ReturnedTasks(run, r, old(run.appended), old(run.done));
    }

    // ---- the worker, section by section ----

    /** acquire() up to its wait. */
    method TakeCount() returns (rc: bool)
      requires Valid() && run.worker == Idle
      modifies this
      ensures Valid() && Meanwhile(old(run), run) && run.worker == (if rc then Acquired else Waiting)
      ensures rc <==> old(value) > 0
    {
      rc := false;
      if value != 0 {
        value := value - 1;
        rc := true;
      }
      Record(Acquire);
      Others(TheWorker);
    }

    /** The wait ends, for whatever reason. */
    method EndWait()
      requires Valid() && run.worker == Waiting
      modifies this
      ensures Valid() && Meanwhile(old(run), run) && run.worker == Ended
    {
      Record(WaitEnds);
      Others(TheWorker);
    }

    /** The worker waits for the state lock and takes it. */
    method TakeStateLock(a: Action)
      requires Valid()
      requires match a
               case TakeLock => run.worker == Acquired
               case PurgeLock => run.worker.Executing?
               case WorkerSaveLock => run.worker == Cleared
               case _ => false
      modifies this
      ensures Valid() && Meanwhile(old(run), run)
      ensures match a
              case TakeLock => run.worker == Locked
              case PurgeLock => run.worker == PurgeLocked(old(run).worker.t)
              case _ => run.worker == WorkerSaving
    {
      AwaitLock(TheWorker);
      LockFree(a);
    }

    method LockFree(a: Action)
      requires Valid() && lock == Free
      requires match a
               case TakeLock => run.worker == Acquired
               case PurgeLock => run.worker.Executing?
               case WorkerSaveLock => run.worker == Cleared
               case _ => false
      modifies this
      ensures Valid() && Meanwhile(old(run), run)
      ensures match a
              case TakeLock => run.worker == Locked
              case PurgeLock => run.worker == PurgeLocked(old(run).worker.t)
              case _ => run.worker == WorkerSaving
    {
      lock := Worker;
      Record(a);
      Others(TheWorker);
    }

    /** popleft() finds a task. */
    method PopHead() returns (task: TaskId)
      requires Valid() && run.worker == Locked
      modifies this
      ensures Valid() && old(queue) != [] && task == old(queue[0]) && run.worker == Popped(task)
      ensures Meanwhile(old(run).(sh := old(run).sh.(queue := old(queue)[1..])), run)
    {
      task := queue[0];
      queue := queue[1..];
      Record(PopLeft);
      Others(TheWorker);
    }

    /** `running` is set while the lock is held. */
    method Publish(task: TaskId)
      requires Valid() && run.worker == Popped(task)
      modifies this
      ensures Valid() && Meanwhile(old(run).(sh := old(run).sh.(running := Some(task))), run)
      ensures run.worker == Published(task)
    {
      running := Some(task);
      Record(SetRunning);
      Others(TheWorker);
    }

    method FreeStateLock()
      requires Valid() && run.worker.Published?
      modifies this
      ensures Valid() && Meanwhile(old(run), run)
      ensures run.worker == Picked(old(run).worker.t) && lock == Free
    {
      lock := Free;
      Record(FreeLock);
    }

    /** get(): nothing when there is no count to take, however the wait ends, and
        otherwise the head of the queue, with the lock kept. */
    method Get() returns (task: Option<TaskId>)
      requires Valid() && run.worker == Idle
      modifies this
      ensures Valid() && run.done == old(run.done) && old(run.appended) <= run.appended
      ensures task.Some? <==> old(value) > 0
      ensures if task == None then run.worker == Ended
              else old(queue) != [] && task == Some(old(queue[0])) && run.worker == Popped(old(queue[0]))
    {
      var rc := TakeCount();
      if !rc {
        EndWait();
        return None;
      }
      TakeStateLock(TakeLock);
      var head := PopHead();
      task := Some(head);
    }

    /** pick(): the oldest pending task becomes the running one, and the lock is free
        again; None exactly when there was no count to take. */
    method Pick() returns (task: Option<TaskId>)
      requires Valid() && run.worker == Idle
      modifies this
      ensures Valid() && run.done == old(run.done) && old(run.appended) <= run.appended
      ensures task.Some? <==> old(value) > 0
      ensures if task == None then run.worker == Ended && running == None
              else old(queue) != [] && task == Some(old(queue[0])) && run.worker == Picked(old(queue[0]))
                   && running == task && lock == Free
    {
      task := Get();
      if task.Some? {
        Publish(task.value);
        FreeStateLock();
      }
    }

    /** dump(), as the purge calls it. */
    method DumpForPurge() returns (tasks: seq<TaskId>)
      requires Valid() && run.worker.Executing?
      modifies this
      ensures Valid() && Meanwhile(old(run), run)
      ensures run.worker == PurgeDumped(old(run).worker.t, tasks)
    {
      TakeStateLock(PurgeLock);
      tasks := DumpAndFree();
    }

    method DumpAndFree() returns (tasks: seq<TaskId>)
      requires Valid() && (run.worker.PurgeLocked? || run.worker == WorkerSaving)
      modifies this
      ensures Valid() && Meanwhile(old(run), run) && tasks <= queue
      ensures run.worker == if old(run).worker == WorkerSaving then Ended else PurgeDumped(old(run).worker.t, tasks)
    {
      tasks := queue;
      lock := Free;
      Record(if run.worker == WorkerSaving then WorkerSaveUnlock else PurgeDump);
      Others(TheWorker);
    }

    /** fullqueue, as the purge calls it: it has the purging task. */
    method TasksToSkip() returns (skip: seq<TaskId>)
      requires Valid() && run.worker.Executing?
      modifies this
      ensures Valid() && Meanwhile(old(run), run)
      ensures run.worker == Purging(old(run).worker.t, skip)
    {
      skip := DumpForPurge();
      if running.Some? && running.value !in skip {
        skip := [running.value] + skip;
      }
      Record(PurgeSkip);
      Others(TheWorker);
    }

    /** shutil.rmtree() of one directory. */
    method RemoveTree(d: TaskId)
      requires Valid() && run.worker.Purging? && d in workspaces && d !in run.worker.skip
      modifies this
      ensures Valid() && run.worker == old(run.worker)
      ensures Meanwhile(old(run).(workspaces := old(workspaces) - {d}), run)
      ensures d in old(run.appended) ==> d in run.done
    {
      SkippedSparesLive(run, d);
      workspaces := workspaces - {d};
      Record(PurgeRemove(d));
      Others(TheWorker);
    }

    /** HistoryManager.purge() inside a task, with any policy: `kept` are the
        directories that it keeps among those it does not skip.  What is left is what
        was kept and the workspace of the task itself; no removed directory is that
        of a live task. */
    method Purge(kept: set<TaskId>)
      requires Valid() && run.worker.Executing?
      modifies this
      ensures Valid() && run.worker == old(run.worker) && run.done == old(run.done)
      ensures registered == old(registered) && old(run.appended) <= run.appended
      ensures workspaces == old(workspaces) * (kept + {run.worker.t})
      ensures forall d :: d in old(workspaces) - workspaces && d in old(run.appended) ==> d in run.done
    {
      ghost var before, t := workspaces, run.worker.t;
      var skip := TasksToSkip();
      OnlyOwnIsSkipped(run);
      var removed := workspaces - (set d | d in skip) - kept;
      while removed != {}
        invariant Valid() && run.worker == Purging(t, skip) && run.done == old(run.done)
        invariant registered == old(registered) && old(run.appended) <= run.appended
        invariant removed <= workspaces && workspaces - removed == before * (kept + {t})
        invariant workspaces <= before && forall d :: d in removed ==> d !in skip
        invariant forall d :: d in before - workspaces && d in old(run.appended) ==> d in run.done
        decreases removed
      {
        var d :| d in removed;
        RemoveTree(d);
        removed := removed - {d};
      }
      EndPurge();
    }

    method EndPurge()
      requires Valid() && run.worker.Purging?
      modifies this
      ensures Valid() && Meanwhile(old(run), run) && run.worker == Executing(old(run).worker.t)
    {
      Record(PurgeEnd);
      Others(TheWorker);
    }

    method Prepare(task: TaskId)
      requires Valid() && run.worker == Registered(task)
      modifies this
      ensures Valid() && run.worker == Executing(task)
      ensures Meanwhile(old(run).(workspaces := old(workspaces) + {task}), run)
    {
      workspaces := workspaces + {task};
      Record(Prerun);
      Others(TheWorker);
    }

    method Terminate(task: TaskId)
      requires Valid() && run.worker == Executing(task)
      modifies this
      ensures Valid() && run.worker == Cleared
      ensures Meanwhile(old(run).(sh := old(run).sh.(running := None), done := old(run).done + [task]), run)
    {
      running := None;
      Record(ClearRunning);
      Others(TheWorker);
    }

    /** save() at the end of run(). */
    method SaveAfterRun() returns (saved: seq<TaskId>)
      requires Valid() && run.worker == Cleared
      modifies this
      ensures Valid() && Meanwhile(old(run), run) && run.worker == Ended
      ensures saved <= queue
    {
      TakeStateLock(WorkerSaveLock);
      saved := DumpAndFree();
    }

    method Execute(task: TaskId, purge: Option<set<TaskId>>)
      requires Valid() && run.worker == Registered(task)
      modifies this
      ensures Valid() && run.worker == Executing(task)
      ensures run.done == old(run.done) && old(run.appended) <= run.appended && registered == old(registered)
      ensures workspaces == if purge == None then old(workspaces) + {task} else old(workspaces) * purge.value + {task}
    {
      Prepare(task);
      if purge.Some? {
        Purge(purge.value);
      }
    }

    /** run(): the task has its workspace, which a purge spares, terminates, and the
        queue is saved. */
    method RunTask(task: TaskId, purge: Option<set<TaskId>>) returns (saved: seq<TaskId>)
      requires Valid() && run.worker == Registered(task)
      modifies this
      ensures Valid() && run.worker == Ended && running == None
      ensures run.done == old(run.done) + [task] && old(run.appended) <= run.appended
      ensures registered == old(registered) && saved <= queue
      ensures workspaces == if purge == None then old(workspaces) + {task} else old(workspaces) * purge.value + {task}
    {
      Execute(task, purge);
      Terminate(task);
      saved := SaveAfterRun();
    }

    /** register_worker() */
    method RegisterWorker(task: TaskId)
      requires Valid() && run.worker == Picked(task)
      modifies this
      ensures Valid() && run.worker == Registered(task)
      ensures Meanwhile(old(run).(registered := true), run)
    {
      registered := true;
      Record(Register);
      Others(TheWorker);
    }

    method SeeQueue() returns (empty: bool)
      requires Valid() && run.worker == Ended
      modifies this
      ensures Valid() && Meanwhile(old(run), run) && run.worker == (if empty then SawEmpty else Checking)
      ensures empty <==> old(queue) == []
    {
      empty := queue == [];
      Record(CheckQueue);
      Others(TheWorker);
    }

    method UnregisterWorker()
      requires Valid() && run.worker == SawEmpty
      modifies this
      ensures Valid() && Meanwhile(old(run).(registered := false), run) && run.worker == Checking
    {
      registered := false;
      Record(Unregister);
      Others(TheWorker);
    }

    /** The worker unregisters if it sees the queue empty. */
    method CheckEmpty()
      requires Valid() && run.worker == Ended
      modifies this
      ensures Valid() && run.worker == Checking && Meanwhile(old(run).(registered := registered), run)
      ensures registered <==> old(registered) && old(queue) != []
    {
      var empty := SeeQueue();
      if empty {
        UnregisterWorker();
      }
    }

    /** The break of the loop, or not: the timer is never over for a registered worker. */
    method LeaveIf(over: bool) returns (left: bool)
      requires Valid() && run.worker == Checking
      modifies this
      ensures Valid() && Meanwhile(old(run), run) && run.worker == (if left then Left else Idle)
      ensures left <==> over && !registered
    {
      left := over && !registered;
      Record(if left then TimerOver else TimerNotOver);
    }

    /** What is left of the loop once pick() has returned a task. */
    method Process(task: TaskId, purge: Option<set<TaskId>>)
      requires Valid() && run.worker == Picked(task)
      modifies this
      ensures Valid() && run.worker == Ended && registered
      ensures run.done == old(run.done) + [task] && old(run.appended) <= run.appended
    {
      RegisterWorker(task);
      var _ := RunTask(task, purge);
    }

    method EndTurn(over: bool) returns (left: bool)
      requires Valid() && run.worker == Ended
      modifies this
      ensures Valid() && run.worker == (if left then Left else Idle)
      ensures run.done == old(run.done) && old(run.appended) <= run.appended
      ensures left <==> over && !registered
    {
      CheckEmpty();
      left := LeaveIf(over);
    }

    /** One turn of the worker loop, `over` being what the timer says unless it holds
        this worker: it terminates exactly the oldest pending task if there is a count
        to take, and none otherwise. */
    method Turn(purge: Option<set<TaskId>>, over: bool) returns (left: bool)
      requires Valid() && run.worker == Idle
      modifies this
      ensures Valid() && run.worker == (if left then Left else Idle)
      ensures left <==> over && !registered
      ensures old(run.appended) <= run.appended
      ensures old(value) == 0 ==> run.done == old(run.done)
      ensures old(value) > 0 ==> old(queue) != [] && run.done == old(run.done) + [old(queue[0])]
    {
      var task := Pick();
      if task.Some? {
        Process(task.value, purge);
      }
      left := EndTurn(over);
    }
  }
}
