/** The task queue of one instance (fatbuildr/tasks/manager.py) as a step
    relation: any number of submitters, any number of threads reading
    `fullqueue`, and the single worker thread (fatbuildr/cli/fatbuildrd.py) that
    picks, runs and terminates tasks, history purges included, until it leaves.
    Every step is one access to shared data. */
module TaskQueue {
  import opened Wrappers

  type TaskId = string
  type ThreadId = nat

  datatype Holder = Free | Worker | Submitter(i: ThreadId) | Reader(r: ThreadId)

  /** The data shared by the threads: the deque, the semaphore value, the state
      lock and the `running` attribute. */
  datatype Shared = Shared(queue: seq<TaskId>, value: nat, lock: Holder, running: Option<TaskId>)

  /** Program points of submit(): put() appends, then releases the semaphore;
      save() dumps the queue under the state lock. */
  datatype SubmitPc = Appended | Released | Saving | Submitted

  /** Program points of the worker loop: pick(), register_worker(), run(), the purge
      a task may run, the save() that ends run(), and the end of the loop, where the
      worker looks at the queue, then at the timer, and may leave. */
  datatype WorkerPc =
    | Idle
    | Waiting
    | Acquired
    | Locked
    | Popped(t: TaskId)
    | Published(t: TaskId)
    | Picked(t: TaskId)
    | Registered(t: TaskId)
    | Executing(t: TaskId)
    | PurgeLocked(t: TaskId)
    | PurgeDumped(t: TaskId, dumped: seq<TaskId>)
    | Purging(t: TaskId, skip: seq<TaskId>)
    | Cleared
    | WorkerSaving
    | Ended
    | SawEmpty
    | Checking
    | Left

  /** A call of `fullqueue` on another thread.  `since` and `ended` are how many
      tasks had been submitted and terminated when the call began. */
  datatype ReadPc =
    | Begun(since: nat, ended: nat)
    | Reading(since: nat, ended: nat)
    | Dumped(since: nat, ended: nat, dumped: seq<TaskId>)
    | Returned(since: nat, ended: nat, tasks: seq<TaskId>)

  /** `appended` and `done` record the run: every task ever put in the queue and
      every task terminated, in order. `workspaces` is the directory listing;
      `registered` tells whether the server timer holds this worker. */
  datatype State = State(
    sh: Shared,
    worker: WorkerPc,
    registered: bool,
    submitters: map<ThreadId, SubmitPc>,
    readers: map<ThreadId, ReadPc>,
    workspaces: set<TaskId>,
    appended: seq<TaskId>,
    done: seq<TaskId>)

  datatype Action =
    | Append(i: ThreadId, task: TaskId)
    | Release(i: ThreadId)
    | SaveLock(i: ThreadId)
    | SaveUnlock(i: ThreadId)
    | Acquire
    | WaitEnds
    | TakeLock
    | PopLeft
    | SetRunning
    | FreeLock
    | Prerun
    | PurgeLock
    | PurgeDump
    | PurgeSkip
    | PurgeRemove(dir: TaskId)
    | PurgeEnd
    | ClearRunning
    | WorkerSaveLock
    | WorkerSaveUnlock
    | Register
    | CheckQueue
    | Unregister
    | TimerOver
    | TimerNotOver
    | ReadBegin(r: ThreadId)
    | ReadLock(r: ThreadId)
    | ReadDump(r: ThreadId)
    | ReadRunning(r: ThreadId)

  predicate IsSubmitterAction(a: Action) {
    a.Append? || a.Release? || a.SaveLock? || a.SaveUnlock?
  }

  predicate IsReaderAction(a: Action) {
    a.ReadBegin? || a.ReadLock? || a.ReadDump? || a.ReadRunning?
  }

  predicate IsPickAction(a: Action) {
    a.Acquire? || a.WaitEnds? || a.TakeLock? || a.PopLeft? || a.SetRunning? || a.FreeLock?
  }

  predicate IsLoopAction(a: Action) {
    a.Register? || a.CheckQueue? || a.Unregister? || a.TimerOver? || a.TimerNotOver?
  }

  predicate IsWorkerAction(a: Action) {
    !IsSubmitterAction(a) && !IsReaderAction(a)
  }

  predicate IsRunAction(a: Action) {
    IsWorkerAction(a) && !IsPickAction(a) && !IsLoopAction(a)
  }

  /** What `fullqueue` makes of a dumped queue and the running task. */
  function FullQueue(dumped: seq<TaskId>, running: Option<TaskId>): seq<TaskId> {
    if running.Some? && running.value !in dumped then [running.value] + dumped else dumped
  }

  function SubmitterStep(s: State, a: Action): Option<State>
    requires IsSubmitterAction(a)
  {
    match a
    case Append(i, t) =>
      // identifiers are fresh UUIDs: neither used before nor naming a directory
      if (i in s.submitters && s.submitters[i] != Submitted) || t in s.appended || t in s.workspaces then None
      else Some(s.(sh := s.sh.(queue := s.sh.queue + [t]), appended := s.appended + [t],
                   submitters := s.submitters[i := Appended]))
    case Release(i) =>
      if i !in s.submitters || s.submitters[i] != Appended then None
      else Some(s.(sh := s.sh.(value := s.sh.value + 1), submitters := s.submitters[i := Released]))
    case SaveLock(i) =>
      if i !in s.submitters || s.submitters[i] != Released || s.sh.lock != Free then None
      else Some(s.(sh := s.sh.(lock := Submitter(i)), submitters := s.submitters[i := Saving]))
    case SaveUnlock(i) =>
      if i !in s.submitters || s.submitters[i] != Saving then None
      else Some(s.(sh := s.sh.(lock := Free), submitters := s.submitters[i := Submitted]))
  }

  function ReaderStep(s: State, a: Action): Option<State>
    requires IsReaderAction(a)
  {
    match a
    case ReadBegin(r) =>
      if r in s.readers && !s.readers[r].Returned? then None
      else Some(s.(readers := s.readers[r := Begun(|s.appended|, |s.done|)]))
    case ReadLock(r) =>
      if r !in s.readers || !s.readers[r].Begun? || s.sh.lock != Free then None
      else Some(s.(sh := s.sh.(lock := Reader(r)),
                   readers := s.readers[r := Reading(s.readers[r].since, s.readers[r].ended)]))
    case ReadDump(r) =>
      if r !in s.readers || !s.readers[r].Reading? then None
      else Some(s.(sh := s.sh.(lock := Free),
                   readers := s.readers[r := Dumped(s.readers[r].since, s.readers[r].ended, s.sh.queue)]))
    case ReadRunning(r) =>
      if r !in s.readers || !s.readers[r].Dumped? then None
      else Some(s.(readers := s.readers[r := Returned(s.readers[r].since, s.readers[r].ended,
                                                      FullQueue(s.readers[r].dumped, s.sh.running))]))
  }

  /** acquire() takes the count if there is one and otherwise waits; whatever
      ends the wait (a release, the timeout, interrupt_get), it returns False and
      pick() returns None. */
  function PickStep(s: State, a: Action): Option<State>
    requires IsPickAction(a)
  {
    match a
    case Acquire =>
      if !s.worker.Idle? then None
      else if s.sh.value == 0 then Some(s.(worker := Waiting))
      else Some(s.(sh := s.sh.(value := s.sh.value - 1), worker := Acquired))
    case WaitEnds =>
      if !s.worker.Waiting? then None else Some(s.(worker := Ended))
    case TakeLock =>
      if !s.worker.Acquired? || s.sh.lock != Free then None
      else Some(s.(sh := s.sh.(lock := Worker), worker := Locked))
    case PopLeft =>
      // popleft on an empty deque raises IndexError: it is not a step here, and
      // PopLeftNeverFails shows that it never happens
      if !s.worker.Locked? || s.sh.queue == [] then None
      else Some(s.(sh := s.sh.(queue := s.sh.queue[1..]), worker := Popped(s.sh.queue[0])))
    case SetRunning =>
      if !s.worker.Popped? then None
      else Some(s.(sh := s.sh.(running := Some(s.worker.t)), worker := Published(s.worker.t)))
    case FreeLock =>
      if !s.worker.Published? then None
      else Some(s.(sh := s.sh.(lock := Free), worker := Picked(s.worker.t)))
  }

  /** run(): prerun creates the workspace, the task executes (a purge dumps
      `fullqueue`, then removes directories it does not name), `running` is reset
      and the queue saved.  PurgeRemove covers malformed directories and every
      purge policy: it may remove any directory that is not skipped. */
  function RunStep(s: State, a: Action): Option<State>
    requires IsRunAction(a)
  {
    match a
    case Prerun =>
      if !s.worker.Registered? then None
      else Some(s.(workspaces := s.workspaces + {s.worker.t}, worker := Executing(s.worker.t)))
    case PurgeLock =>
      if !s.worker.Executing? || s.sh.lock != Free then None
      else Some(s.(sh := s.sh.(lock := Worker), worker := PurgeLocked(s.worker.t)))
    case PurgeDump =>
      if !s.worker.PurgeLocked? then None
      else Some(s.(sh := s.sh.(lock := Free), worker := PurgeDumped(s.worker.t, s.sh.queue)))
    case PurgeSkip =>
      if !s.worker.PurgeDumped? then None
      else Some(s.(worker := Purging(s.worker.t, FullQueue(s.worker.dumped, s.sh.running))))
    case PurgeRemove(d) =>
      if !s.worker.Purging? || d !in s.workspaces || d in s.worker.skip then None
      else Some(s.(workspaces := s.workspaces - {d}))
    case PurgeEnd =>
      if !s.worker.Purging? then None else Some(s.(worker := Executing(s.worker.t)))
    case ClearRunning =>
      if !s.worker.Executing? then None
      else Some(s.(sh := s.sh.(running := None), done := s.done + [s.worker.t], worker := Cleared))
    case WorkerSaveLock =>
      if !s.worker.Cleared? || s.sh.lock != Free then None
      else Some(s.(sh := s.sh.(lock := Worker), worker := WorkerSaving))
    case WorkerSaveUnlock =>
      if !s.worker.WorkerSaving? then None
      else Some(s.(sh := s.sh.(lock := Free), worker := Ended))
  }

  /** What the worker loop does around pick() and run(): it registers with the timer
      for a task, unregisters when it sees the queue empty, and leaves when the
      timer is over.  That depends on the clock and the other workers; the timer is
      never over while this worker is registered (module WorkerTimer). */
  function LoopStep(s: State, a: Action): Option<State>
    requires IsLoopAction(a)
  {
    match a
    case Register =>
      if !s.worker.Picked? then None
      else Some(s.(registered := true, worker := Registered(s.worker.t)))
    case CheckQueue =>
      if !s.worker.Ended? then None
      else Some(s.(worker := if s.sh.queue == [] then SawEmpty else Checking))
    case Unregister =>
      if !s.worker.SawEmpty? then None
      else Some(s.(registered := false, worker := Checking))
    case TimerOver =>
      if !s.worker.Checking? || s.registered then None
      else Some(s.(worker := Left))
    case TimerNotOver =>
      if !s.worker.Checking? then None
      else Some(s.(worker := Idle))
  }

  /** One step of one thread, None when that thread cannot take it. */
  function Step(s: State, a: Action): Option<State> {
    if IsSubmitterAction(a) then SubmitterStep(s, a)
    else if IsReaderAction(a) then ReaderStep(s, a)
    else if IsPickAction(a) then PickStep(s, a)
    else if IsLoopAction(a) then LoopStep(s, a)
    else RunStep(s, a)
  }

  /** A run: the state after an interleaving of steps, None when one of them was
      not possible. */
  function Exec(s: State, actions: seq<Action>): Option<State>
    decreases actions
  {
    if actions == [] then Some(s)
    else match Step(s, actions[0])
         case None => None
         case Some(s') => Exec(s', actions[1..])
  }

  /** A fresh start: the queue is empty, and directories of earlier runs exist. */
  function Start(workspaces: set<TaskId>): State {
    State(Shared([], 0, Free, None), Idle, false, map[], map[], workspaces, [], [])
  }

  // ---- the invariant ----

  /** The task the worker holds between popleft and termination. */
  function InHand(w: WorkerPc): seq<TaskId> {
    match w
    case Idle | Waiting | Acquired | Locked | Cleared | WorkerSaving | Ended | SawEmpty | Checking | Left => []
    case _ => [w.t]
  }

  function RunningOf(w: WorkerPc): Option<TaskId> {
    match w
    case Idle | Waiting | Acquired | Locked | Popped(_) => None
    case Cleared | WorkerSaving | Ended | SawEmpty | Checking | Left => None
    case _ => Some(w.t)
  }

  predicate HoldsLock(w: WorkerPc) {
    w.Locked? || w.Popped? || w.Published? || w.PurgeLocked? || w.WorkerSaving?
  }

  predicate HasWorkspace(w: WorkerPc) {
    w.Executing? || w.PurgeLocked? || w.PurgeDumped? || w.Purging?
  }

  /** Threads between the append and the release of put(). */
  function Unreleased(submitters: map<ThreadId, SubmitPc>): set<ThreadId> {
    set i | i in submitters && submitters[i] == Appended
  }

  /** Counts taken by a get() that has not yet popped. */
  function Claimed(w: WorkerPc): nat {
    if w.Acquired? || w.Locked? then 1 else 0
  }

  ghost predicate QueueInv(s: State) {
    && s.appended == s.done + InHand(s.worker) + s.sh.queue
    && Distinct(s.appended)
    && |s.sh.queue| == s.sh.value + |Unreleased(s.submitters)| + Claimed(s.worker)
    && s.sh.running == RunningOf(s.worker)
  }

  ghost predicate LockInv(s: State) {
    && (s.sh.lock == Worker <==> HoldsLock(s.worker))
    && (forall i :: s.sh.lock == Submitter(i) <==> i in s.submitters && s.submitters[i] == Saving)
    && (forall r :: s.sh.lock == Reader(r) <==> r in s.readers && s.readers[r].Reading?)
  }

  /** Only the task being run owns a workspace among the live ones. */
  ghost predicate WorkspaceInv(s: State) {
    && (forall t :: t in s.sh.queue ==> t !in s.workspaces)
    && (HasWorkspace(s.worker) ==> s.worker.t in s.workspaces)
    && ((s.worker.Popped? || s.worker.Published? || s.worker.Picked? || s.worker.Registered?) ==>
          s.worker.t !in s.workspaces)
    && (s.worker.PurgeDumped? ==> forall t :: t in s.worker.dumped ==> t in s.sh.queue)
    && (s.worker.Purging? ==> s.worker.t in s.worker.skip
                              && forall t :: t in s.worker.skip ==> t == s.worker.t || t in s.sh.queue)
  }

  /** Every task submitted before the call is listed unless it is running or done. */
  ghost predicate Covers(s: State, since: nat, q: seq<TaskId>) {
    since <= |s.appended| &&
    forall t :: t in s.appended[..since] ==> t in q || t in s.done || s.sh.running == Some(t)
  }

  ghost predicate CoversLive(s: State, since: nat, q: seq<TaskId>) {
    since <= |s.appended| && forall t :: t in s.appended[..since] ==> t in q || t in s.done
  }

  /** A list of distinct submitted tasks, none of them done when the call began. */
  ghost predicate Listing(s: State, ended: nat, q: seq<TaskId>) {
    && ended <= |s.done|
    && Distinct(q)
    && forall t :: t in q ==> t in s.appended && t !in s.done[..ended]
  }

  ghost predicate ReadInv(s: State, pc: ReadPc) {
    match pc
    case Begun(since, ended) => since <= |s.appended| && ended <= |s.done|
    case Reading(since, ended) => since <= |s.appended| && ended <= |s.done|
    case Dumped(since, ended, q) => Covers(s, since, q) && Listing(s, ended, q)
    case Returned(since, ended, q) => CoversLive(s, since, q) && Listing(s, ended, q)
  }

  ghost predicate ReadersInv(s: State) {
    forall r :: r in s.readers ==> ReadInv(s, s.readers[r])
  }

  ghost predicate Inv(s: State) {
    QueueInv(s) && LockInv(s) && WorkspaceInv(s) && ReadersInv(s)
  }

  // ---- the invariant is inductive ----

  /** The terminated tasks, the one in hand and the queued ones are disjoint. */
  lemma HistoryParts(s: State)
    requires QueueInv(s)
    ensures Distinct(s.done) && Distinct(s.sh.queue)
    ensures forall t :: t in s.appended <==> t in s.done || t in InHand(s.worker) || t in s.sh.queue
    ensures forall t :: t in s.sh.queue ==> t !in s.done && t !in InHand(s.worker)
    ensures forall t :: t in InHand(s.worker) ==> t !in s.done
  {
    var d, h, q := s.done, InHand(s.worker), s.sh.queue;
    assert forall i :: 0 <= i < |d| ==> s.appended[i] == d[i];
    assert forall i :: 0 <= i < |h| ==> s.appended[|d| + i] == h[i];
    assert forall i :: 0 <= i < |q| ==> s.appended[|d| + |h| + i] == q[i];
  }

  lemma StartInv(workspaces: set<TaskId>)
    ensures Inv(Start(workspaces))
  {
    assert Unreleased(map[]) == {};
  }

  lemma UnreleasedAppended(m: map<ThreadId, SubmitPc>, i: ThreadId)
    requires i in m ==> m[i] == Submitted
    ensures |Unreleased(m[i := Appended])| == |Unreleased(m)| + 1
  {
    assert Unreleased(m[i := Appended]) == Unreleased(m) + {i};
  }

  lemma UnreleasedReleased(m: map<ThreadId, SubmitPc>, i: ThreadId)
    requires i in m && m[i] == Appended
    ensures |Unreleased(m[i := Released])| == |Unreleased(m)| - 1
  {
    assert Unreleased(m[i := Released]) == Unreleased(m) - {i};
  }

  lemma UnreleasedOther(m: map<ThreadId, SubmitPc>, i: ThreadId, pc: SubmitPc)
    requires i in m && m[i] != Appended && pc != Appended
    ensures Unreleased(m[i := pc]) == Unreleased(m)
  {
  }

  /** Growth of the two histories keeps what readers already know. */
  lemma ReadersKept(s: State, s': State)
    requires ReadersInv(s) && s'.readers == s.readers
    requires s.appended <= s'.appended && s.done <= s'.done
    requires s'.sh.running == s.sh.running || s.sh.running == None
             || (s.sh.running.Some? && s.sh.running.value in s'.done)
    ensures ReadersInv(s')
  {
    forall r | r in s'.readers
      ensures ReadInv(s', s'.readers[r])
    {
      var pc := s.readers[r];
      assert ReadInv(s, pc);
      assert s'.appended[..pc.since] == s.appended[..pc.since];
      assert s'.done[..pc.ended] == s.done[..pc.ended];
    }
  }

  lemma SubmitterQueueInv(s: State, a: Action, s': State)
    requires QueueInv(s)
    requires IsSubmitterAction(a)
    requires SubmitterStep(s, a) == Some(s')
    ensures QueueInv(s')
  {
    match a
    case Append(i, t) => UnreleasedAppended(s.submitters, i);
    case Release(i) => UnreleasedReleased(s.submitters, i);
    case SaveLock(i) => UnreleasedOther(s.submitters, i, Saving);
    case SaveUnlock(i) => UnreleasedOther(s.submitters, i, Submitted);
  }

  lemma SubmitterInv(s: State, a: Action, s': State)
    requires Inv(s)
    requires IsSubmitterAction(a)
    requires SubmitterStep(s, a) == Some(s')
    ensures Inv(s')
  {
    SubmitterQueueInv(s, a, s');
    ReadersKept(s, s');
  }

  lemma PickQueueInv(s: State, a: Action, s': State)
    requires QueueInv(s) && IsPickAction(a)
    requires PickStep(s, a) == Some(s')
    ensures QueueInv(s')
  {
  }

  lemma PickLockInv(s: State, a: Action, s': State)
    requires LockInv(s) && IsPickAction(a)
    requires PickStep(s, a) == Some(s')
    ensures LockInv(s')
  {
  }

  lemma PickWorkspaceInv(s: State, a: Action, s': State)
    requires QueueInv(s) && WorkspaceInv(s) && IsPickAction(a)
    requires PickStep(s, a) == Some(s')
    ensures WorkspaceInv(s')
  {
    HistoryParts(s);
  }

  lemma PickInv(s: State, a: Action, s': State)
    requires Inv(s) && IsPickAction(a)
    requires PickStep(s, a) == Some(s')
    ensures Inv(s')
  {
    PickQueueInv(s, a, s');
    PickLockInv(s, a, s');
    PickWorkspaceInv(s, a, s');
    ReadersKept(s, s');
  }

  lemma RunQueueInv(s: State, a: Action, s': State)
    requires QueueInv(s) && IsRunAction(a)
    requires RunStep(s, a) == Some(s')
    ensures QueueInv(s')
  {
  }

  lemma RunLockInv(s: State, a: Action, s': State)
    requires LockInv(s) && IsRunAction(a)
    requires RunStep(s, a) == Some(s')
    ensures LockInv(s')
  {
  }

  lemma RunWorkspaceInv(s: State, a: Action, s': State)
    requires QueueInv(s) && WorkspaceInv(s) && IsRunAction(a)
    requires RunStep(s, a) == Some(s')
    ensures WorkspaceInv(s')
  {
    HistoryParts(s);
  }

  lemma RunInv(s: State, a: Action, s': State)
    requires Inv(s) && IsRunAction(a)
    requires RunStep(s, a) == Some(s')
    ensures Inv(s')
  {
    RunQueueInv(s, a, s');
    RunLockInv(s, a, s');
    RunWorkspaceInv(s, a, s');
    ReadersKept(s, s');
  }

  lemma LoopInv(s: State, a: Action, s': State)
    requires Inv(s) && IsLoopAction(a)
    requires LoopStep(s, a) == Some(s')
    ensures Inv(s')
  {
    ReadersKept(s, s');
  }

  lemma DumpCovers(s: State, since: nat, ended: nat)
    requires QueueInv(s) && since <= |s.appended| && ended <= |s.done|
    requires !s.worker.Popped?
    ensures Covers(s, since, s.sh.queue) && Listing(s, ended, s.sh.queue)
  {
    HistoryParts(s);
    forall t | t in s.appended[..since]
      ensures t in s.sh.queue || t in s.done || s.sh.running == Some(t)
    {
      assert t in s.appended;
    }
  }

  /** What fullqueue returns: the dump, completed by the task read as running. */
  lemma ReturnCovers(s: State, since: nat, ended: nat, q: seq<TaskId>)
    requires QueueInv(s) && Covers(s, since, q) && Listing(s, ended, q)
    ensures CoversLive(s, since, FullQueue(q, s.sh.running))
    ensures Listing(s, ended, FullQueue(q, s.sh.running))
  {
    HistoryParts(s);
    var result := FullQueue(q, s.sh.running);
    forall t | t in s.appended[..since]
      ensures t in result || t in s.done
    {
      if t !in q && t !in s.done {
        assert result[0] == t;
      }
    }
  }

  lemma ReaderInv(s: State, a: Action, s': State)
    requires Inv(s)
    requires IsReaderAction(a)
    requires ReaderStep(s, a) == Some(s')
    ensures Inv(s')
  {
    if a.ReadDump? {
      DumpCovers(s, s.readers[a.r].since, s.readers[a.r].ended);
    } else if a.ReadRunning? {
      ReturnCovers(s, s.readers[a.r].since, s.readers[a.r].ended, s.readers[a.r].dumped);
    }
    forall r | r in s'.readers
      ensures ReadInv(s', s'.readers[r])
    {
      assert r != a.r ==> ReadInv(s, s.readers[r]) && s'.readers[r] == s.readers[r];
    }
  }

  lemma StepInv(s: State, a: Action, s': State)
    requires Inv(s) && Step(s, a) == Some(s')
    ensures Inv(s')
  {
    if IsSubmitterAction(a) {
      SubmitterInv(s, a, s');
    } else if IsReaderAction(a) {
      ReaderInv(s, a, s');
    } else if IsPickAction(a) {
      PickInv(s, a, s');
    } else if IsLoopAction(a) {
      LoopInv(s, a, s');
    } else {
      RunInv(s, a, s');
    }
  }
}
