/** What holds in every state that a daemon reaches, over any interleaving of
    submitters, readers and the worker of an instance. */
module TaskRuns {
  import opened Wrappers
  import opened TaskQueue

  lemma RunGrows(s: State, a: Action, s': State)
    requires IsRunAction(a) && RunStep(s, a) == Some(s')
    ensures s'.appended == s.appended && s.done <= s'.done && s'.readers == s.readers
  {
  }

  lemma PickGrows(s: State, a: Action, s': State)
    requires IsPickAction(a) && PickStep(s, a) == Some(s')
    ensures s'.appended == s.appended && s'.done == s.done && s'.readers == s.readers
  {
  }

  lemma StepGrows(s: State, a: Action, s': State)
    requires Step(s, a) == Some(s')
    ensures s.appended <= s'.appended && s.done <= s'.done
    ensures !IsReaderAction(a) ==> s'.readers == s.readers
  {
    if IsRunAction(a) {
      RunGrows(s, a, s');
    } else if IsPickAction(a) {
      PickGrows(s, a, s');
    }
  }

  lemma {:induction false} ExecInv(s: State, actions: seq<Action>, s': State)
    requires Inv(s) && Exec(s, actions) == Some(s')
    ensures Inv(s')
    ensures s.appended <= s'.appended && s.done <= s'.done
    decreases actions
  {
    if actions != [] {
      var next := Step(s, actions[0]).value;
      StepInv(s, actions[0], next);
      StepGrows(s, actions[0], next);
      ExecInv(next, actions[1..], s');
    }
  }

  /** States of a daemon started on any workspace directory. */
  ghost predicate Reachable(s: State) {
    exists workspaces, actions :: Exec(Start(workspaces), actions) == Some(s)
  }

  lemma {:induction false} ExecAppend(s: State, actions: seq<Action>, a: Action)
    requires Exec(s, actions).Some?
    ensures Exec(s, actions + [a]) == Step(Exec(s, actions).value, a)
    decreases actions
  {
    if actions == [] {
      var s' := Step(s, a);
      assert ([] + [a])[1..] == [] && (s'.Some? ==> Exec(s'.value, []) == s');
    } else {
      assert (actions + [a])[1..] == actions[1..] + [a];
      ExecAppend(Step(s, actions[0]).value, actions[1..], a);
    }
  }

  lemma ReachableStep(s: State, a: Action) returns (s': State)
    requires Reachable(s) && Step(s, a).Some?
    ensures Step(s, a) == Some(s') && Reachable(s')
  {
    var workspaces, actions :| Exec(Start(workspaces), actions) == Some(s);
    ExecAppend(Start(workspaces), actions, a);
    s' := Step(s, a).value;
  }

  lemma ReachableInv(s: State)
    requires Reachable(s)
    ensures Inv(s)
  {
    var workspaces, actions :| Exec(Start(workspaces), actions) == Some(s);
    StartInv(workspaces);
    ExecInv(Start(workspaces), actions, s);
  }

  /** The semaphore counts the queue exactly, up to the puts and the get in
      progress: popleft is never called on an empty deque, and a wait that ended
      with no task left its count for the next pick. */
  lemma CountIsExact(s: State)
    requires Reachable(s)
    ensures |s.sh.queue| == s.sh.value + |Unreleased(s.submitters)| + Claimed(s.worker)
    ensures s.worker.Locked? ==> Step(s, PopLeft).Some?
    ensures s.worker.Idle? && Unreleased(s.submitters) == {} ==>
              (s.sh.queue != [] <==> Step(s, Acquire).value.worker == Acquired)
  {
    ReachableInv(s);
  }

  /** Conservation and order: terminated tasks, then the one in hand, then the
      queue, are exactly the submissions in order, and each task is in exactly
      one of the three. */
  lemma TasksConserved(s: State, t: TaskId)
    requires Reachable(s)
    ensures s.done + InHand(s.worker) + s.sh.queue == s.appended
    ensures t in s.appended <==> t in s.done || t in InHand(s.worker) || t in s.sh.queue
    ensures t in s.sh.queue ==> t !in s.done && t !in InHand(s.worker)
    ensures t in InHand(s.worker) ==> t !in s.done
    ensures s.sh.running == Some(t) ==> InHand(s.worker) == [t]
    ensures s.sh.lock == Free ==> (t in InHand(s.worker) <==> s.sh.running == Some(t))
  {
    ReachableInv(s);
    HistoryParts(s);
  }

  lemma StepKeepsCall(s: State, r: ThreadId, a: Action, s': State)
    requires Step(s, a) == Some(s') && r in s.readers && a != ReadBegin(r)
    ensures r in s'.readers
    ensures s'.readers[r].since == s.readers[r].since && s'.readers[r].ended == s.readers[r].ended
  {
    StepGrows(s, a, s');
  }

  /** A call in progress keeps the counts taken when it began. */
  lemma {:induction false} CallKeepsStart(s: State, r: ThreadId, actions: seq<Action>, s': State)
    requires Exec(s, actions) == Some(s') && r in s.readers
    requires ReadBegin(r) !in actions
    ensures r in s'.readers
    ensures s'.readers[r].since == s.readers[r].since && s'.readers[r].ended == s.readers[r].ended
    decreases actions
  {
    if actions != [] {
      StepKeepsCall(s, r, actions[0], Step(s, actions[0]).value);
      CallKeepsStart(Step(s, actions[0]).value, r, actions[1..], s');
    }
  }

  /** `fullqueue`, over its whole call and whatever the other threads do in
      between: no duplicate, every task submitted before the call and not
      terminated when it returned, and no task terminated before it began. */
  lemma FullQueueIsComplete(s: State, r: ThreadId, others: seq<Action>, s': State)
    requires Reachable(s)
    requires Exec(s, [ReadBegin(r)] + others) == Some(s')
    requires ReadBegin(r) !in others && r in s'.readers && s'.readers[r].Returned?
    ensures Distinct(s'.readers[r].tasks)
    ensures forall t :: t in s.appended && t !in s'.done ==> t in s'.readers[r].tasks
    ensures forall t :: t in s'.readers[r].tasks ==> t in s'.appended && t !in s.done
  {
    ReachableInv(s);
    var actions := [ReadBegin(r)] + others;
    assert actions[0] == ReadBegin(r) && actions[1..] == others;
    var begun := Step(s, ReadBegin(r)).value;
    CallKeepsStart(begun, r, others, s');
    ExecInv(s, actions, s');
    assert ReadInv(s', s'.readers[r]);
    assert s'.appended[..|s.appended|] == s.appended && s'.done[..|s.done|] == s.done;
  }

  /** A purge never removes the workspace of a task that is pending or running,
      the purge task included, whatever was submitted since its dump. */
  lemma PurgeSparesLiveTasks(s: State, dir: TaskId)
    requires Reachable(s)
    requires Step(s, PurgeRemove(dir)).Some?
    ensures dir !in s.sh.queue && dir !in InHand(s.worker) && s.sh.running != Some(dir)
    ensures dir in s.appended ==> dir in s.done
  {
    ReachableInv(s);
    HistoryParts(s);
  }

  /** From prerun to termination the running task keeps its workspace, and no
      pending task has one. */
  lemma WorkspacesFollowTasks(s: State)
    requires Reachable(s)
    ensures HasWorkspace(s.worker) ==> s.sh.running.Some? && s.sh.running.value in s.workspaces
    ensures forall t :: t in s.sh.queue ==> t !in s.workspaces
  {
    ReachableInv(s);
  }
}
