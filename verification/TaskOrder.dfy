/** The order of the tasks that `fullqueue` returns. */
module TaskOrder {
  import opened Wrappers
  import opened TaskQueue
  import opened TaskRuns

  /** `a` was submitted before `b`. */
  ghost predicate Precedes(all: seq<TaskId>, a: TaskId, b: TaskId) {
    exists i, j :: 0 <= i < j < |all| && all[i] == a && all[j] == b
  }

  predicate SliceAt(all: seq<TaskId>, q: seq<TaskId>, k: nat) {
    k + |q| <= |all| && all[k..k + |q|] == q
  }

  /** Successive submissions. */
  ghost predicate Slice(all: seq<TaskId>, q: seq<TaskId>) {
    exists k: nat :: SliceAt(all, q, k)
  }

  /** The listed tasks that are not done come in the order of their submission. */
  ghost predicate LiveInOrder(s: State, q: seq<TaskId>) {
    forall i, j :: 0 <= i < j < |q| && q[i] !in s.done && q[j] !in s.done ==> Precedes(s.appended, q[i], q[j])
  }

  /** What a call of `fullqueue` has of the order so far. */
  ghost predicate ReadOrdered(s: State, pc: ReadPc) {
    match pc
    case Dumped(_, _, q) => Slice(s.appended, q)
    case Returned(_, _, q) => LiveInOrder(s, q)
    case _ => true
  }

  ghost predicate Ordered(s: State) {
    forall r :: r in s.readers ==> ReadOrdered(s, s.readers[r])
  }

  lemma SliceKept(all: seq<TaskId>, more: seq<TaskId>, q: seq<TaskId>)
    requires all <= more && Slice(all, q)
    ensures Slice(more, q)
  {
    var k: nat :| SliceAt(all, q, k);
    assert more[k..k + |q|] == q;
    assert SliceAt(more, q, k);
  }

  lemma PrecedesKept(all: seq<TaskId>, more: seq<TaskId>, a: TaskId, b: TaskId)
    requires all <= more && Precedes(all, a, b)
    ensures Precedes(more, a, b)
  {
    var i, j :| 0 <= i < j < |all| && all[i] == a && all[j] == b;
    assert more[i] == a && more[j] == b;
  }

  lemma OrderKept(s: State, s': State, pc: ReadPc)
    requires s.appended <= s'.appended && s.done <= s'.done
    ensures pc.Dumped? && Slice(s.appended, pc.dumped) ==> Slice(s'.appended, pc.dumped)
    ensures pc.Returned? && LiveInOrder(s, pc.tasks) ==> LiveInOrder(s', pc.tasks)
  {
    if pc.Dumped? && Slice(s.appended, pc.dumped) {
      SliceKept(s.appended, s'.appended, pc.dumped);
    }
    if pc.Returned? && LiveInOrder(s, pc.tasks) {
      forall i, j | 0 <= i < j < |pc.tasks| && pc.tasks[i] !in s'.done && pc.tasks[j] !in s'.done
        ensures Precedes(s'.appended, pc.tasks[i], pc.tasks[j])
      {
        PrecedesKept(s.appended, s'.appended, pc.tasks[i], pc.tasks[j]);
      }
    }
  }

  lemma QueueIsSlice(s: State)
    requires QueueInv(s)
    ensures Slice(s.appended, s.sh.queue)
  {
    var k := |s.done| + |InHand(s.worker)|;
    assert SliceAt(s.appended, s.sh.queue, k);
  }

  lemma SliceInOrder(all: seq<TaskId>, q: seq<TaskId>, i: nat, j: nat)
    requires Slice(all, q) && i < j < |q|
    ensures Precedes(all, q[i], q[j])
  {
    var k: nat :| SliceAt(all, q, k);
    assert all[k + i] == q[i] && all[k + j] == q[j];
  }

  lemma RunningIsBefore(s: State, t: TaskId)
    requires QueueInv(s) && s.sh.running.Some? && t in s.sh.queue
    ensures Precedes(s.appended, s.sh.running.value, t)
  {
    var d := |s.done|;
    var k :| 0 <= k < |s.sh.queue| && s.sh.queue[k] == t;
    assert InHand(s.worker) == [s.sh.running.value];
    assert s.appended[d] == s.sh.running.value && s.appended[d + 1 + k] == t;
  }

  lemma ReturnPair(s: State, ended: nat, q: seq<TaskId>, t: TaskId)
    requires QueueInv(s) && Listing(s, ended, q) && s.sh.running.Some? && s.sh.running.value !in q
    requires t in q && t !in s.done
    ensures Precedes(s.appended, s.sh.running.value, t)
  {
    HistoryParts(s);
    assert InHand(s.worker) == [s.sh.running.value];
    RunningIsBefore(s, t);
  }

  /** The running task first, unless it was dumped: what is returned is in order. */
  lemma ReturnOrder(s: State, ended: nat, q: seq<TaskId>)
    requires QueueInv(s) && Listing(s, ended, q) && Slice(s.appended, q)
    ensures LiveInOrder(s, FullQueue(q, s.sh.running))
  {
    var result := FullQueue(q, s.sh.running);
    var first := |result| - |q|;
    forall i, j | 0 <= i < j < |result| && result[i] !in s.done && result[j] !in s.done
      ensures Precedes(s.appended, result[i], result[j])
    {
      assert result[j] == q[j - first];
      if i >= first {
        SliceInOrder(s.appended, q, i - first, j - first);
      } else {
        ReturnPair(s, ended, q, result[j]);
      }
    }
  }

  lemma ReadStepOrdered(s: State, a: Action, s': State)
    requires Inv(s) && IsReaderAction(a) && ReaderStep(s, a) == Some(s')
    requires a.r in s.readers ==> ReadOrdered(s, s.readers[a.r])
    ensures ReadOrdered(s', s'.readers[a.r])
  {
    if a.ReadDump? {
      QueueIsSlice(s);
    } else if a.ReadRunning? {
      assert ReadInv(s, s.readers[a.r]);
      ReturnOrder(s, s.readers[a.r].ended, s.readers[a.r].dumped);
    }
  }

  lemma StepOrdered(s: State, a: Action, s': State)
    requires Inv(s) && Ordered(s) && Step(s, a) == Some(s')
    ensures Ordered(s')
  {
    StepGrows(s, a, s');
    if IsReaderAction(a) {
      ReadStepOrdered(s, a, s');
    }
    forall r | r in s'.readers
      ensures ReadOrdered(s', s'.readers[r])
    {
      if !IsReaderAction(a) || r != a.r {
        assert r in s.readers && s'.readers[r] == s.readers[r];
        OrderKept(s, s', s.readers[r]);
      }
    }
  }

  lemma {:induction false} ExecOrdered(s: State, actions: seq<Action>, s': State)
    requires Inv(s) && Ordered(s) && Exec(s, actions) == Some(s')
    ensures Ordered(s')
    decreases actions
  {
    if actions != [] {
      var next := Step(s, actions[0]).value;
      StepInv(s, actions[0], next);
      StepOrdered(s, actions[0], next);
      ExecOrdered(next, actions[1..], s');
    }
  }

  /** In every reachable state, what a call of `fullqueue` returned has the tasks that are
      not terminated in the order of their submission. */
  lemma FullQueueIsOrdered(s: State, r: ThreadId)
    requires Reachable(s) && r in s.readers && s.readers[r].Returned?
    ensures LiveInOrder(s, s.readers[r].tasks)
  {
    var workspaces, actions :| Exec(Start(workspaces), actions) == Some(s);
    StartInv(workspaces);
    ExecOrdered(Start(workspaces), actions, s);
    assert ReadOrdered(s, s.readers[r]);
  }
}
