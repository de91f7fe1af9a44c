/** The purge of the task history (fatbuildr/history.py): the four policies, run on
    the archived tasks from the most recent to the oldest. */
module HistoryPurge {
  import opened Wrappers

  datatype Task = Task(id: string, histid: string, submission: int)

  ghost predicate DistinctIds(tasks: seq<Task>) {
    forall i, j :: 0 <= i < j < |tasks| ==> tasks[i].id != tasks[j].id
  }

  /** The order dump() gives. */
  ghost predicate NewestFirst(tasks: seq<Task>) {
    forall i, j :: 0 <= i < j < |tasks| ==> tasks[i].submission >= tasks[j].submission
  }

  /** The tasks of one histid, in order. */
  function OfHistid(tasks: seq<Task>, histid: string): seq<Task> {
    if tasks == [] then []
    else
      var n := |tasks|;
      OfHistid(tasks[..n - 1], histid) + if tasks[n - 1].histid == histid then [tasks[n - 1]] else []
  }

  function Take<T>(s: seq<T>, n: int): seq<T> {
    if n <= 0 then [] else if n <= |s| then s[..n] else s
  }

  type Sizes = map<string, nat>

  /** The total size of the workspaces of these tasks. */
  function Total(sizes: Sizes, tasks: seq<Task>): nat
    requires forall t :: t in tasks ==> t.id in sizes
  {
    if tasks == [] then 0 else Total(sizes, tasks[..|tasks| - 1]) + sizes[tasks[|tasks| - 1].id]
  }

  function Ids(tasks: seq<Task>): set<string> {
    set t | t in tasks :: t.id
  }

  // ---- what each policy keeps ----

  function KeptOlder(tasks: seq<Task>, limit: int): seq<Task> {
    if tasks == [] then []
    else
      var last := tasks[|tasks| - 1];
      KeptOlder(tasks[..|tasks| - 1], limit) + if last.submission < limit then [] else [last]
  }

  /** Each task with fewer than `value` more recent ones of its histid. */
  function KeptEach(tasks: seq<Task>, value: int): seq<Task> {
    if tasks == [] then []
    else
      var init, last := tasks[..|tasks| - 1], tasks[|tasks| - 1];
      KeptEach(init, value) + if |OfHistid(init, last.histid)| < value then [last] else []
  }

  /** The longest prefix whose workspaces take less than `value` in all, empty when
      even nothing does not. */
  function KeptSize(sizes: Sizes, tasks: seq<Task>, value: int): seq<Task>
    requires forall t :: t in tasks ==> t.id in sizes
  {
    if tasks == [] then []
    else if Total(sizes, tasks) < value then tasks
    else KeptSize(sizes, tasks[..|tasks| - 1], value)
  }

  // ---- the policies, as loops over the workspaces ----

  /** A purge in progress: the workspaces with their sizes, and the report. */
  class PurgePolicy {
    var workspaces: Sizes
    var removedTasks: nat
    var retrievedSize: nat

    constructor (workspaces: Sizes)
      ensures this.workspaces == workspaces && removedTasks == 0 && retrievedSize == 0
    {
      this.workspaces, removedTasks, retrievedSize := workspaces, 0, 0;
    }

    /** remove(): count the task, add up its directory, delete it. */
    method Remove(task: Task)
      requires task.id in workspaces
      modifies this
      ensures workspaces == old(workspaces) - {task.id}
      ensures removedTasks == old(removedTasks) + 1
      ensures retrievedSize == old(retrievedSize) + old(workspaces)[task.id]
    {
      removedTasks := removedTasks + 1;
      retrievedSize := retrievedSize + workspaces[task.id];
      workspaces := workspaces - {task.id};
    }

    /** After a purge of `tasks` that kept `kept`: the workspaces of the others are
        gone and no other one, and the report says how many and how much. */
    ghost predicate Purged(before: Sizes, tasks: seq<Task>, kept: seq<Task>)
      reads this
    {
      && (forall t :: t in tasks ==> t.id in before)
      && (forall t :: t in kept ==> t in tasks)
      && workspaces == before - (Ids(tasks) - Ids(kept))
      && removedTasks == |tasks| - |kept|
      && retrievedSize == Total(before, tasks) - Total(before, kept)
    }

    /** One turn of a policy loop. */
    method Turn(ghost before: Sizes, ghost done: seq<Task>, ghost kept: seq<Task>, task: Task, keep: bool)
      requires Purged(before, done, kept) && task.id in before && task.id !in Ids(done)
      modifies this
      ensures Purged(before, done + [task], if keep then kept + [task] else kept)
    {
      TotalAppend(before, done, task);
      assert Ids(done + [task]) == Ids(done) + {task.id};
      assert task.id !in Ids(kept);
      if keep {
        TotalAppend(before, kept, task);
        assert Ids(kept + [task]) == Ids(kept) + {task.id};
        assert Ids(done + [task]) - Ids(kept + [task]) == Ids(done) - Ids(kept);
      } else {
        assert Ids(done + [task]) - Ids(kept) == (Ids(done) - Ids(kept)) + {task.id};
        Remove(task);
      }
    }

    /** The dictionary of HistoryPurgeEach: how many tasks of each histid so far. */
    static ghost predicate Counted(counts: map<string, nat>, tasks: seq<Task>) {
      forall h :: |OfHistid(tasks, h)| == if h in counts then counts[h] else 0
    }

    static lemma CountedAppend(counts: map<string, nat>, tasks: seq<Task>, t: Task)
      requires Counted(counts, tasks)
      ensures var n := if t.histid in counts then counts[t.histid] + 1 else 1;
              Counted(counts[t.histid := n], tasks + [t]) && n == |OfHistid(tasks, t.histid)| + 1
    {
      assert (tasks + [t])[..|tasks|] == tasks;
    }

    /** HistoryPurgeOlder.run() */
    method RunOlder(tasks: seq<Task>, limit: int)
      requires DistinctIds(tasks) && forall t :: t in tasks ==> t.id in workspaces
      requires removedTasks == 0 && retrievedSize == 0
      modifies this
      ensures Purged(old(workspaces), tasks, KeptOlder(tasks, limit))
    {
      ghost var before := workspaces;
      for k := 0 to |tasks|
        invariant Purged(before, tasks[..k], KeptOlder(tasks[..k], limit))
      {
        NextTask(tasks, k);
        KeptOlderAppend(tasks[..k], tasks[k], limit);
        Turn(before, tasks[..k], KeptOlder(tasks[..k], limit), tasks[k], tasks[k].submission >= limit);
      }
      assert tasks[..|tasks|] == tasks;
    }

    /** HistoryPurgeLast.run() */
    method RunLast(tasks: seq<Task>, value: int)
      requires DistinctIds(tasks) && forall t :: t in tasks ==> t.id in workspaces
      requires removedTasks == 0 && retrievedSize == 0
      modifies this
      ensures Purged(old(workspaces), tasks, Take(tasks, value))
    {
      ghost var before := workspaces;
      var kept := 0;
      for k := 0 to |tasks|
        invariant kept == |Take(tasks[..k], value)|
        invariant Purged(before, tasks[..k], Take(tasks[..k], value))
      {
        NextTask(tasks, k);
        var keep := kept < value;
        Turn(before, tasks[..k], Take(tasks[..k], value), tasks[k], keep);
        TakeAppend(tasks[..k], tasks[k], value);
        if keep {
          kept := kept + 1;
        }
      }
      assert tasks[..|tasks|] == tasks;
    }

    /** HistoryPurgeEach.run() */
    method RunEach(tasks: seq<Task>, value: int)
      requires DistinctIds(tasks) && forall t :: t in tasks ==> t.id in workspaces
      requires removedTasks == 0 && retrievedSize == 0
      modifies this
      ensures Purged(old(workspaces), tasks, KeptEach(tasks, value))
    {
      ghost var before := workspaces;
      var counts: map<string, nat> := map[];
      for k := 0 to |tasks|
        invariant Counted(counts, tasks[..k])
        invariant Purged(before, tasks[..k], KeptEach(tasks[..k], value))
      {
        NextTask(tasks, k);
        var task := tasks[k];
        KeptEachAppend(tasks[..k], task, value);
        CountedAppend(counts, tasks[..k], task);
        if task.histid !in counts {
          counts := counts[task.histid := 1];
        } else {
          counts := counts[task.histid := counts[task.histid] + 1];
        }
        Turn(before, tasks[..k], KeptEach(tasks[..k], value), task, counts[task.histid] <= value);
      }
      assert tasks[..|tasks|] == tasks;
    }

    /** HistoryPurgeSize.run(): the measure stops at the first task that reaches the
        limit, which is removed with all the following ones. */
    method RunSize(tasks: seq<Task>, value: int)
      requires DistinctIds(tasks) && forall t :: t in tasks ==> t.id in workspaces
      requires removedTasks == 0 && retrievedSize == 0
      modifies this
      ensures Purged(old(workspaces), tasks, KeptSize(old(workspaces), tasks, value))
    {
      ghost var before := workspaces;
      var measuredSize := 0;
      for k := 0 to |tasks|
        invariant forall t :: t in tasks[k..] ==> t.id in workspaces && workspaces[t.id] == before[t.id]
        invariant measuredSize <= Total(before, tasks[..k])
        invariant measuredSize < value ==> measuredSize == Total(before, tasks[..k])
        invariant Purged(before, tasks[..k], KeptSize(before, tasks[..k], value))
      {
        NextTask(tasks, k);
        TotalAppend(before, tasks[..k], tasks[k]);
        KeptSizeAppend(before, tasks[..k], tasks[k], value);
        assert tasks[k] in tasks[k..];
        if measuredSize < value {
          measuredSize := measuredSize + workspaces[tasks[k].id];
        }
        Turn(before, tasks[..k], KeptSize(before, tasks[..k], value), tasks[k], measuredSize < value);
        RestUntouched(tasks, k);
      }
      assert tasks[..|tasks|] == tasks;
    }
  }

  lemma KeptOlderAppend(tasks: seq<Task>, t: Task, limit: int)
    ensures KeptOlder(tasks + [t], limit) ==
            if t.submission >= limit then KeptOlder(tasks, limit) + [t] else KeptOlder(tasks, limit)
  {
    assert (tasks + [t])[..|tasks|] == tasks;
  }

  lemma KeptEachAppend(tasks: seq<Task>, t: Task, value: int)
    ensures KeptEach(tasks + [t], value) ==
            if |OfHistid(tasks, t.histid)| < value then KeptEach(tasks, value) + [t] else KeptEach(tasks, value)
  {
    assert (tasks + [t])[..|tasks|] == tasks;
  }

  lemma OfHistidAppend(tasks: seq<Task>, t: Task, histid: string)
    ensures OfHistid(tasks + [t], histid) ==
            if t.histid == histid then OfHistid(tasks, histid) + [t] else OfHistid(tasks, histid)
  {
    assert (tasks + [t])[..|tasks|] == tasks;
  }

  lemma TakeAppend<T>(s: seq<T>, x: T, n: int)
    ensures Take(s + [x], n) == if |Take(s, n)| < n then Take(s, n) + [x] else Take(s, n)
  {
  }

  lemma TotalAppend(sizes: Sizes, tasks: seq<Task>, t: Task)
    requires (forall u :: u in tasks ==> u.id in sizes) && t.id in sizes
    ensures Total(sizes, tasks + [t]) == Total(sizes, tasks) + sizes[t.id]
  {
    assert (tasks + [t])[..|tasks|] == tasks;
  }

  lemma NextTask(tasks: seq<Task>, k: nat)
    requires k < |tasks| && DistinctIds(tasks)
    ensures tasks[..k + 1] == tasks[..k] + [tasks[k]]
    ensures tasks[..k + 1][..k] == tasks[..k]
    ensures tasks[k].id !in Ids(tasks[..k]) && tasks[k] in tasks
  {
  }

  lemma RestUntouched(tasks: seq<Task>, k: nat)
    requires k < |tasks| && DistinctIds(tasks)
    ensures forall t :: t in tasks[k + 1..] ==> t in tasks[k..] && t.id !in Ids(tasks[..k + 1])
  {
  }

  lemma KeptSizeAppend(sizes: Sizes, tasks: seq<Task>, t: Task, value: int)
    requires (forall u :: u in tasks ==> u.id in sizes) && t.id in sizes
    ensures KeptSize(sizes, tasks + [t], value) ==
            if Total(sizes, tasks + [t]) < value then KeptSize(sizes, tasks, value) + [t] else KeptSize(sizes, tasks, value)
  {
    assert (tasks + [t])[..|tasks|] == tasks;
    TotalAppend(sizes, tasks, t);
  }

  // ---- what the kept sets mean ----

  lemma {:induction false} KeptEachMembers(tasks: seq<Task>, value: int)
    ensures forall t :: t in KeptEach(tasks, value) ==> t in tasks
  {
    if tasks != [] {
      KeptEachMembers(tasks[..|tasks| - 1], value);
    }
  }

  /** The policy "each" keeps, of every histid, exactly the first `value` tasks in the
      order of dump(). */
  lemma {:induction false} EachKeepsNewestOfHistid(tasks: seq<Task>, value: int, histid: string)
    ensures OfHistid(KeptEach(tasks, value), histid) == Take(OfHistid(tasks, histid), value)
    decreases |tasks|
  {
    if tasks != [] {
      var init, last := tasks[..|tasks| - 1], tasks[|tasks| - 1];
      assert tasks == init + [last];
      EachKeepsNewestOfHistid(init, value, histid);
      KeptEachAppend(init, last, value);
      OfHistidAppend(init, last, histid);
      OfHistidAppend(KeptEach(init, value), last, histid);
      TakeAppend(OfHistid(init, histid), last, value);
    }
  }

  /** The policy "each" run again on what it kept removes nothing. */
  lemma {:induction false} EachIsIdempotent(tasks: seq<Task>, value: int)
    ensures KeptEach(KeptEach(tasks, value), value) == KeptEach(tasks, value)
    decreases |tasks|
  {
    if tasks != [] {
      var init, last := tasks[..|tasks| - 1], tasks[|tasks| - 1];
      assert tasks == init + [last];
      EachIsIdempotent(init, value);
      EachKeepsNewestOfHistid(init, value, last.histid);
      KeptEachAppend(init, last, value);
      KeptEachAppend(KeptEach(init, value), last, value);
    }
  }

  /** On a history sorted from the most recent, no task that "each" removes is more
      recent than one it keeps of the same histid. */
  lemma {:induction false} EachRemovesOldest(tasks: seq<Task>, value: int, k: Task, r: Task)
    requires NewestFirst(tasks) && k in KeptEach(tasks, value)
    requires r in tasks && r !in KeptEach(tasks, value) && r.histid == k.histid
    ensures k.submission >= r.submission
    decreases |tasks|
  {
    var init, last := tasks[..|tasks| - 1], tasks[|tasks| - 1];
    KeptEachMembers(init, value);
    if k in KeptEach(init, value) {
      if r in init {
        EachRemovesOldest(init, value, k, r);
      } else {
        var i :| 0 <= i < |init| && init[i] == k;
        assert tasks[i] == k && r == last;
      }
    } else {
      // the last task is kept, so all the earlier ones of its histid are
      EachKeepsNewestOfHistid(init, value, k.histid);
      OfHistidMember(init, r);
      OfHistidMember(KeptEach(init, value), r);
    }
  }

  lemma {:induction false} OfHistidMember(tasks: seq<Task>, t: Task)
    ensures t in OfHistid(tasks, t.histid) <==> t in tasks
    decreases |tasks|
  {
    if tasks != [] {
      OfHistidMember(tasks[..|tasks| - 1], t);
      assert tasks == tasks[..|tasks| - 1] + [tasks[|tasks| - 1]];
    }
  }

  lemma {:induction false} TotalOfPrefix(sizes: Sizes, tasks: seq<Task>, n: nat)
    requires n <= |tasks| && forall t :: t in tasks ==> t.id in sizes
    ensures forall t :: t in tasks[..n] ==> t.id in sizes
    ensures Total(sizes, tasks[..n]) <= Total(sizes, tasks)
    decreases |tasks|
  {
    if n < |tasks| {
      assert tasks[..|tasks| - 1][..n] == tasks[..n];
      TotalOfPrefix(sizes, tasks[..|tasks| - 1], n);
    } else {
      assert tasks[..n] == tasks;
    }
  }

  /** The policy "size" keeps the longest prefix that takes less than the limit: a
      prefix of the history is within what is kept exactly when it takes less, or
      is empty. */
  lemma {:induction false} SizeKeepsLongestPrefix(sizes: Sizes, tasks: seq<Task>, value: int, n: nat)
    requires n <= |tasks| && forall t :: t in tasks ==> t.id in sizes
    ensures KeptSize(sizes, tasks, value) <= tasks
    ensures forall t :: t in tasks[..n] ==> t.id in sizes
    ensures n <= |KeptSize(sizes, tasks, value)| <==> n == 0 || Total(sizes, tasks[..n]) < value
    decreases |tasks|
  {
    TotalOfPrefix(sizes, tasks, n);
    assert tasks[..|tasks|] == tasks;
    if tasks != [] && Total(sizes, tasks) >= value {
      var init := tasks[..|tasks| - 1];
      if n < |tasks| {
        assert init[..n] == tasks[..n];
        SizeKeepsLongestPrefix(sizes, init, value, n);
      } else {
        SizeKeepsLongestPrefix(sizes, init, value, |init|);
      }
    }
  }

  /** The other policies run again on what they kept remove nothing. */
  lemma SizeAndLastAreIdempotent(sizes: Sizes, tasks: seq<Task>, value: int)
    requires forall t :: t in tasks ==> t.id in sizes
    ensures var kept := KeptSize(sizes, tasks, value);
            (forall t :: t in kept ==> t.id in sizes) && KeptSize(sizes, kept, value) == kept
    ensures Take(Take(tasks, value), value) == Take(tasks, value)
  {
    var kept := KeptSize(sizes, tasks, value);
    SizeKeepsLongestPrefix(sizes, tasks, value, 0);
    SizeKeepsLongestPrefix(sizes, tasks, value, |kept|);
    assert kept == tasks[..|kept|];
    SizeKeepsLongestPrefix(sizes, kept, value, |kept|);
    assert kept[..|kept|] == kept;
  }

  /** The policy "older" keeps exactly the tasks submitted at the limit or later, and
      removes nothing from what it kept. */
  lemma {:induction false} OlderIsExact(tasks: seq<Task>, limit: int)
    ensures forall t :: t in KeptOlder(tasks, limit) <==> t in tasks && t.submission >= limit
    ensures KeptOlder(KeptOlder(tasks, limit), limit) == KeptOlder(tasks, limit)
    decreases |tasks|
  {
    if tasks != [] {
      var init, last := tasks[..|tasks| - 1], tasks[|tasks| - 1];
      assert tasks == init + [last];
      OlderIsExact(init, limit);
      KeptOlderAppend(init, last, limit);
      KeptOlderAppend(KeptOlder(init, limit), last, limit);
    }
  }
}
