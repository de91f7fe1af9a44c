/** Where the history to purge comes from (fatbuildr/history.py): dump() reads the
    workspaces in the order of a directory listing, then sorts them by date of
    submission.  That date is a default argument (fatbuildr/tasks/__init__.py:286),
    one for all the tasks of a daemon, so ties are the rule. */
module HistoryListing {
  import opened Wrappers
  import opened HistoryPurge

  function Insert(t: Task, tasks: seq<Task>): seq<Task> {
    if tasks == [] || t.submission >= tasks[0].submission then [t] + tasks else [tasks[0]] + Insert(t, tasks[1..])
  }

  /** tasks.sort(key=submission, reverse=True): stable, equal dates keep their order. */
  function Sort(listing: seq<Task>): seq<Task> {
    if listing == [] then [] else Insert(listing[0], Sort(listing[1..]))
  }

  /** Two listings of the same workspaces. */
  ghost predicate Relisted(a: seq<Task>, b: seq<Task>) {
    multiset(a) == multiset(b)
  }

  function Elements(tasks: seq<Task>): set<Task> {
    set t | t in tasks
  }

  lemma {:induction false} InsertAdds(t: Task, tasks: seq<Task>)
    ensures multiset(Insert(t, tasks)) == multiset(tasks) + multiset{t}
    decreases tasks
  {
    if tasks != [] && t.submission < tasks[0].submission {
      InsertAdds(t, tasks[1..]);
      assert tasks == [tasks[0]] + tasks[1..];
    }
  }

  lemma Prepend(t: Task, rest: seq<Task>)
    requires NewestFirst(rest) && forall u :: u in rest ==> t.submission >= u.submission
    ensures NewestFirst([t] + rest)
  {
  }

  lemma HeadIsNewest(tasks: seq<Task>)
    requires NewestFirst(tasks) && tasks != []
    ensures NewestFirst(tasks[1..]) && forall u :: u in tasks ==> tasks[0].submission >= u.submission
  {
  }

  lemma {:induction false} InsertIsSorted(t: Task, tasks: seq<Task>)
    requires NewestFirst(tasks)
    ensures NewestFirst(Insert(t, tasks))
    ensures forall u :: u in Insert(t, tasks) ==> u == t || u in tasks
    decreases tasks
  {
    if tasks == [] {
    } else if t.submission >= tasks[0].submission {
      HeadIsNewest(tasks);
      Prepend(t, tasks);
    } else {
      HeadIsNewest(tasks);
      InsertIsSorted(t, tasks[1..]);
      Prepend(tasks[0], Insert(t, tasks[1..]));
    }
  }

  lemma {:induction false} SortIsSorted(listing: seq<Task>)
    ensures NewestFirst(Sort(listing)) && Relisted(Sort(listing), listing)
    decreases listing
  {
    if listing != [] {
      SortIsSorted(listing[1..]);
      InsertIsSorted(listing[0], Sort(listing[1..]));
      InsertAdds(listing[0], Sort(listing[1..]));
      assert listing == [listing[0]] + listing[1..];
    }
  }

  /** The tasks of one date, in order. */
  function OfDate(tasks: seq<Task>, date: int): seq<Task> {
    if tasks == [] then [] else IfOfDate(tasks[0], date) + OfDate(tasks[1..], date)
  }

  function IfOfDate(t: Task, date: int): seq<Task> {
    if t.submission == date then [t] else []
  }

  lemma OfDatePrepend(t: Task, tasks: seq<Task>, date: int)
    ensures OfDate([t] + tasks, date) == IfOfDate(t, date) + OfDate(tasks, date)
  {
    assert ([t] + tasks)[1..] == tasks;
  }

  lemma {:induction false} InsertIsFirstOfDate(t: Task, tasks: seq<Task>, date: int)
    ensures OfDate(Insert(t, tasks), date) == IfOfDate(t, date) + OfDate(tasks, date)
    decreases tasks
  {
    if tasks == [] || t.submission >= tasks[0].submission {
      OfDatePrepend(t, tasks, date);
    } else {
      var head, rest := tasks[0], OfDate(tasks[1..], date);
      InsertIsFirstOfDate(t, tasks[1..], date);
      OfDatePrepend(head, Insert(t, tasks[1..]), date);
      Swap(IfOfDate(head, date), IfOfDate(t, date), rest);
    }
  }

  lemma Swap(a: seq<Task>, b: seq<Task>, rest: seq<Task>)
    requires a == [] || b == []
    ensures a + (b + rest) == b + (a + rest)
  {
  }

  /** The sort is stable: the tasks of any date come in the order of the listing. */
  lemma {:induction false} SortIsStable(listing: seq<Task>, date: int)
    ensures OfDate(Sort(listing), date) == OfDate(listing, date)
    decreases listing
  {
    if listing != [] {
      SortIsStable(listing[1..], date);
      InsertIsFirstOfDate(listing[0], Sort(listing[1..]), date);
    }
  }

  lemma {:induction false} SortOfSorted(tasks: seq<Task>)
    requires NewestFirst(tasks)
    ensures Sort(tasks) == tasks
    decreases tasks
  {
    if tasks != [] {
      SortOfSorted(tasks[1..]);
      assert tasks == [tasks[0]] + tasks[1..];
    }
  }

  // ---- distinct tasks, whatever the listing ----

  lemma {:induction false} DistinctCounts(tasks: seq<Task>)
    requires Distinct(tasks)
    ensures forall t :: multiset(tasks)[t] <= 1
    decreases tasks
  {
    if tasks != [] {
      var init, last := tasks[..|tasks| - 1], tasks[|tasks| - 1];
      DistinctCounts(init);
      assert tasks == init + [last];
      assert last !in init;
    }
  }

  lemma CountsDistinct(tasks: seq<Task>)
    requires forall t :: multiset(tasks)[t] <= 1
    ensures Distinct(tasks)
  {
    forall i, j | 0 <= i < j < |tasks|
      ensures tasks[i] != tasks[j]
    {
      assert tasks == tasks[..j] + [tasks[j]] + tasks[j + 1..];
      assert multiset(tasks)[tasks[j]] >= multiset(tasks[..j])[tasks[j]] + 1;
      assert tasks[j] !in multiset(tasks[..j]);
      assert tasks[..j][i] == tasks[i];
    }
  }

  lemma RelistedDistinct(a: seq<Task>, b: seq<Task>)
    requires Relisted(a, b) && Distinct(a)
    ensures Distinct(b)
  {
    DistinctCounts(a);
    CountsDistinct(b);
  }

  lemma RelistedMembers(a: seq<Task>, b: seq<Task>)
    requires Relisted(a, b)
    ensures |a| == |b| && forall t :: t in a <==> t in b
  {
    assert |a| == |multiset(a)| && |b| == |multiset(b)|;
    assert forall t :: t in a <==> t in multiset(a);
    assert forall t :: t in b <==> t in multiset(b);
  }

  lemma {:induction false} SizeOfElements(tasks: seq<Task>)
    requires Distinct(tasks)
    ensures |Elements(tasks)| == |tasks|
    decreases tasks
  {
    if tasks != [] {
      var init, last := tasks[..|tasks| - 1], tasks[|tasks| - 1];
      SizeOfElements(init);
      assert Elements(tasks) == Elements(init) + {last};
      assert last !in Elements(init);
    }
  }

  // ---- the most recent tasks of a listing ----

  /** The task number `n` is strictly older than the one before it. */
  predicate Untied(tasks: seq<Task>, n: int) {
    0 < n < |tasks| ==> tasks[n - 1].submission > tasks[n].submission
  }

  /** Without a tie, the first `n` tasks are those of the date of the last of them or
      later. */
  lemma TakeIsRecent(tasks: seq<Task>, n: nat, date: int)
    requires NewestFirst(tasks) && 0 < n < |tasks| && Untied(tasks, n) && date == tasks[n - 1].submission
    ensures forall t :: t in tasks[..n] <==> t in tasks && t.submission >= date
  {
    forall t | t in tasks && t.submission >= date
      ensures t in tasks[..n]
    {
      var k :| 0 <= k < |tasks| && tasks[k] == t;
      assert k < n;
    }
  }

  /** In any order from the most recent, the tasks of a date or later come first. */
  lemma RecentIsTake(tasks: seq<Task>, date: int, recent: set<Task>)
    requires NewestFirst(tasks) && Distinct(tasks)
    requires forall t :: t in recent <==> t in tasks && t.submission >= date
    ensures |recent| <= |tasks| && Elements(tasks[..|recent|]) == recent
  {
    var m := Older(tasks, date);
    assert Elements(tasks[..m]) == recent;
    SizeOfElements(tasks[..m]);
  }

  /** Where the tasks older than a date begin. */
  function Older(tasks: seq<Task>, date: int): (m: nat)
    requires NewestFirst(tasks)
    ensures m <= |tasks| && forall k :: 0 <= k < |tasks| ==> (k < m <==> tasks[k].submission >= date)
  {
    if tasks == [] || tasks[0].submission < date then 0 else 1 + Older(tasks[1..], date)
  }

  lemma UntiedTake(a: seq<Task>, b: seq<Task>, n: int)
    requires NewestFirst(a) && NewestFirst(b) && Relisted(a, b) && Distinct(a) && Untied(a, n)
    ensures Elements(Take(a, n)) == Elements(Take(b, n))
  {
    RelistedMembers(a, b);
    if n >= |a| {
      assert Take(a, n) == a && Take(b, n) == b;
    } else if n > 0 {
      var date, recent := a[n - 1].submission, Elements(a[..n]);
      TakeIsRecent(a, n, date);
      SizeOfElements(a[..n]);
      RelistedDistinct(a, b);
      RecentIsTake(b, date, recent);
    }
  }

  /** Two tasks of one date exchanged in an order from the most recent. */
  lemma Exchange(p: seq<Task>, x: Task, m: seq<Task>, y: Task, q: seq<Task>)
    requires NewestFirst(p + [x] + m + [y] + q) && x.submission == y.submission
    ensures NewestFirst(p + [y] + m + [x] + q)
    ensures Relisted(p + [x] + m + [y] + q, p + [y] + m + [x] + q)
  {
    var a, b := p + [x] + m + [y] + q, p + [y] + m + [x] + q;
    var i, j := |p|, |p| + 1 + |m|;
    assert a[i] == x && a[j] == y && b[i] == y && b[j] == x;
    forall k, l | 0 <= k < l < |b|
      ensures b[k].submission >= b[l].submission
    {
      assert b[k].submission == a[k].submission && b[l].submission == a[l].submission;
    }
    assert multiset(a) == multiset(p) + multiset{x} + multiset(m) + multiset{y} + multiset(q);
    assert multiset(b) == multiset(p) + multiset{y} + multiset(m) + multiset{x} + multiset(q);
  }

  lemma TiedTake(a: seq<Task>, n: nat) returns (b: seq<Task>)
    requires NewestFirst(a) && Distinct(a) && 0 < n < |a| && a[n - 1].submission == a[n].submission
    ensures NewestFirst(b) && Relisted(a, b) && a[n] in Take(b, n) && a[n] !in Take(a, n)
  {
    var p, q := a[..n - 1], a[n + 1..];
    assert a == p + [a[n - 1]] + [] + [a[n]] + q;
    Exchange(p, a[n - 1], [], a[n], q);
    b := p + [a[n]] + [] + [a[n - 1]] + q;
    assert b[..n][n - 1] == a[n];
  }

  /** The policy "last": what it keeps does not depend on the listing if and only if the
      last task it keeps and the first it removes do not have the same date. */
  lemma LastDependsOnTies(listing: seq<Task>, value: int)
    requires Distinct(listing)
    ensures (forall other :: Relisted(listing, other) ==>
               Elements(Take(Sort(other), value)) == Elements(Take(Sort(listing), value)))
            <==> Untied(Sort(listing), value)
  {
    var a := Sort(listing);
    SortIsSorted(listing);
    RelistedDistinct(listing, a);
    if Untied(a, value) {
      forall other | Relisted(listing, other)
        ensures Elements(Take(Sort(other), value)) == Elements(Take(a, value))
      {
        SortIsSorted(other);
        UntiedTake(a, Sort(other), value);
      }
    } else {
      var other := TiedTake(a, value);
      SortOfSorted(other);
      assert Relisted(listing, other);
      assert a[value] in Elements(Take(Sort(other), value)) && a[value] !in Elements(Take(a, value));
    }
  }

  // ---- the same within every histid ----

  lemma {:induction false} CountsOfHistid(tasks: seq<Task>, histid: string, t: Task)
    ensures multiset(OfHistid(tasks, histid))[t] == if t.histid == histid then multiset(tasks)[t] else 0
    decreases |tasks|
  {
    if tasks != [] {
      var init, last := tasks[..|tasks| - 1], tasks[|tasks| - 1];
      CountsOfHistid(init, histid, t);
      assert tasks == init + [last];
    }
  }

  lemma RelistedHistid(a: seq<Task>, b: seq<Task>, histid: string)
    requires Relisted(a, b)
    ensures Relisted(OfHistid(a, histid), OfHistid(b, histid))
  {
    forall t
      ensures multiset(OfHistid(a, histid))[t] == multiset(OfHistid(b, histid))[t]
    {
      CountsOfHistid(a, histid, t);
      CountsOfHistid(b, histid, t);
    }
  }

  lemma DistinctHistid(tasks: seq<Task>, histid: string)
    requires Distinct(tasks)
    ensures Distinct(OfHistid(tasks, histid))
  {
    DistinctCounts(tasks);
    forall t
      ensures multiset(OfHistid(tasks, histid))[t] <= 1
    {
      CountsOfHistid(tasks, histid, t);
    }
    CountsDistinct(OfHistid(tasks, histid));
  }

  lemma {:induction false} NewestFirstHistid(tasks: seq<Task>, histid: string)
    requires NewestFirst(tasks)
    ensures NewestFirst(OfHistid(tasks, histid))
    ensures forall t :: t in OfHistid(tasks, histid) ==> t in tasks
    decreases |tasks|
  {
    if tasks != [] {
      var init, last := tasks[..|tasks| - 1], tasks[|tasks| - 1];
      NewestFirstHistid(init, histid);
      assert forall t :: t in init ==> t.submission >= last.submission;
    }
  }

  /** A task is kept if and only if it is among the first ones of its histid. */
  lemma KeptEachIff(tasks: seq<Task>, value: int, t: Task)
    ensures t in KeptEach(tasks, value) <==> t in Take(OfHistid(tasks, t.histid), value)
  {
    EachKeepsNewestOfHistid(tasks, value, t.histid);
    OfHistidMember(KeptEach(tasks, value), t);
  }

  lemma UntiedEach(a: seq<Task>, b: seq<Task>, value: int)
    requires NewestFirst(a) && NewestFirst(b) && Relisted(a, b) && Distinct(a)
    requires forall t :: t in a ==> Untied(OfHistid(a, t.histid), value)
    ensures Elements(KeptEach(a, value)) == Elements(KeptEach(b, value))
  {
    RelistedMembers(a, b);
    forall t
      ensures t in KeptEach(a, value) <==> t in KeptEach(b, value)
    {
      KeptEachMembers(a, value);
      KeptEachMembers(b, value);
      if t in a {
        NewestFirstHistid(a, t.histid);
        NewestFirstHistid(b, t.histid);
        RelistedHistid(a, b, t.histid);
        DistinctHistid(a, t.histid);
        UntiedTake(OfHistid(a, t.histid), OfHistid(b, t.histid), value);
        KeptEachIff(a, value, t);
        KeptEachIff(b, value, t);
        assert t in Take(OfHistid(a, t.histid), value) <==> t in Elements(Take(OfHistid(a, t.histid), value));
        assert t in Take(OfHistid(b, t.histid), value) <==> t in Elements(Take(OfHistid(b, t.histid), value));
      }
    }
  }

  lemma {:induction false} OfHistidConcat(a: seq<Task>, b: seq<Task>, histid: string)
    ensures OfHistid(a + b, histid) == OfHistid(a, histid) + OfHistid(b, histid)
    decreases |b|
  {
    if b == [] {
      assert a + b == a;
    } else {
      var init, last := b[..|b| - 1], b[|b| - 1];
      OfHistidConcat(a, init, histid);
      assert (a + b)[..|a + b| - 1] == a + init && (a + b)[|a + b| - 1] == last;
    }
  }

  /** The task number `n` of a histid, and what comes before and after it. */
  lemma {:induction false} AtHistid(tasks: seq<Task>, histid: string, n: nat) returns (p: seq<Task>, q: seq<Task>)
    requires n < |OfHistid(tasks, histid)|
    ensures tasks == p + [OfHistid(tasks, histid)[n]] + q && |OfHistid(p, histid)| == n
    decreases |tasks|
  {
    var init, last := tasks[..|tasks| - 1], tasks[|tasks| - 1];
    if n < |OfHistid(init, histid)| {
      p, q := AtHistid(init, histid, n);
      q := q + [last];
    } else {
      p, q := init, [];
    }
  }

  /** The tasks of a histid around the task numbers `n - 1` and `n`. */
  lemma AroundHistid(a: seq<Task>, histid: string, n: nat)
    returns (p: seq<Task>, x: Task, m: seq<Task>, y: Task, q: seq<Task>)
    requires 0 < n < |OfHistid(a, histid)|
    ensures a == p + [x] + m + [y] + q
    ensures x == OfHistid(a, histid)[n - 1] && y == OfHistid(a, histid)[n]
    ensures |OfHistid(p, histid)| == n - 1 && OfHistid(m, histid) == []
  {
    var r;
    p, r := AtHistid(a, histid, n - 1);
    x := OfHistid(a, histid)[n - 1];
    AfterHistid(p, x, r, histid, a);
    m, q := AtHistid(r, histid, 0);
    y := OfHistid(r, histid)[0];
    assert p + [x] + (m + [y] + q) == p + [x] + m + [y] + q;
  }

  lemma AfterHistid(p: seq<Task>, x: Task, r: seq<Task>, histid: string, a: seq<Task>)
    requires a == p + [x] + r && x in OfHistid(a, histid)
    ensures OfHistid(a, histid) == OfHistid(p, histid) + [x] + OfHistid(r, histid)
  {
    HistidOf(a, histid);
    OfHistidConcat(p + [x], r, histid);
    OfHistidAppend(p, x, histid);
  }

  lemma {:induction false} HistidOf(tasks: seq<Task>, histid: string)
    ensures forall t :: t in OfHistid(tasks, histid) ==> t.histid == histid
    decreases |tasks|
  {
    if tasks != [] {
      HistidOf(tasks[..|tasks| - 1], histid);
    }
  }

  lemma OfHistidParts(p: seq<Task>, x: Task, m: seq<Task>, y: Task, q: seq<Task>, histid: string)
    requires x.histid == histid && y.histid == histid && OfHistid(m, histid) == []
    ensures OfHistid(p + [x] + m + [y] + q, histid) == OfHistid(p, histid) + [x] + [y] + OfHistid(q, histid)
  {
    OfHistidConcat(p + [x] + m + [y], q, histid);
    OfHistidAppend(p + [x] + m, y, histid);
    OfHistidConcat(p + [x], m, histid);
    OfHistidAppend(p, x, histid);
  }

  lemma TiedEach(a: seq<Task>, histid: string, n: nat) returns (b: seq<Task>, y: Task)
    requires NewestFirst(a) && Distinct(a) && 0 < n < |OfHistid(a, histid)|
    requires OfHistid(a, histid)[n - 1].submission == OfHistid(a, histid)[n].submission
    ensures NewestFirst(b) && Relisted(a, b) && y in KeptEach(b, n) && y !in KeptEach(a, n)
  {
    var p, x, m, q;
    p, x, m, y, q := AroundHistid(a, histid, n);
    HistidOf(a, histid);
    Exchange(p, x, m, y, q);
    b := p + [y] + m + [x] + q;
    OfHistidParts(p, y, m, x, q, histid);
    KeptEachIff(b, n, y);
    assert Take(OfHistid(b, histid), n)[n - 1] == y;
    DistinctHistid(a, histid);
    KeptEachIff(a, n, y);
  }

  /** The policy "each": what it keeps does not depend on the listing if and only if, in
      every histid, the last task it keeps and the first it removes do not have the
      same date. */
  lemma EachDependsOnTies(listing: seq<Task>, value: int)
    requires Distinct(listing)
    ensures (forall other :: Relisted(listing, other) ==>
               Elements(KeptEach(Sort(other), value)) == Elements(KeptEach(Sort(listing), value)))
            <==> forall t :: t in listing ==> Untied(OfHistid(Sort(listing), t.histid), value)
  {
    var a := Sort(listing);
    SortIsSorted(listing);
    RelistedDistinct(listing, a);
    RelistedMembers(listing, a);
    if forall t :: t in listing ==> Untied(OfHistid(a, t.histid), value) {
      forall other | Relisted(listing, other)
        ensures Elements(KeptEach(Sort(other), value)) == Elements(KeptEach(a, value))
      {
        SortIsSorted(other);
        UntiedEach(a, Sort(other), value);
      }
    } else {
      var t :| t in listing && !Untied(OfHistid(a, t.histid), value);
      NewestFirstHistid(a, t.histid);
      var other, y := TiedEach(a, t.histid, value);
      SortOfSorted(other);
      assert Relisted(listing, other);
      assert y in Elements(KeptEach(Sort(other), value)) && y !in Elements(KeptEach(a, value));
    }
  }

  // ---- the policy on size ----

  lemma {:induction false} TotalWithout(sizes: Sizes, a: seq<Task>, t: Task, b: seq<Task>)
    requires forall u :: u in a + [t] + b ==> u.id in sizes
    ensures Total(sizes, a + [t] + b) == Total(sizes, a + b) + sizes[t.id]
    decreases |b|
  {
    assert t in a + [t] + b;
    if b == [] {
      assert a + [t] + b == a + [t] && a + b == a;
      TotalAppend(sizes, a, t);
    } else {
      var init, last := b[..|b| - 1], b[|b| - 1];
      TotalWithout(sizes, a, t, init);
      assert a + [t] + b == (a + [t] + init) + [last] && a + b == (a + init) + [last];
      TotalAppend(sizes, a + [t] + init, last);
      TotalAppend(sizes, a + init, last);
    }
  }

  lemma {:induction false} TotalOfRelisted(sizes: Sizes, a: seq<Task>, b: seq<Task>)
    requires Relisted(a, b) && forall t :: t in a ==> t.id in sizes
    ensures forall t :: t in b ==> t.id in sizes
    ensures Total(sizes, a) == Total(sizes, b)
    decreases |a|, 1
  {
    RelistedMembers(a, b);
    if a != [] {
      var init, last := a[..|a| - 1], a[|a| - 1];
      assert last in b;
      var k :| 0 <= k < |b| && b[k] == last;
      var p, q := b[..k], b[k + 1..];
      SplitAround(b, k);
      assert a == init + [last];
      TotalOfRest(sizes, init, p, last, q);
    }
  }

  lemma SplitAround(b: seq<Task>, k: nat)
    requires k < |b|
    ensures b == b[..k] + [b[k]] + b[k + 1..]
  {
  }

  lemma {:induction false} TotalOfRest(sizes: Sizes, a: seq<Task>, p: seq<Task>, t: Task, q: seq<Task>)
    requires Relisted(a + [t], p + [t] + q) && forall u :: u in a + [t] ==> u.id in sizes
    requires forall u :: u in p + [t] + q ==> u.id in sizes
    ensures Total(sizes, a + [t]) == Total(sizes, p + [t] + q)
    decreases |a|, 2
  {
    assert t in a + [t];
    RelistedWithout(a, p, t, q);
    TotalOfRelisted(sizes, a, p + q);
    TotalWithout(sizes, p, t, q);
    TotalAppend(sizes, a, t);
  }

  lemma RelistedWithout(a: seq<Task>, p: seq<Task>, t: Task, q: seq<Task>)
    requires Relisted(a + [t], p + [t] + q)
    ensures Relisted(a, p + q)
  {
    assert multiset(a + [t]) == multiset(a) + multiset{t};
    assert multiset(p + [t] + q) == multiset(p + q) + multiset{t};
    assert multiset(a) == multiset(a + [t]) - multiset{t};
  }

  /** Distinct tasks are listed again when they are the same. */
  lemma SameElements(a: seq<Task>, b: seq<Task>)
    requires Distinct(a) && Distinct(b) && Elements(a) == Elements(b)
    ensures Relisted(a, b)
  {
    DistinctCounts(a);
    DistinctCounts(b);
    forall t
      ensures multiset(a)[t] == multiset(b)[t]
    {
      assert t in Elements(a) <==> t in multiset(a);
      assert t in Elements(b) <==> t in multiset(b);
    }
  }

  /** Whether the kept prefix, of `n` tasks, ends between two dates, and no task of the
      next date would have fitted. */
  ghost predicate CutBetweenDates(sizes: Sizes, a: seq<Task>, value: int, n: nat)
    requires n <= |a| && forall t :: t in a ==> t.id in sizes
  {
    && Untied(a, n)
    && forall k :: n <= k < |a| && a[k].submission == a[n].submission ==>
         Total(sizes, a[..n]) + sizes[a[k].id] >= value
  }

  lemma KeptLength(sizes: Sizes, a: seq<Task>, value: int) returns (n: nat)
    requires forall t :: t in a ==> t.id in sizes
    ensures n <= |a| && KeptSize(sizes, a, value) == a[..n]
    ensures forall m :: 0 <= m <= |a| ==> (m <= n <==> m == 0 || Total(sizes, a[..m]) < value)
  {
    n := |KeptSize(sizes, a, value)|;
    SizeKeepsLongestPrefix(sizes, a, value, 0);
    forall m | 0 <= m <= |a|
      ensures m <= n <==> m == 0 || Total(sizes, a[..m]) < value
    {
      SizeKeepsLongestPrefix(sizes, a, value, m);
    }
  }

  lemma AfterPrefix(tasks: seq<Task>, n: nat, t: Task) returns (k: nat)
    requires n <= |tasks| && t in tasks && t !in Elements(tasks[..n])
    ensures n <= k < |tasks| && tasks[k] == t
  {
    assert tasks == tasks[..n] + tasks[n..];
    var i :| 0 <= i < |tasks[n..]| && tasks[n..][i] == t;
    k := n + i;
  }

  lemma NotBefore(tasks: seq<Task>, n: nat)
    requires Distinct(tasks) && n < |tasks|
    ensures tasks[n] !in Elements(tasks[..n])
  {
  }

  /** The next task in any other order has the same date. */
  lemma NextOfDate(a: seq<Task>, b: seq<Task>, n: nat) returns (k: nat)
    requires NewestFirst(a) && NewestFirst(b) && Relisted(a, b) && Distinct(a) && n < |a| && n < |b|
    requires Elements(a[..n]) == Elements(b[..n])
    ensures n <= k < |a| && a[k] == b[n] && a[k].submission == a[n].submission
  {
    RelistedMembers(a, b);
    RelistedDistinct(a, b);
    NotBefore(a, n);
    NotBefore(b, n);
    k := AfterPrefix(a, n, b[n]);
    var j := AfterPrefix(b, n, a[n]);
  }

  /** The first `n` tasks are the same in both orders, and so is their size. */
  lemma CutWeighsSame(sizes: Sizes, a: seq<Task>, b: seq<Task>, n: nat)
    requires NewestFirst(a) && NewestFirst(b) && Relisted(a, b) && Distinct(a) && n <= |a| && Untied(a, n)
    requires (forall t :: t in a ==> t.id in sizes) && (forall t :: t in b ==> t.id in sizes)
    ensures |a| == |b| && Elements(b[..n]) == Elements(a[..n]) && Total(sizes, b[..n]) == Total(sizes, a[..n])
  {
    RelistedMembers(a, b);
    RelistedDistinct(a, b);
    UntiedTake(a, b, n);
    assert Take(a, n) == a[..n] && Take(b, n) == b[..n];
    SameElements(a[..n], b[..n]);
    TotalOfRelisted(sizes, a[..n], b[..n]);
  }

  lemma NextIsTooMuch(sizes: Sizes, a: seq<Task>, b: seq<Task>, value: int, n: nat)
    requires NewestFirst(a) && NewestFirst(b) && Relisted(a, b) && Distinct(a) && n < |a| && n < |b|
    requires (forall t :: t in a ==> t.id in sizes) && (forall t :: t in b ==> t.id in sizes)
    requires CutBetweenDates(sizes, a, value, n)
    requires Elements(b[..n]) == Elements(a[..n]) && Total(sizes, b[..n]) == Total(sizes, a[..n])
    ensures Total(sizes, b[..n + 1]) >= value
  {
    var k := NextOfDate(a, b, n);
    assert b[..n + 1] == b[..n] + [b[n]];
    TotalAppend(sizes, b[..n], b[n]);
  }

  lemma CutKeepsSame(sizes: Sizes, a: seq<Task>, b: seq<Task>, value: int, n: nat)
    requires NewestFirst(a) && NewestFirst(b) && Relisted(a, b) && Distinct(a)
    requires (forall t :: t in a ==> t.id in sizes) && (forall t :: t in b ==> t.id in sizes)
    requires n <= |a| && KeptSize(sizes, a, value) == a[..n] && (n == 0 || Total(sizes, a[..n]) < value)
    requires CutBetweenDates(sizes, a, value, n)
    ensures Elements(KeptSize(sizes, b, value)) == Elements(KeptSize(sizes, a, value))
  {
    CutWeighsSame(sizes, a, b, n);
    var m := KeptLength(sizes, b, value);
    if n < |b| {
      NextIsTooMuch(sizes, a, b, value, n);
    }
    assert m == n;
  }

  /** Another order that keeps other tasks, when the prefix ends inside a date. */
  lemma TiedSize(sizes: Sizes, a: seq<Task>, value: int, n: nat) returns (b: seq<Task>)
    requires NewestFirst(a) && Distinct(a) && forall t :: t in a ==> t.id in sizes
    requires KeptSize(sizes, a, value) == Take(a, n) && 0 < n < |a| && a[n - 1].submission == a[n].submission
    ensures NewestFirst(b) && Relisted(a, b) && forall t :: t in b ==> t.id in sizes
    ensures Elements(KeptSize(sizes, b, value)) != Elements(KeptSize(sizes, a, value))
  {
    var p, x, y, q := a[..n - 1], a[n - 1], a[n], a[n + 1..];
    assert a == p + [x] + [] + [y] + q;
    Exchange(p, x, [], y, q);
    b := p + [y] + [] + [x] + q;
    RelistedMembers(a, b);
    RelistedDistinct(a, b);
    var m := KeptLength(sizes, b, value);
    assert b[n - 1] == y && b[n] == x;
    assert x in Elements(Take(a, n)) && y !in Elements(Take(a, n));
    if m >= n {
      assert b[..m][n - 1] == y && y in Elements(b[..m]);
    } else {
      assert x !in Elements(b[..m]);
    }
  }

  /** The same when another task of the next date would have fitted. */
  lemma OtherFits(sizes: Sizes, a: seq<Task>, value: int, n: nat, k: nat) returns (b: seq<Task>)
    requires NewestFirst(a) && Distinct(a) && forall t :: t in a ==> t.id in sizes
    requires n < k < |a| && KeptSize(sizes, a, value) == a[..n] && a[k].submission == a[n].submission
    requires Total(sizes, a[..n]) + sizes[a[k].id] < value
    ensures NewestFirst(b) && Relisted(a, b) && forall t :: t in b ==> t.id in sizes
    ensures Elements(KeptSize(sizes, b, value)) != Elements(KeptSize(sizes, a, value))
  {
    b := Exchanged(a, n, k);
    RelistedMembers(a, b);
    TotalAppend(sizes, a[..n], a[k]);
    FittingIsKept(sizes, b, value, n);
    assert a[k] !in Elements(a[..n]);
  }

  lemma Exchanged(a: seq<Task>, n: nat, k: nat) returns (b: seq<Task>)
    requires NewestFirst(a) && n < k < |a| && a[k].submission == a[n].submission
    ensures NewestFirst(b) && Relisted(a, b) && |b| == |a|
    ensures b[..n + 1] == a[..n] + [a[k]] && b[n] == a[k]
  {
    var p, x, m, y, q := a[..n], a[n], a[n + 1..k], a[k], a[k + 1..];
    Around(a, n, k);
    Exchange(p, x, m, y, q);
    b := p + [y] + m + [x] + q;
    Placed(p, y, m, x, q);
  }

  lemma Placed(p: seq<Task>, y: Task, m: seq<Task>, x: Task, q: seq<Task>)
    ensures var b := p + [y] + m + [x] + q;
            |b| == |p| + |m| + |q| + 2 && b[..|p| + 1] == p + [y] && b[|p|] == y
  {
  }

  lemma Around(a: seq<Task>, n: nat, k: nat)
    requires n < k < |a|
    ensures a == a[..n] + [a[n]] + a[n + 1..k] + [a[k]] + a[k + 1..]
  {
  }

  lemma FittingIsKept(sizes: Sizes, b: seq<Task>, value: int, n: nat)
    requires n < |b| && forall t :: t in b ==> t.id in sizes
    requires Total(sizes, b[..n + 1]) < value
    ensures b[n] in Elements(KeptSize(sizes, b, value))
  {
    var l := KeptLength(sizes, b, value);
    assert b[..l][n] == b[n];
  }

  lemma CutElsewhere(sizes: Sizes, a: seq<Task>, value: int, n: nat) returns (b: seq<Task>)
    requires NewestFirst(a) && Distinct(a) && forall t :: t in a ==> t.id in sizes
    requires n <= |a| && KeptSize(sizes, a, value) == a[..n]
    requires n < |a| ==> Total(sizes, a[..n + 1]) >= value
    requires !CutBetweenDates(sizes, a, value, n)
    ensures NewestFirst(b) && Relisted(a, b) && forall t :: t in b ==> t.id in sizes
    ensures Elements(KeptSize(sizes, b, value)) != Elements(KeptSize(sizes, a, value))
  {
    if !Untied(a, n) {
      b := TiedSize(sizes, a, value, n);
    } else {
      var k :| n <= k < |a| && a[k].submission == a[n].submission &&
        Total(sizes, a[..n]) + sizes[a[k].id] < value;
      assert a[..n + 1] == a[..n] + [a[n]];
      TotalAppend(sizes, a[..n], a[n]);
      b := OtherFits(sizes, a, value, n, k);
    }
  }

  /** The policy "size": what it keeps does not depend on the listing if and only if it
      cuts between two dates and no task of the next date would have fitted. */
  lemma SizeDependsOnTies(sizes: Sizes, listing: seq<Task>, value: int)
    requires Distinct(listing) && forall t :: t in listing ==> t.id in sizes
    ensures forall other, t :: Relisted(listing, other) && t in Sort(other) ==> t.id in sizes
    ensures forall t :: t in Sort(listing) ==> t.id in sizes
    ensures |KeptSize(sizes, Sort(listing), value)| <= |Sort(listing)|
    ensures (forall other :: Relisted(listing, other) ==>
               Elements(KeptSize(sizes, Sort(other), value)) == Elements(KeptSize(sizes, Sort(listing), value)))
            <==> CutBetweenDates(sizes, Sort(listing), value, |KeptSize(sizes, Sort(listing), value)|)
  {
    SortedSizes(sizes, listing);
    var a := Sort(listing);
    SortIsSorted(listing);
    RelistedDistinct(listing, a);
    var n := KeptLength(sizes, a, value);
    if CutBetweenDates(sizes, a, value, n) {
      forall other | Relisted(listing, other)
        ensures Elements(KeptSize(sizes, Sort(other), value)) == Elements(KeptSize(sizes, a, value))
      {
        SortIsSorted(other);
        CutKeepsSame(sizes, a, Sort(other), value, n);
      }
    } else {
      var other := CutElsewhere(sizes, a, value, n);
      SortOfSorted(other);
      assert Relisted(listing, other);
    }
  }

  lemma SortedSizes(sizes: Sizes, listing: seq<Task>)
    requires forall t :: t in listing ==> t.id in sizes
    ensures forall other, t :: Relisted(listing, other) && t in Sort(other) ==> t.id in sizes
  {
    forall other, t | Relisted(listing, other) && t in Sort(other)
      ensures t.id in sizes
    {
      SortIsSorted(other);
      RelistedMembers(Sort(other), listing);
    }
  }

  /** With distinct dates there is one order, whatever the listing, so every policy
      depends on the tasks only. */
  lemma {:induction false} DistinctDatesOneOrder(a: seq<Task>, b: seq<Task>)
    requires NewestFirst(a) && NewestFirst(b) && Relisted(a, b)
    requires forall i, j :: 0 <= i < j < |a| ==> a[i].submission != a[j].submission
    ensures a == b
    decreases |a|
  {
    RelistedMembers(a, b);
    if a != [] {
      SameHead(a, b);
      RelistedTails(a, b);
      DistinctDatesOneOrder(a[1..], b[1..]);
      assert a == [a[0]] + a[1..] && b == [b[0]] + b[1..];
    }
  }

  lemma SameHead(a: seq<Task>, b: seq<Task>)
    requires NewestFirst(a) && NewestFirst(b) && a != [] && b != []
    requires forall t :: t in a <==> t in b
    requires forall i, j :: 0 <= i < j < |a| ==> a[i].submission != a[j].submission
    ensures a[0] == b[0]
  {
    assert a[0] in b && b[0] in a;
  }

  lemma RelistedTails(a: seq<Task>, b: seq<Task>)
    requires Relisted(a, b) && a != [] && b != [] && a[0] == b[0]
    ensures Relisted(a[1..], b[1..])
  {
    assert a == [a[0]] + a[1..] && b == [b[0]] + b[1..];
    assert multiset(a[1..]) == multiset(a) - multiset{a[0]};
    assert multiset(b[1..]) == multiset(b) - multiset{b[0]};
  }

  lemma TakenOut(tasks: seq<Task>, t: Task) returns (rest: seq<Task>)
    requires t in tasks
    ensures Relisted(tasks, [t] + rest) && Relisted(tasks, rest + [t]) && |rest| == |tasks| - 1
  {
    var k :| 0 <= k < |tasks| && tasks[k] == t;
    rest := tasks[..k] + tasks[k + 1..];
    assert tasks == tasks[..k] + [t] + tasks[k + 1..];
    assert multiset(tasks) == multiset(tasks[..k]) + multiset{t} + multiset(tasks[k + 1..]);
  }

  lemma OneDateIsSorted(listing: seq<Task>, other: seq<Task>, date: int)
    requires Relisted(listing, other) && forall u :: u in listing ==> u.submission == date
    ensures Sort(other) == other
  {
    RelistedMembers(listing, other);
    assert forall i :: 0 <= i < |other| ==> other[i] in other;
    SortOfSorted(other);
  }

  /** Of the tasks of one daemon, which all have its date, a policy "last" that removes
      any of them may keep or remove any given one. */
  lemma OneDateKeepsAnything(listing: seq<Task>, value: int, t: Task) returns (kept: seq<Task>, removed: seq<Task>)
    requires Distinct(listing) && t in listing && 0 < value < |listing|
    requires forall u :: u in listing ==> u.submission == t.submission
    ensures Relisted(listing, kept) && t in Take(Sort(kept), value)
    ensures Relisted(listing, removed) && t !in Take(Sort(removed), value)
  {
    var rest := TakenOut(listing, t);
    kept, removed := [t] + rest, rest + [t];
    OneDateIsSorted(listing, kept, t.submission);
    OneDateIsSorted(listing, removed, t.submission);
    RelistedDistinct(listing, removed);
    assert Take(kept, value)[0] == t;
    assert removed[|removed| - 1] == t;
  }
}
