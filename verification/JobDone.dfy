/** Exactly when a job is reported done a second time. */
module JobDone {
  import opened Text
  import opened Jobs
  import opened JobRuns

  // ---------------------------------------------------------------- the slot of one process

  function Slot(t: seq<Job>, x: int): Option<Job> {
    var i := FirstWithPid(t, x);
    if i < |t| then Some(t[i]) else None
  }

  lemma SlotIs(t: seq<Job>, x: int, i: nat)
    requires i < |t| && t[i].process.pid == x && forall k :: 0 <= k < i ==> t[k].process.pid != x
    ensures Slot(t, x) == Some(t[i])
  {
    FirstWithPidIs(t, x, i);
  }

  lemma NoSlot(t: seq<Job>, x: int)
    requires forall k :: 0 <= k < |t| ==> t[k].process.pid != x
    ensures Slot(t, x) == None
  {
    FirstWithPidIs(t, x, |t|);
  }

  lemma LaunchSlot(t: seq<Job>, pid: int, command: string, x: int)
    ensures var s := Slot(Launch(t, pid, command), x);
      if Slot(t, x).Some? then s == Slot(t, x)
      else if pid == x && |t| != MAX_PROCESS then s.Some? && s.value.process.isRunning && s.value.status == RUNNING
      else s == None
  {
    hide FirstWithPid;
    var u, i := Launch(t, pid, command), FirstWithPid(t, x);
    if i < |t| {
      SlotIs(u, x, i);
    } else if pid == x && |t| != MAX_PROCESS {
      SlotIs(u, x, |t|);
    } else {
      assert forall k :: 0 <= k < |u| ==> u[k].process.pid == if k < |t| then t[k].process.pid else pid;
      assert |u| > |t| ==> pid != x;
      NoSlot(u, x);
    }
  }

  lemma KillSlot(t: seq<Job>, pid: int, signo: int, x: int)
    ensures Slot(Kill(t, pid, signo), x) ==
      if pid == x && signo != SIGINT && Slot(t, x).Some? then Some(Slot(t, x).value.(status := KILLED)) else Slot(t, x)
  {
    hide FirstWithPid;
    var u, i := Kill(t, pid, signo), FirstWithPid(t, x);
    assert forall k :: 0 <= k < |t| ==> u[k].process == t[k].process;
    if i < |t| {
      SlotIs(u, x, i);
    } else {
      NoSlot(u, x);
    }
  }

  function AfterReap(j: Job, pids: seq<int>): Job {
    if j.process.isRunning && j.process.pid in pids then Finished(j) else j
  }

  function AfterDisplay(j: Job, pids: seq<int>): Job {
    var k := AfterReap(j, pids);
    if k.status == KILLED then Finished(k) else k
  }

  lemma {:induction false} ReapAllAt(t: seq<Job>, pids: seq<int>, i: nat)
    requires i < |t|
    ensures |ReapAll(t, pids)| == |t| && ReapAll(t, pids)[i] == AfterReap(t[i], pids)
    decreases |pids|
  {
    if pids != [] {
      ReapAllAt(Reap(t, pids[0]), pids[1..], i);
      assert t[i].process.pid in pids <==> t[i].process.pid == pids[0] || t[i].process.pid in pids[1..];
    }
  }

  /** A table whose slots were changed one by one, but for their pids. */
  lemma SlotOfMapped(t: seq<Job>, u: seq<Job>, x: int)
    requires |u| == |t| && forall k :: 0 <= k < |t| ==> u[k].process.pid == t[k].process.pid
    ensures Slot(u, x).Some? <==> Slot(t, x).Some?
    ensures FirstWithPid(u, x) == FirstWithPid(t, x)
  {
    FirstWithPidIs(u, x, FirstWithPid(t, x));
  }

  lemma DisplaySlot(t: seq<Job>, pids: seq<int>, x: int)
    ensures var s := Slot(Display(t, pids), x);
      s == None || (Slot(t, x).Some? && s == Some(AfterDisplay(Slot(t, x).value, pids)))
  {
    hide FirstWithPid, AnyRunning, ReapAll;
    var u := ReapAll(t, pids);
    ReapAllLength(t, pids);
    forall k | 0 <= k < |t|
      ensures u[k] == AfterReap(t[k], pids)
    {
      ReapAllAt(t, pids, k);
    }
    SlotOfMapped(t, Sweep(u), x);
    NoSlot([], x);
  }

  lemma {:induction false} ReapAllLength(t: seq<Job>, pids: seq<int>)
    ensures |ReapAll(t, pids)| == |t|
    decreases |pids|
  {
    if pids != [] {
      ReapAllLength(Reap(t, pids[0]), pids[1..]);
    }
  }

  // ---------------------------------------------------------------- lines per display

  lemma SlotHas(t: seq<Job>, x: int, j: Job)
    requires DistinctPids(t) && j in t && j.process.pid == x
    ensures Slot(t, x) == Some(j)
  {
    var i :| 0 <= i < |t| && t[i] == j;
    SlotIs(t, x, i);
  }

  lemma ReapDistinct(t: seq<Job>, pid: int)
    requires DistinctPids(t)
    ensures DistinctPids(Reap(t, pid))
  {
    assert forall k :: 0 <= k < |t| ==> Reap(t, pid)[k].process.pid == t[k].process.pid;
  }

  lemma ReapSlot(t: seq<Job>, pid: int, x: int)
    ensures Slot(Reap(t, pid), x) ==
      if Slot(t, x).Some? then Some(AfterReap(Slot(t, x).value, [pid])) else None
  {
    SlotOfMapped(t, Reap(t, pid), x);
  }

  /** Reaping shows one line for a process that is waited for while its job counts as running. */
  lemma {:induction false} ReapAllCount(t: seq<Job>, pids: seq<int>, x: int)
    requires DistinctPids(t)
    ensures DistinctPids(ReapAll(t, pids))
    ensures DoneLines(ReapAllLines(t, pids), x) ==
      if x in pids && Slot(t, x).Some? && Slot(t, x).value.process.isRunning then 1 else 0
    decreases |pids|
  {
    hide Slot, DistinctPids;
    if pids != [] {
      var u := Reap(t, pids[0]);
      ReapDistinct(t, pids[0]);
      ReapAllCount(u, pids[1..], x);
      DoneLinesAppend(ReapLines(t, pids[0]), ReapAllLines(u, pids[1..]), x);
      ReapLinesCount(t, pids[0], x);
      ReapSlot(t, pids[0], x);
      SlotMember(t, x);
      if j :| j in t && ReapsJob(j, x) {
        SlotHas(t, x, j);
      }
    }
  }

  lemma SlotMember(t: seq<Job>, x: int)
    ensures Slot(t, x).Some? ==> Slot(t, x).value in t && Slot(t, x).value.process.pid == x
  {
  }

  /** A display shows one line for a process whose slot is marked as killed, or which it waits for while the job
      counts as running, and none otherwise. */
  lemma DisplayCount(t: seq<Job>, pids: seq<int>, x: int)
    requires DistinctPids(t)
    ensures DoneLines(DisplayLines(t, pids), x) ==
      if Slot(t, x).Some? &&
         (Slot(t, x).value.status == KILLED || (Slot(t, x).value.process.isRunning && x in pids)) then 1 else 0
  {
    hide Slot, DistinctPids, ReapAll, ReapAllLines, SweepLines;
    var u := ReapAll(t, pids);
    ReapAllCount(t, pids, x);
    DoneLinesAppend(ReapAllLines(t, pids), SweepLines(u), x);
    SweepLinesCount(u, x);
    ReapAllSlot(t, pids, x);
    SlotMember(t, x);
    SlotMember(u, x);
    if j :| j in u && j.process.pid == x && j.status == KILLED {
      SlotHas(u, x, j);
    }
  }

  lemma ReapAllSlot(t: seq<Job>, pids: seq<int>, x: int)
    ensures Slot(ReapAll(t, pids), x) ==
      if Slot(t, x).Some? then Some(AfterReap(Slot(t, x).value, pids)) else None
  {
    hide FirstWithPid, ReapAll;
    ReapAllLength(t, pids);
    forall k | 0 <= k < |t|
      ensures ReapAll(t, pids)[k] == AfterReap(t[k], pids)
    {
      ReapAllAt(t, pids, k);
    }
    SlotOfMapped(t, ReapAll(t, pids), x);
  }

  // ---------------------------------------------------------------- the second line

  function After(es: seq<Event>, n: nat): Run
    requires n <= |es|
  {
    Steps(Start(), es[..n])
  }

  /** Event `i` is a successful kill of `x` while its job is already done. */
  predicate KillsDone(es: seq<Event>, i: nat, x: int)
    requires i < |es|
  {
    es[i].Signalled? && es[i].pid == x && es[i].signo != SIGINT &&
    Slot(After(es, i).table, x).Some? && Slot(After(es, i).table, x).value.status == DONE
  }

  predicate NoDisplay(es: seq<Event>, from: nat, to: nat)
    requires to <= |es|
  {
    forall k :: from <= k < to ==> !es[k].Displayed?
  }

  /** Among the first `n` events there is such a kill. */
  ghost predicate Hit(es: seq<Event>, n: nat, x: int)
    requires n <= |es|
  {
    exists i :: 0 <= i < n && KillsDone(es, i, x)
  }

  /** And no display since. */
  ghost predicate HitPending(es: seq<Event>, n: nat, x: int)
    requires n <= |es|
  {
    exists i :: 0 <= i < n && KillsDone(es, i, x) && NoDisplay(es, i, n)
  }

  /** And a display since. */
  ghost predicate HitShown(es: seq<Event>, n: nat, x: int)
    requires n <= |es|
  {
    exists i :: 0 <= i < n && KillsDone(es, i, x) && !NoDisplay(es, i, n)
  }

  lemma HitEither(es: seq<Event>, n: nat, x: int)
    requires n <= |es|
    ensures Hit(es, n, x) <==> HitPending(es, n, x) || HitShown(es, n, x)
  {
  }

  lemma NoDisplayNext(es: seq<Event>, i: nat, n: nat)
    requires i <= n < |es|
    ensures NoDisplay(es, i, n + 1) <==> NoDisplay(es, i, n) && !es[n].Displayed?
  {
    assert NoDisplay(es, i, n + 1) ==> !es[n].Displayed?;
  }

  /** How the history grows by event `n`. */
  lemma HitNext(es: seq<Event>, n: nat, x: int)
    requires n < |es|
    ensures es[n].Displayed? ==> !HitPending(es, n + 1, x) && (HitShown(es, n + 1, x) <==> Hit(es, n, x))
    ensures !es[n].Displayed? ==>
      (HitPending(es, n + 1, x) <==> HitPending(es, n, x) || KillsDone(es, n, x)) &&
      (HitShown(es, n + 1, x) <==> HitShown(es, n, x))
  {
    hide KillsDone, NoDisplay;
    var m := n + 1;
    forall i | 0 <= i <= n
      ensures NoDisplay(es, i, m) <==> NoDisplay(es, i, n) && !es[n].Displayed?
    {
      NoDisplayNext(es, i, n);
    }
    assert es[n].Displayed? ==> !KillsDone(es, n, x) by { KillIsNoDisplay(es, n, x); }
    NothingBetween(es, n);
  }

  lemma KillIsNoDisplay(es: seq<Event>, n: nat, x: int)
    requires n < |es|
    ensures KillsDone(es, n, x) ==> !es[n].Displayed?
  {
  }

  lemma NothingBetween(es: seq<Event>, n: nat)
    requires n <= |es|
    ensures NoDisplay(es, n, n)
  {
  }

  /** A job that is marked as killed after it was done: the next display will report it again. */
  predicate Marked(s: Option<Job>) { s.Some? && s.value.status == KILLED && !s.value.process.isRunning }

  /** What is known about `x` when its slot is `s` and `d` lines were shown for it. */
  predicate Consistent(s: Option<Job>, d: nat, launched: bool) {
    && (s.Some? ==> launched && (if s.value.process.isRunning then d == 0 else d >= 1))
    && (s.Some? ==> s.value.status in {RUNNING, DONE, KILLED} && (s.value.status == RUNNING ==> s.value.process.isRunning)
                    && (s.value.status == DONE ==> !s.value.process.isRunning))
    && (!launched ==> d == 0)
  }

  ghost predicate Tracked(es: seq<Event>, n: nat, x: int)
    requires n <= |es|
  {
    var r := After(es, n);
    var s, d := Slot(r.table, x), DoneLines(r.shown, x);
    Consistent(s, d, x in r.launched) && (d >= 2 <==> HitShown(es, n, x)) && (Marked(s) <==> HitPending(es, n, x))
  }

  lemma {:induction false} StepsSnoc(r: Run, es: seq<Event>, e: Event)
    ensures Steps(r, es + [e]) == Step(Steps(r, es), e)
    ensures AllPossible(r, es + [e]) <==> AllPossible(r, es) && Possible(Steps(r, es), e)
    decreases |es|
  {
    hide Step, Possible;
    if es == [] {
      assert es + [e] == [e] && [e][1..] == [];
      assert Steps(Step(r, e), []) == Step(r, e);
    } else {
      assert (es + [e])[1..] == es[1..] + [e];
      StepsSnoc(Step(r, es[0]), es[1..], e);
    }
  }

  lemma AfterNext(es: seq<Event>, n: nat)
    requires n < |es|
    ensures After(es, n + 1) == Step(After(es, n), es[n])
    ensures AllPossible(Start(), es[..n + 1]) <==> AllPossible(Start(), es[..n]) && Possible(After(es, n), es[n])
  {
    assert es[..n + 1] == es[..n] + [es[n]];
    StepsSnoc(Start(), es[..n], es[n]);
  }

  lemma LaunchTracked(es: seq<Event>, n: nat, x: int)
    requires n < |es| && es[n].Launched? && Tracked(es, n, x) && Possible(After(es, n), es[n])
    requires After(es, n + 1) == Step(After(es, n), es[n])
    ensures Tracked(es, n + 1, x)
  {
    hide Hit, HitPending, HitShown, After, DoneLines, Slot;
    HitNext(es, n, x);
    LaunchSlot(After(es, n).table, es[n].pid, es[n].command, x);
    assert !KillsDone(es, n, x);
  }

  lemma KillTracked(es: seq<Event>, n: nat, x: int)
    requires n < |es| && es[n].Signalled? && Tracked(es, n, x)
    requires After(es, n + 1) == Step(After(es, n), es[n])
    ensures Tracked(es, n + 1, x)
  {
    hide Hit, HitPending, HitShown, After, DoneLines, Slot;
    HitNext(es, n, x);
    KillSlot(After(es, n).table, es[n].pid, es[n].signo, x);
  }

  lemma DisplayTracked(es: seq<Event>, n: nat, x: int)
    requires n < |es| && es[n].Displayed? && Tracked(es, n, x) && DistinctPids(After(es, n).table)
    requires After(es, n + 1) == Step(After(es, n), es[n])
    ensures Tracked(es, n + 1, x)
  {
    hide Hit, HitPending, HitShown, After, DoneLines, Slot, DisplayLines, Display;
    var r, pids := After(es, n), es[n].pids;
    HitNext(es, n, x);
    HitEither(es, n, x);
    DisplaySlot(r.table, pids, x);
    DisplayCount(r.table, pids, x);
    SlotMember(r.table, x);
    DoneLinesAppend(r.shown, DisplayLines(r.table, pids), x);
  }

  lemma {:induction false} AllTracked(es: seq<Event>, n: nat, x: int)
    requires n <= |es| && AllPossible(Start(), es[..n])
    ensures Tracked(es, n, x)
    decreases n
  {
    if n == 0 {
      NoSlot([], x);
      assert After(es, 0) == Start() by { assert es[..0] == []; }
    } else {
      hide Tracked, AllPossible, After;
      AfterNext(es, n - 1);
      AllTracked(es, n - 1, x);
      match es[n - 1] {
        case Launched(_, _) => LaunchTracked(es, n - 1, x);
        case Signalled(_, _) => KillTracked(es, n - 1, x);
        case Displayed(_) =>
          PidsDistinct(es, n - 1, x);
          DisplayTracked(es, n - 1, x);
      }
    }
  }

  lemma PidsDistinct(es: seq<Event>, n: nat, x: int)
    requires n <= |es| && AllPossible(Start(), es[..n])
    ensures DistinctPids(After(es, n).table)
  {
    StepsFine(Start(), es[..n], x);
  }

  /** In every order of launches, kills, exits and reaps: a process is reported done a second time if and only if some
      kill of it succeeds while its job is already done and a display follows. */
  lemma SecondLineIff(es: seq<Event>, x: int)
    requires AllPossible(Start(), es)
    ensures DoneLines(Steps(Start(), es).shown, x) >= 2 <==>
      exists i, k :: 0 <= i < k < |es| && KillsDone(es, i, x) && es[k].Displayed?
  {
    hide KillsDone;
    assert es[..|es|] == es;
    AllTracked(es, |es|, x);
    forall i | 0 <= i < |es| && KillsDone(es, i, x)
      ensures !es[i].Displayed?
    {
      KillIsNoDisplay(es, i, x);
    }
    if i :| 0 <= i < |es| && KillsDone(es, i, x) && !NoDisplay(es, i, |es|) {
      var k :| i <= k < |es| && es[k].Displayed?;
      assert i < k;
    }
    if i, k :| 0 <= i < k < |es| && KillsDone(es, i, x) && es[k].Displayed? {
      assert !NoDisplay(es, i, |es|);
    }
  }
}
