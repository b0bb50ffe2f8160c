/** What the job table keeps over every sequence of launches, kills and displays. */
module JobRuns {
  import opened Text
  import opened Jobs

  // ---------------------------------------------------------------- the invariant

  predicate JobOk(j: Job, i: nat) {
    && j.process.jobNum == i + 1
    && j.status in {RUNNING, DONE, KILLED}
    && (j.status == RUNNING ==> j.process.isRunning)
    && (j.status == DONE ==> !j.process.isRunning)
  }

  predicate JobsOk(t: seq<Job>) {
    |t| <= MAX_PROCESS && forall i :: 0 <= i < |t| ==> JobOk(t[i], i)
  }

  lemma LaunchKeeps(t: seq<Job>, pid: int, command: string)
    requires JobsOk(t)
    ensures JobsOk(Launch(t, pid, command)) && t <= Launch(t, pid, command)
  {
  }

  lemma KillKeeps(t: seq<Job>, pid: int, signo: int)
    requires JobsOk(t)
    ensures JobsOk(Kill(t, pid, signo))
  {
  }

  lemma ReapKeeps(t: seq<Job>, pid: int)
    requires JobsOk(t)
    ensures JobsOk(Reap(t, pid))
  {
  }

  lemma {:induction false} ReapAllKeeps(t: seq<Job>, pids: seq<int>)
    requires JobsOk(t)
    ensures JobsOk(ReapAll(t, pids)) && |ReapAll(t, pids)| == |t|
    ensures forall i :: 0 <= i < |t| && t[i].process.pid !in pids ==> ReapAll(t, pids)[i] == t[i]
    decreases |pids|
  {
    if pids != [] {
      ReapKeeps(t, pids[0]);
      ReapAllKeeps(Reap(t, pids[0]), pids[1..]);
    }
  }

  lemma DisplayKeeps(t: seq<Job>, pids: seq<int>)
    requires JobsOk(t)
    ensures JobsOk(Display(t, pids))
  {
    ReapAllKeeps(t, pids);
  }

  /** A running job that is not reaped keeps its slot and its number through a display; so the numbering starts
      again at 1 only when no job is running. */
  lemma DisplayKeepsRunning(t: seq<Job>, pids: seq<int>, i: nat)
    requires JobsOk(t) && i < |t| && t[i].status == RUNNING && t[i].process.pid !in pids
    ensures |Display(t, pids)| == |t| && Display(t, pids)[i] == t[i]
  {
    ReapAllKeeps(t, pids);
    assert Sweep(ReapAll(t, pids))[i] in Sweep(ReapAll(t, pids));
  }

  /** After a display no slot is marked as killed. */
  lemma DisplayLeavesNoKilled(t: seq<Job>, pids: seq<int>)
    requires JobsOk(t)
    ensures forall j :: j in Display(t, pids) ==> j.status != KILLED
  {
    ReapAllKeeps(t, pids);
    var s := Sweep(ReapAll(t, pids));
    forall j | j in s
      ensures j.status != KILLED
    {
      var i :| 0 <= i < |s| && s[i] == j;
    }
  }

  lemma {:induction false} ListedIsActive(t: seq<Job>)
    requires forall j :: j in t ==> j.status != KILLED && (j.process.isRunning <==> j.status == RUNNING)
    ensures Listed(t) == Active(t)
  {
    if t != [] {
      ListedIsActive(t[..|t| - 1]);
    }
  }

  /** The ps that follows a display lists exactly the slots with status 0, in job order. */
  lemma PsAfterDisplay(t: seq<Job>, pids: seq<int>)
    requires JobsOk(t)
    ensures Listed(Display(t, pids)) == Active(Display(t, pids))
  {
    DisplayKeeps(t, pids);
    DisplayLeavesNoKilled(t, pids);
    var d := Display(t, pids);
    forall j | j in d
      ensures j.process.isRunning <==> j.status == RUNNING
    {
      var i :| 0 <= i < |d| && d[i] == j;
      assert JobOk(d[i], i);
    }
    ListedIsActive(d);
  }

  // ---------------------------------------------------------------- runs

  datatype Event =
    | Launched(pid: int, command: string)
    | Signalled(pid: int, signo: int)
    | Displayed(pids: seq<int>)

  /** The table, the lines shown, and the history: pids launched, reaped, and successfully killed. */
  datatype Run = Run(table: seq<Job>, shown: seq<Line>, launched: set<int>, reaped: set<int>, kills: seq<int>)

  function Start(): Run { Run([], [], {}, {}, []) }

  function Step(r: Run, e: Event): Run {
    match e
    case Launched(pid, command) =>
      r.(table := Launch(r.table, pid, command), launched := r.launched + {pid})
    case Signalled(pid, signo) =>
      r.(table := Kill(r.table, pid, signo), kills := if signo == SIGINT then r.kills else r.kills + [pid])
    case Displayed(pids) =>
      r.(table := Display(r.table, pids), shown := r.shown + DisplayLines(r.table, pids),
         reaped := r.reaped + set p | p in pids)
  }

  /** Pids are fresh; kill() succeeds only for a process that was launched and not yet waited for; no process is
      waited for twice. */
  predicate Possible(r: Run, e: Event) {
    match e
    case Launched(pid, _) => pid !in r.launched && pid !in r.reaped && pid !in r.kills
    case Signalled(pid, _) => pid !in r.reaped
    case Displayed(pids) =>
      (forall p :: p in pids ==> p !in r.reaped) && forall i, j :: 0 <= i < j < |pids| ==> pids[i] != pids[j]
  }

  function Steps(r: Run, es: seq<Event>): Run
    decreases |es|
  {
    if es == [] then r else Steps(Step(r, es[0]), es[1..])
  }

  predicate AllPossible(r: Run, es: seq<Event>)
    decreases |es|
  {
    es != [] ==> Possible(r, es[0]) && AllPossible(Step(r, es[0]), es[1..])
  }

  /** How often a pid occurs. */
  function Count(s: seq<int>, pid: int): nat {
    if s == [] then 0 else Count(s[..|s| - 1], pid) + (if s[|s| - 1] == pid then 1 else 0)
  }

  /** How many Done lines were shown for a pid. */
  function DoneLines(lines: seq<Line>, pid: int): nat {
    if lines == [] then 0
    else DoneLines(lines[..|lines| - 1], pid) + (if lines[|lines| - 1].pid == pid then 1 else 0)
  }

  lemma {:induction false} DoneLinesAppend(a: seq<Line>, b: seq<Line>, pid: int)
    ensures DoneLines(a + b, pid) == DoneLines(a, pid) + DoneLines(b, pid)
    decreases |b|
  {
    if b == [] {
      assert a + b == a;
    } else {
      assert (a + b)[..|a + b| - 1] == a + b[..|b| - 1];
      DoneLinesAppend(a, b[..|b| - 1], pid);
    }
  }

  predicate DistinctPids(t: seq<Job>) {
    forall i, j :: 0 <= i < j < |t| ==> t[i].process.pid != t[j].process.pid
  }

  lemma {:induction false} ReapLinesCount(t: seq<Job>, pid: int, x: int)
    requires DistinctPids(t)
    ensures DoneLines(ReapLines(t, pid), x) == if x == pid && exists j :: j in t && ReapsJob(j, x) then 1 else 0
  {
    if t != [] {
      var front, j := t[..|t| - 1], t[|t| - 1];
      ReapLinesCount(front, pid, x);
      assert t == front + [j];
      var extra := if ReapsJob(j, pid) then [LineOf(j)] else [];
      DoneLinesAppend(ReapLines(front, pid), extra, x);
      OneLine(extra, x);
      assert forall i :: i in front ==> i.process.pid != j.process.pid;
      assert j in t;
    }
  }

  lemma OneLine(lines: seq<Line>, x: int)
    requires |lines| <= 1
    ensures DoneLines(lines, x) == if lines != [] && lines[0].pid == x then 1 else 0
  {
    if lines != [] {
      assert lines[..|lines| - 1] == [];
    }
  }

  lemma {:induction false} SweepLinesCount(t: seq<Job>, x: int)
    requires DistinctPids(t)
    ensures DoneLines(SweepLines(t), x) == if exists j :: j in t && j.process.pid == x && j.status == KILLED then 1 else 0
  {
    if t != [] {
      var front, j := t[..|t| - 1], t[|t| - 1];
      SweepLinesCount(front, x);
      assert t == front + [j];
      var extra := if j.status == KILLED then [LineOf(j)] else [];
      DoneLinesAppend(SweepLines(front), extra, x);
      OneLine(extra, x);
      assert forall i :: i in front ==> i.process.pid != j.process.pid;
      assert j in t;
    }
  }

  // ---------------------------------------------------------------- at most one Done line

  /** How many Done lines a job may have had, by its state: `d` lines were shown, `k` kills succeeded. */
  predicate JobFine(j: Job, d: nat, k: nat, reaped: bool) {
    if j.process.isRunning then d == 0 && (j.status == KILLED ==> k >= 1)
    else if j.status == KILLED then d + 1 <= k
    else d <= k || (reaped && d <= 1)
  }

  function Max(a: int, b: int): int { if a < b then b else a }

  ghost predicate Fine(r: Run, x: int) {
    && DistinctPids(r.table)
    && (forall j :: j in r.table ==> j.process.pid in r.launched)
    && DoneLines(r.shown, x) <= Max(1, Count(r.kills, x))
    && (x !in r.launched ==> DoneLines(r.shown, x) == 0)
    && forall j :: j in r.table && j.process.pid == x ==>
         JobFine(j, DoneLines(r.shown, x), Count(r.kills, x), x in r.reaped)
  }

  function ReapStep(r: Run, pid: int): Run {
    r.(table := Reap(r.table, pid), shown := r.shown + ReapLines(r.table, pid), reaped := r.reaped + {pid})
  }

  function SweepStep(r: Run): Run { r.(table := Sweep(r.table), shown := r.shown + SweepLines(r.table)) }

  lemma ReapedFrom(t: seq<Job>, pid: int, j: Job)
    requires j in Reap(t, pid)
    ensures exists o :: o in t && j == if ReapsJob(o, pid) then Finished(o) else o
  {
    var i :| 0 <= i < |t| && Reap(t, pid)[i] == j;
    assert t[i] in t;
  }

  lemma ReapFine(r: Run, pid: int, x: int)
    requires Fine(r, x)
    ensures Fine(ReapStep(r, pid), x)
  {
    var s := ReapStep(r, pid);
    DoneLinesAppend(r.shown, ReapLines(r.table, pid), x);
    ReapLinesCount(r.table, pid, x);
    assert forall i :: 0 <= i < |r.table| ==> s.table[i].process.pid == r.table[i].process.pid;
    forall j | j in s.table
      ensures j.process.pid in s.launched
      ensures j.process.pid == x ==> JobFine(j, DoneLines(s.shown, x), Count(s.kills, x), x in s.reaped)
    {
      ReapedFrom(r.table, pid, j);
      var o :| o in r.table && j == if ReapsJob(o, pid) then Finished(o) else o;
      if o.process.pid == x {
        OnlyJob(r.table, o, x);
      }
    }
  }

  lemma OnlyJob(t: seq<Job>, o: Job, x: int)
    requires DistinctPids(t) && o in t && o.process.pid == x
    ensures forall j :: j in t && j.process.pid == x ==> j == o
  {
    var k :| 0 <= k < |t| && t[k] == o;
    forall j | j in t && j.process.pid == x
      ensures j == o
    {
      var i :| 0 <= i < |t| && t[i] == j;
    }
  }

  lemma SweepFine(r: Run, x: int)
    requires Fine(r, x)
    ensures Fine(SweepStep(r), x)
  {
    var s := SweepStep(r);
    DoneLinesAppend(r.shown, SweepLines(r.table), x);
    SweepLinesCount(r.table, x);
    assert forall i :: 0 <= i < |r.table| ==> s.table[i].process.pid == r.table[i].process.pid;
    forall j | j in s.table
      ensures j.process.pid in s.launched
      ensures j.process.pid == x ==> JobFine(j, DoneLines(s.shown, x), Count(s.kills, x), x in s.reaped)
    {
      var i :| 0 <= i < |s.table| && s.table[i] == j;
      var o := r.table[i];
      assert o in r.table;
      if o.process.pid == x {
        OnlyJob(r.table, o, x);
      }
    }
  }

  function ReapSteps(r: Run, pids: seq<int>): Run
    decreases |pids|
  {
    if pids == [] then r else ReapSteps(ReapStep(r, pids[0]), pids[1..])
  }

  lemma {:induction false} ReapStepsIs(r: Run, pids: seq<int>)
    ensures ReapSteps(r, pids) ==
      r.(table := ReapAll(r.table, pids), shown := r.shown + ReapAllLines(r.table, pids),
         reaped := r.reaped + set p | p in pids)
    decreases |pids|
  {
    if pids == [] {
      assert r.shown + [] == r.shown;
    } else {
      ReapStepsIs(ReapStep(r, pids[0]), pids[1..]);
      var lines := ReapLines(r.table, pids[0]);
      assert (r.shown + lines) + ReapAllLines(Reap(r.table, pids[0]), pids[1..])
          == r.shown + (lines + ReapAllLines(Reap(r.table, pids[0]), pids[1..]));
      assert (set p | p in pids) == {pids[0]} + set p | p in pids[1..];
    }
  }

  lemma {:induction false} ReapStepsFine(r: Run, pids: seq<int>, x: int)
    requires Fine(r, x)
    ensures Fine(ReapSteps(r, pids), x)
    decreases |pids|
  {
    if pids != [] {
      ReapFine(r, pids[0], x);
      ReapStepsFine(ReapStep(r, pids[0]), pids[1..], x);
    }
  }

  lemma DisplayFine(r: Run, pids: seq<int>, x: int)
    requires Fine(r, x)
    ensures Fine(Step(r, Displayed(pids)), x)
  {
    hide Fine;
    var a := ReapSteps(r, pids);
    ReapStepsIs(r, pids);
    ReapStepsFine(r, pids, x);
    SweepFine(a, x);
    var s := Step(r, Displayed(pids));
    assert s.shown == SweepStep(a).shown;
    if s != SweepStep(a) {
      ResetFine(SweepStep(a), x);
    }
  }

  lemma ResetFine(r: Run, x: int)
    requires Fine(r, x)
    ensures Fine(r.(table := []), x)
  {
  }

  lemma CountAppend(s: seq<int>, p: int, x: int)
    ensures Count(s + [p], x) == Count(s, x) + (if p == x then 1 else 0)
  {
    assert (s + [p])[..|s|] == s;
  }

  /** A kill changes at most the status of a job with that pid. */
  lemma KillSame(t: seq<Job>, pid: int, signo: int)
    ensures var u := Kill(t, pid, signo);
      |u| == |t| && forall k :: 0 <= k < |t| ==>
        u[k] == t[k] || (signo != SIGINT && t[k].process.pid == pid && u[k] == t[k].(status := KILLED))
    ensures DistinctPids(t) ==> DistinctPids(Kill(t, pid, signo))
  {
  }

  lemma KillFine(r: Run, pid: int, signo: int, x: int)
    requires Fine(r, x) && Possible(r, Signalled(pid, signo))
    ensures Fine(Step(r, Signalled(pid, signo)), x)
  {
    hide FirstWithPid, DoneLines, Count;
    var s := Step(r, Signalled(pid, signo));
    CountAppend(r.kills, pid, x);
    KillSame(r.table, pid, signo);
    forall j | j in s.table
      ensures j.process.pid in s.launched
      ensures j.process.pid == x ==> JobFine(j, DoneLines(s.shown, x), Count(s.kills, x), x in s.reaped)
    {
      var k :| 0 <= k < |s.table| && s.table[k] == j;
      assert r.table[k] in r.table;
    }
  }

  lemma LaunchFine(r: Run, pid: int, command: string, x: int)
    requires Fine(r, x) && Possible(r, Launched(pid, command))
    ensures Fine(Step(r, Launched(pid, command)), x)
  {
    var s := Step(r, Launched(pid, command));
    forall j | j in s.table
      ensures j.process.pid in s.launched
      ensures j.process.pid == x ==> JobFine(j, DoneLines(s.shown, x), Count(s.kills, x), x in s.reaped)
    {
      assert j in r.table || j == s.table[|r.table|];
    }
  }

  lemma {:induction false} StepsFine(r: Run, es: seq<Event>, x: int)
    requires Fine(r, x) && AllPossible(r, es)
    ensures Fine(Steps(r, es), x)
    decreases |es|
  {
    hide Fine;
    if es != [] {
      match es[0] {
        case Launched(pid, command) => LaunchFine(r, pid, command, x);
        case Signalled(pid, signo) => KillFine(r, pid, signo, x);
        case Displayed(pids) => DisplayFine(r, pids, x);
      }
      StepsFine(Step(r, es[0]), es[1..], x);
    }
  }

  /** In every order of launches, kills, exits and reaps: no more Done lines for a pid than kills of it, and at
      most one if it was killed at most once. */
  lemma DoneAtMostOnce(es: seq<Event>, x: int)
    requires AllPossible(Start(), es)
    ensures var r := Steps(Start(), es);
      DoneLines(r.shown, x) <= Max(1, Count(r.kills, x)) && (x !in r.launched ==> DoneLines(r.shown, x) == 0)
  {
    StepsFine(Start(), es, x);
  }

  /** A display that sweeps one killed job in front of a running one. */
  lemma SweepsFirst(r: Run, j: Job, b: Job)
    requires r.table == [j, b] && j.status == KILLED && b.status == RUNNING && r.reaped == {}
    ensures Step(r, Displayed([])) == r.(table := [Finished(j), b], shown := r.shown + [LineOf(j)])
  {
    assert ReapAll(r.table, []) == r.table && ReapAllLines(r.table, []) == [];
    assert Sweep(r.table) == [Finished(j), b] && b in Sweep(r.table);
    assert [j, b][..1] == [j] && [j][..0] == [];
    assert SweepLines([j]) == [LineOf(j)];
    assert SweepLines(r.table) == [LineOf(j)];
    assert (set p: int | p in []) == {};
  }

  /** A kill of the first of two jobs. */
  lemma KillsFirst(r: Run, j: Job, b: Job, signo: int)
    requires r.table == [j, b] && signo != SIGINT
    ensures Step(r, Signalled(j.process.pid, signo)) ==
            r.(table := [j.(status := KILLED), b], kills := r.kills + [j.process.pid])
  {
    assert FirstWithPid(r.table, j.process.pid) == 0;
    assert r.table[0 := j.(status := KILLED)] == [j.(status := KILLED), b];
  }

  /** Kill, display, kill, display, with another job running: two lines. */
  lemma TwiceDone(r: Run, j: Job, b: Job)
    requires r.table == [j, b] && j.process.pid == 7 && b.status == RUNNING && r.reaped == {} && r.shown == []
    ensures var es := [Signalled(7, 18), Displayed([]), Signalled(7, 18), Displayed([])];
      AllPossible(r, es) && DoneLines(Steps(r, es).shown, 7) == 2
  {
    hide Step, DoneLines, AllPossible, Steps, Finished;
    var k, d := Signalled(7, 18), Displayed([]);
    var r1 := Step(r, k);
    KillsFirst(r, j, b, 18);
    SweepsFirst(r1, j.(status := KILLED), b);
    var f := Finished(j.(status := KILLED));
    FinishedPid(j.(status := KILLED));
    var r2 := Step(r1, d);
    KillsFirst(r2, f, b, 18);
    var r3 := Step(r2, k);
    SweepsFirst(r3, f.(status := KILLED), b);
    FourSteps(r, k, d);
    var one, two := LineOf(j), LineOf(f);
    assert Step(r3, d).shown == [one] + [two] by { assert [] + [one] == [one]; }
    OneLine([one], 7);
    OneLine([two], 7);
    DoneLinesAppend([one], [two], 7);
  }

  lemma FinishedPid(j: Job)
    ensures Finished(j).process.pid == j.process.pid
  {
  }

  /** Two kills are enough for a second line: a process that survives both, while another job keeps the table
      from being reset, is reported done twice. */
  lemma KilledTwiceIsDoneTwice()
    ensures var r := Steps(Start(), [Launched(7, "a"), Launched(8, "b")]);
      var es := [Signalled(7, 18), Displayed([]), Signalled(7, 18), Displayed([])];
      AllPossible(r, es) && DoneLines(Steps(r, es).shown, 7) == 2
  {
    hide AllPossible, DoneLines, Take, CStr;
    var r := Step(Step(Start(), Launched(7, "a")), Launched(8, "b"));
    var es := [Launched(8, "b")];
    assert [Launched(7, "a"), Launched(8, "b")] == [Launched(7, "a")] + es && es == es + [];
    StepsCons(Start(), Launched(7, "a"), es);
    StepsCons(Step(Start(), Launched(7, "a")), Launched(8, "b"), []);
    assert r.table == [r.table[0], r.table[1]];
    TwiceDone(r, r.table[0], r.table[1]);
  }

  lemma FourSteps(r: Run, k: Event, d: Event)
    ensures var r1 := Step(r, k);
      var r2 := Step(r1, d);
      var r3 := Step(r2, k);
      && Steps(r, [k, d, k, d]) == Step(r3, d)
      && (AllPossible(r, [k, d, k, d]) <==> Possible(r, k) && Possible(r1, d) && Possible(r2, k) && Possible(r3, d))
  {
    hide Step, Possible;
    var r1 := Step(r, k);
    var r2 := Step(r1, d);
    var r3 := Step(r2, k);
    assert [k, d, k, d] == [k] + [d, k, d] && [d, k, d] == [d] + [k, d] && [k, d] == [k] + [d] && [d] == [d] + [];
    StepsCons(r, k, [d, k, d]);
    StepsCons(r1, d, [k, d]);
    StepsCons(r2, k, [d]);
    StepsCons(r3, d, []);
  }

  lemma StepsCons(r: Run, e: Event, es: seq<Event>)
    ensures Steps(r, [e] + es) == Steps(Step(r, e), es)
    ensures AllPossible(r, [e] + es) <==> Possible(r, e) && AllPossible(Step(r, e), es)
  {
    assert ([e] + es)[1..] == es;
  }

  // ---------------------------------------------------------------- the invariant over runs

  lemma {:induction false} StepsOk(r: Run, es: seq<Event>)
    requires JobsOk(r.table)
    ensures JobsOk(Steps(r, es).table)
    decreases |es|
  {
    if es != [] {
      match es[0] {
        case Launched(pid, command) => LaunchKeeps(r.table, pid, command);
        case Signalled(pid, signo) => KillKeeps(r.table, pid, signo);
        case Displayed(pids) => DisplayKeeps(r.table, pids);
      }
      StepsOk(Step(r, es[0]), es[1..]);
    }
  }

  // ---------------------------------------------------------------- a job that goes on running

  /** The event neither kills nor reaps the process. */
  predicate Spares(e: Event, pid: int) {
    match e
    case Launched(_, _) => true
    case Signalled(p, signo) => p != pid || signo == SIGINT
    case Displayed(pids) => pid !in pids
  }

  function Launches(es: seq<Event>): nat {
    if es == [] then 0 else (if es[0].Launched? then 1 else 0) + Launches(es[1..])
  }

  lemma StepStays(r: Run, e: Event, i: nat)
    requires JobsOk(r.table) && i < |r.table| && r.table[i].status == RUNNING && Spares(e, r.table[i].process.pid)
    ensures var t := Step(r, e).table;
      && JobsOk(t) && i < |t| && t[i] == r.table[i]
      && |t| == Min(MAX_PROCESS, |r.table| + (if e.Launched? then 1 else 0))
  {
    match e {
      case Launched(pid, command) => LaunchKeeps(r.table, pid, command);
      case Signalled(pid, signo) =>
        KillKeeps(r.table, pid, signo);
        KillSame(r.table, pid, signo);
      case Displayed(pids) =>
        DisplayKeeps(r.table, pids);
        DisplayKeepsRunning(r.table, pids, i);
    }
  }

  lemma {:induction false} StepsStay(r: Run, es: seq<Event>, i: nat)
    requires JobsOk(r.table) && i < |r.table| && r.table[i].status == RUNNING
    requires forall e :: e in es ==> Spares(e, r.table[i].process.pid)
    ensures var t := Steps(r, es).table;
      JobsOk(t) && i < |t| && t[i] == r.table[i] && |t| == Min(MAX_PROCESS, |r.table| + Launches(es))
    decreases |es|
  {
    hide Step, JobsOk;
    if es != [] {
      assert es[0] in es;
      StepStays(r, es[0], i);
      StepsStay(Step(r, es[0]), es[1..], i);
    } else {
      TableFits(r.table);
    }
  }

  lemma TableFits(t: seq<Job>)
    requires JobsOk(t)
    ensures |t| <= MAX_PROCESS
  {
  }

  /** From any point of any run on: a running job that is neither killed nor reaped keeps its slot and its number to
      the end; while it runs the numbering does not start again, so new jobs get consecutive numbers until the table is
      full. */
  lemma RunningJobStays(before: seq<Event>, after: seq<Event>, i: nat)
    requires var t := Steps(Start(), before).table;
      i < |t| && t[i].status == RUNNING && forall e :: e in after ==> Spares(e, t[i].process.pid)
    ensures var r := Steps(Start(), before);
      var t := Steps(r, after).table;
      && i < |t| && t[i] == r.table[i]
      && |t| == Min(MAX_PROCESS, |r.table| + Launches(after))
      && forall k :: 0 <= k < |t| ==> t[k].process.jobNum == k + 1
  {
    hide Steps, JobsOk;
    NothingStarted();
    StepsOk(Start(), before);
    StepsStay(Steps(Start(), before), after, i);
    Numbers(Steps(Steps(Start(), before), after).table);
  }

  lemma NothingStarted()
    ensures JobsOk(Start().table)
  {
  }

  lemma Numbers(t: seq<Job>)
    requires JobsOk(t)
    ensures forall k :: 0 <= k < |t| ==> t[k].process.jobNum == k + 1
  {
  }

  /** After any run: slot i holds job i + 1, a running slot is marked so, a done one is not, and a launch takes
      the next number without touching the others. */
  lemma JobTableInvariant(es: seq<Event>, pid: int, command: string)
    ensures var t := Steps(Start(), es).table;
      && JobsOk(t)
      && (|t| < MAX_PROCESS ==>
            var t' := Launch(t, pid, command);
            |t'| == |t| + 1 && t'[..|t|] == t && t'[|t|].process.jobNum == |t| + 1 && t'[|t|].process.pid == pid)
  {
    StepsOk(Start(), es);
  }
}
