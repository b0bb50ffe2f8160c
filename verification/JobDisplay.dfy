/** What a display does to the table and what it prints, slot by slot and over whole runs. */
module JobDisplay {
  import opened Text
  import opened Strtok
  import opened Jobs
  import opened JobRuns
  import opened JobDone

  // ---------------------------------------------------------------- the table after a display

  /** A display reports this job: it was killed, or its process is waited for while it counts as running. */
  predicate Reported(j: Job, pids: seq<int>) { j.status == 3 || (j.process.isRunning && j.process.pid in pids) }

  lemma SweptAt(t: seq<Job>, pids: seq<int>, i: nat)
    requires JobsOk(t) && i < |t|
    ensures |Sweep(ReapAll(t, pids))| == |t|
    ensures Sweep(ReapAll(t, pids))[i] == if Reported(t[i], pids) then Job(2, t[i].process.(isRunning := false)) else t[i]
  {
    hide ReapAll;
    ReapAllLength(t, pids);
    ReapAllAt(t, pids, i);
  }

  /** A display empties the table if and only if no job goes on running; then the numbering starts again. Otherwise
      exactly the reported jobs become done and the others stay as they are. */
  lemma DisplayIs(t: seq<Job>, pids: seq<int>)
    requires JobsOk(t)
    ensures Display(t, pids) == [] <==> forall j :: j in t && j.status == 0 ==> j.process.pid in pids
    ensures Display(t, pids) != [] ==> |Display(t, pids)| == |t| && forall i :: 0 <= i < |t| ==>
      Display(t, pids)[i] == if Reported(t[i], pids) then Job(2, t[i].process.(isRunning := false)) else t[i]
  {
    hide ReapAll, Sweep, Reported, JobsOk;
    var swept := Sweep(ReapAll(t, pids));
    ReapAllLength(t, pids);
    forall i | 0 <= i < |t|
      ensures swept[i] == if Reported(t[i], pids) then Job(2, t[i].process.(isRunning := false)) else t[i]
      ensures swept[i].status == RUNNING <==> t[i].status == 0 && t[i].process.pid !in pids
    {
      SweptAt(t, pids, i);
      StillRunning(t, pids, i);
    }
    if AnyRunning(swept) {
      var j :| j in swept && j.status == RUNNING;
      var i :| 0 <= i < |swept| && swept[i] == j;
      assert t[i] in t;
    } else {
      forall j | j in t && j.status == 0
        ensures j.process.pid in pids
      {
        var i :| 0 <= i < |t| && t[i] == j;
        assert swept[i] in swept;
      }
    }
  }

  lemma StillRunning(t: seq<Job>, pids: seq<int>, i: nat)
    requires JobsOk(t) && i < |t|
    ensures t[i].status == RUNNING && !Reported(t[i], pids) <==> t[i].status == 0 && t[i].process.pid !in pids
  {
  }

  /** After a display that leaves nothing running, at any point of any run, the next job is number 1 in slot 0. */
  lemma NumberingRestarts(es: seq<Event>, pids: seq<int>, pid: int, command: string)
    requires forall j :: j in Steps(Start(), es).table && j.status == 0 ==> j.process.pid in pids
    ensures Steps(Start(), es + [Displayed(pids)] + [Launched(pid, command)]).table ==
            [Job(0, Process(pid, 1, Take(CStr(command), 127), true))]
  {
    hide Steps, JobsOk, Display, Take, CStr;
    NothingStarted();
    StepsOk(Start(), es);
    DisplayIs(Steps(Start(), es).table, pids);
    StepsSnoc(Start(), es, Displayed(pids));
    StepsSnoc(Start(), es + [Displayed(pids)], Launched(pid, command));
  }

  /** A launch fills the next of the 1000 slots; a signal other than 2 marks the first slot with its pid. */
  lemma LaunchAndKillAre(t: seq<Job>, pid: int, command: string, signo: int)
    ensures Launch(t, pid, command) ==
      if |t| == 1000 then t else t + [Job(0, Process(pid, |t| + 1, Take(CStr(command), 127), true))]
    ensures |Kill(t, pid, signo)| == |t| && forall i :: 0 <= i < |t| ==>
      Kill(t, pid, signo)[i] ==
      if signo != 2 && t[i].process.pid == pid && (forall k :: 0 <= k < i ==> t[k].process.pid != pid)
      then t[i].(status := 3) else t[i]
  {
    hide Take, CStr;
    var n := FirstWithPid(t, pid);
    assert n < |t| ==> t[n].process.pid == pid;
  }

  // ---------------------------------------------------------------- whose lines are shown

  lemma {:induction false} ReapLinesFrom(t: seq<Job>, pid: int, l: Line)
    requires l in ReapLines(t, pid)
    ensures exists j :: j in t && LineOf(j) == l
  {
    var front, j := t[..|t| - 1], t[|t| - 1];
    if l in ReapLines(front, pid) {
      ReapLinesFrom(front, pid, l);
    } else {
      assert j in t && LineOf(j) == l;
    }
  }

  lemma {:induction false} SweepLinesFrom(t: seq<Job>, l: Line)
    requires l in SweepLines(t)
    ensures exists j :: j in t && LineOf(j) == l
  {
    var front, j := t[..|t| - 1], t[|t| - 1];
    if l in SweepLines(front) {
      SweepLinesFrom(front, l);
    } else {
      assert j in t && LineOf(j) == l;
    }
  }

  /** Jobs that would be reported with the same line. */
  predicate SameLines(t: seq<Job>, u: seq<Job>) {
    |u| == |t| && forall i :: 0 <= i < |t| ==> LineOf(u[i]) == LineOf(t[i])
  }

  lemma FromSame(t: seq<Job>, u: seq<Job>, j: Job)
    requires SameLines(t, u) && j in u
    ensures exists o :: o in t && LineOf(o) == LineOf(j)
  {
    var i :| 0 <= i < |u| && u[i] == j;
    assert t[i] in t;
  }

  lemma {:induction false} ReapAllSame(t: seq<Job>, pids: seq<int>)
    ensures SameLines(t, ReapAll(t, pids))
    decreases |pids|
  {
    if pids != [] {
      var u := Reap(t, pids[0]);
      ReapAllSame(u, pids[1..]);
      assert forall i :: 0 <= i < |t| ==> LineOf(u[i]) == LineOf(t[i]);
    }
  }

  lemma {:induction false} ReapAllLinesFrom(t: seq<Job>, pids: seq<int>, l: Line)
    requires l in ReapAllLines(t, pids)
    ensures exists j :: j in t && LineOf(j) == l
    decreases |pids|
  {
    if l in ReapLines(t, pids[0]) {
      ReapLinesFrom(t, pids[0], l);
    } else {
      var u := Reap(t, pids[0]);
      ReapAllLinesFrom(u, pids[1..], l);
      var j :| j in u && LineOf(j) == l;
      FromSame(t, u, j);
    }
  }

  lemma DisplayLinesFrom(t: seq<Job>, pids: seq<int>, l: Line)
    requires l in DisplayLines(t, pids)
    ensures exists j :: j in t && LineOf(j) == l
  {
    if l in ReapAllLines(t, pids) {
      ReapAllLinesFrom(t, pids, l);
    } else {
      var u := ReapAll(t, pids);
      SweepLinesFrom(u, l);
      var j :| j in u && LineOf(j) == l;
      ReapAllSame(t, pids);
      FromSame(t, u, j);
    }
  }

  lemma DisplaySame(t: seq<Job>, pids: seq<int>, j: Job)
    requires j in Display(t, pids)
    ensures exists o :: o in t && LineOf(o) == LineOf(j)
  {
    var u := ReapAll(t, pids);
    ReapAllSame(t, pids);
    assert SameLines(t, Sweep(u));
    FromSame(t, Sweep(u), j);
  }

  /** Event `k` launched the process with this number and command. */
  predicate LaunchedAs(es: seq<Event>, k: nat, l: Line)
    requires k < |es|
  {
    es[k].Launched? && es[k].pid == l.pid && l.command == Take(CStr(es[k].command), 127) &&
    l.jobNum == |After(es, k).table| + 1 && l.jobNum <= 1000
  }

  ghost predicate Known(es: seq<Event>, n: nat, l: Line)
    requires n <= |es|
  {
    exists k :: 0 <= k < n && LaunchedAs(es, k, l)
  }

  ghost predicate AllKnown(es: seq<Event>, n: nat)
    requires n <= |es|
  {
    (forall j :: j in After(es, n).table ==> Known(es, n, LineOf(j))) &&
    (forall l :: l in After(es, n).shown ==> Known(es, n, l))
  }

  lemma KnownLonger(es: seq<Event>, n: nat, l: Line)
    requires n < |es| && Known(es, n, l)
    ensures Known(es, n + 1, l)
  {
  }

  lemma LaunchKnown(es: seq<Event>, n: nat, j: Job)
    requires n < |es| && es[n].Launched? && |After(es, n).table| < 1000
    requires j == Job(0, Process(es[n].pid, |After(es, n).table| + 1, Take(CStr(es[n].command), 127), true))
    ensures Known(es, n + 1, LineOf(j))
  {
    assert LaunchedAs(es, n, LineOf(j));
  }

  lemma StepKnown(es: seq<Event>, n: nat)
    requires n < |es| && AllKnown(es, n) && After(es, n + 1) == Step(After(es, n), es[n])
    requires |After(es, n).table| <= 1000
    ensures AllKnown(es, n + 1)
  {
    hide Known, After, Launch, Kill, Display, DisplayLines, LineOf;
    var r, s := After(es, n), After(es, n + 1);
    forall j | j in s.table
      ensures Known(es, n + 1, LineOf(j))
    {
      match es[n] {
        case Launched(pid, command) =>
          LaunchAndKillAre(r.table, pid, command, 0);
          if j !in r.table {
            LaunchKnown(es, n, j);
          }
        case Signalled(pid, signo) =>
          KilledFrom(r.table, pid, signo, j);
        case Displayed(pids) =>
          DisplaySame(r.table, pids, j);
      }
      if o :| o in r.table && LineOf(o) == LineOf(j) {
        KnownLonger(es, n, LineOf(o));
      }
    }
    forall l | l in s.shown
      ensures Known(es, n + 1, l)
    {
      if l in r.shown {
        KnownLonger(es, n, l);
      } else {
        DisplayLinesFrom(r.table, es[n].pids, l);
        var o :| o in r.table && LineOf(o) == l;
        KnownLonger(es, n, LineOf(o));
      }
    }
  }

  lemma KilledFrom(t: seq<Job>, pid: int, signo: int, j: Job)
    requires j in Kill(t, pid, signo)
    ensures exists o :: o in t && LineOf(o) == LineOf(j)
  {
    hide FirstWithPid;
    assert SameLines(t, Kill(t, pid, signo));
    FromSame(t, Kill(t, pid, signo), j);
  }

  lemma {:induction false} RunKnown(es: seq<Event>, n: nat)
    requires n <= |es|
    ensures AllKnown(es, n)
    decreases n
  {
    if n == 0 {
      assert es[..0] == [];
    } else {
      hide AllKnown, After, JobsOk;
      RunKnown(es, n - 1);
      AfterNext(es, n - 1);
      AfterOk(es, n - 1);
      StepKnown(es, n - 1);
    }
  }

  lemma AfterOk(es: seq<Event>, n: nat)
    requires n <= |es|
    ensures |After(es, n).table| <= 1000
  {
    NothingStarted();
    StepsOk(Start(), es[..n]);
  }

  lemma ShownKnown(es: seq<Event>, n: nat, l: Line)
    requires n <= |es| && AllKnown(es, n) && l in After(es, n).shown
    ensures Known(es, n, l)
  {
  }

  lemma WholeRun(es: seq<Event>)
    ensures After(es, |es|) == Steps(Start(), es)
  {
    assert es[..|es|] == es;
  }

  /** Every Done line of every run names the number and the command, cut to 127 bytes, that its process was launched
      with. */
  lemma DoneLineTells(es: seq<Event>, l: Line)
    requires l in Steps(Start(), es).shown
    ensures exists k :: 0 <= k < |es| && LaunchedAs(es, k, l)
  {
    hide LaunchedAs, Steps, AllKnown, After;
    RunKnown(es, |es|);
    WholeRun(es);
    ShownKnown(es, |es|, l);
  }

  // ---------------------------------------------------------------- in which order

  predicate NumbersIncrease(lines: seq<Line>, bound: int) {
    (forall i :: 0 <= i < |lines| ==> lines[i].jobNum <= bound) &&
    forall i, k :: 0 <= i < k < |lines| ==> lines[i].jobNum < lines[k].jobNum
  }

  lemma {:induction false} SweepInOrder(t: seq<Job>)
    requires JobsOk(t)
    ensures NumbersIncrease(SweepLines(t), |t|)
  {
    if t != [] {
      var front, j := t[..|t| - 1], t[|t| - 1];
      assert forall i :: 0 <= i < |front| ==> front[i] == t[i];
      SweepInOrder(front);
      assert JobOk(j, |front|);
    }
  }

  function PidsOf(lines: seq<Line>): seq<int> { seq(|lines|, i requires 0 <= i < |lines| => lines[i].pid) }

  ghost predicate Reapable(t: seq<Job>, pid: int) { exists j :: j in t && ReapsJob(j, pid) }

  /** Those of `pids` whose jobs count as running. */
  ghost function RunningPids(t: seq<Job>, pids: seq<int>): seq<int> {
    if pids == [] then [] else (if Reapable(t, pids[0]) then [pids[0]] else []) + RunningPids(t, pids[1..])
  }

  lemma {:induction false} ReapLinesPids(t: seq<Job>, pid: int)
    requires DistinctPids(t)
    ensures PidsOf(ReapLines(t, pid)) == if Reapable(t, pid) then [pid] else []
  {
    if t != [] {
      var front, j := t[..|t| - 1], t[|t| - 1];
      ReapLinesPids(front, pid);
      assert t == front + [j];
      assert forall x :: x in t <==> x in front || x == j;
      assert forall x :: x in front ==> x.process.pid != j.process.pid;
    }
  }

  lemma ReapableAfter(t: seq<Job>, pid: int, other: int)
    requires pid != other
    ensures Reapable(Reap(t, pid), other) <==> Reapable(t, other)
  {
    var u := Reap(t, pid);
    if j :| j in t && ReapsJob(j, other) {
      var i :| 0 <= i < |t| && t[i] == j;
      assert u[i] == j && u[i] in u;
    }
    if j :| j in u && ReapsJob(j, other) {
      var i :| 0 <= i < |u| && u[i] == j;
      assert t[i] == j && t[i] in t;
    }
  }

  lemma {:induction false} RunningPidsAfter(t: seq<Job>, pid: int, pids: seq<int>)
    requires pid !in pids
    ensures RunningPids(Reap(t, pid), pids) == RunningPids(t, pids)
  {
    if pids != [] {
      hide Reapable;
      ReapableAfter(t, pid, pids[0]);
      RunningPidsAfter(t, pid, pids[1..]);
    }
  }

  predicate Unrepeated(pids: seq<int>) { forall i, j :: 0 <= i < j < |pids| ==> pids[i] != pids[j] }

  lemma {:induction false} ReapedInOrder(t: seq<Job>, pids: seq<int>)
    requires DistinctPids(t) && Unrepeated(pids)
    ensures PidsOf(ReapAllLines(t, pids)) == RunningPids(t, pids)
    decreases |pids|
  {
    hide DistinctPids, Reapable;
    if pids != [] {
      var pid, rest, u := pids[0], pids[1..], Reap(t, pids[0]);
      ReapDistinct(t, pid);
      ReapLinesPids(t, pid);
      ReapedInOrder(u, rest);
      RunningPidsAfter(t, pid, rest);
      var a, b := ReapLines(t, pid), ReapAllLines(u, rest);
      assert PidsOf(a + b) == PidsOf(a) + PidsOf(b);
    }
  }

  /** A display first reports the processes waited for, in the order in which they are, then the killed jobs in the
      order of their numbers. */
  lemma DisplayOrder(t: seq<Job>, pids: seq<int>) returns (reaped: seq<Line>, swept: seq<Line>)
    requires JobsOk(t) && DistinctPids(t) && Unrepeated(pids)
    ensures DisplayLines(t, pids) == reaped + swept
    ensures PidsOf(reaped) == RunningPids(t, pids)
    ensures NumbersIncrease(swept, |t|)
  {
    reaped, swept := ReapAllLines(t, pids), SweepLines(ReapAll(t, pids));
    ReapedInOrder(t, pids);
    ReapAllKeeps(t, pids);
    SweepInOrder(ReapAll(t, pids));
  }

  // ---------------------------------------------------------------- what ps prints

  predicate ProcessesIncrease(ps: seq<Process>, bound: int) {
    (forall i :: 0 <= i < |ps| ==> ps[i].jobNum <= bound) &&
    forall i, k :: 0 <= i < k < |ps| ==> ps[i].jobNum < ps[k].jobNum
  }

  /** ps lists exactly the jobs that count as running, each once, by their numbers. */
  lemma {:induction false} ListedIs(t: seq<Job>)
    requires JobsOk(t)
    ensures ProcessesIncrease(Listed(t), |t|)
    ensures forall p :: p in Listed(t) <==> exists i :: 0 <= i < |t| && t[i].process == p && p.isRunning
  {
    if t != [] {
      var front, j := t[..|t| - 1], t[|t| - 1];
      assert forall i :: 0 <= i < |front| ==> front[i] == t[i];
      ListedIs(front);
      assert JobOk(j, |front|);
      forall p
        ensures p in Listed(t) <==> exists i :: 0 <= i < |t| && t[i].process == p && p.isRunning
      {
        if p in Listed(front) {
          var i :| 0 <= i < |front| && front[i].process == p && p.isRunning;
          assert t[i].process == p;
        }
        if i :| 0 <= i < |t| && t[i].process == p && p.isRunning {
          assert i < |front| ==> front[i].process == p;
        }
      }
    }
  }

  /** A line of ps, cut at its blanks, is the first word of the command and the pid. */
  lemma PsLineReads(p: Process)
    requires Words(p.command, {' '}) != []
    ensures Words(PsLine(p), {' '}) == [Words(p.command, {' '})[0], Decimal(p.pid)]
  {
    hide Words;
    var w, d := Words(p.command, {' '})[0], Decimal(p.pid);
    DecimalNoBlank(p.pid);
    WordShape(p.command);
    NoneLeft("", 0, {' '});
    WordThen(w, "", {' '});
    assert w + "" == w && ""[0..] == "" && [w] + [] == [w];
    WordsAppend(w, ' ', d, {' '});
    assert w + [' '] + d == PsLine(p);
  }

  lemma DecimalNoBlank(n: int)
    ensures Decimal(n) != "" && ' ' !in Decimal(n)
  {
    DecimalDigits(if n < 0 then -n else n);
    var d := Decimal(if n < 0 then -n else n);
    forall c | c in Decimal(n)
      ensures c != ' '
    {
      assert c in d || c == '-';
    }
  }

  lemma {:induction false} WordShape(s: string)
    requires Words(s, {' '}) != []
    ensures Words(s, {' '})[0] != "" && NoneIn(Words(s, {' '})[0], {' '})
    decreases |s|
  {
    if s[0] in {' '} {
      WordShape(s[1..]);
    }
  }
}
