/** The background-job table of src/commands.c, with bn_kill() and bn_ps() of src/builtins.c. */
module Jobs {
  import opened Text
  import opened Strtok

  const MAX_PROCESS := 1000

  // available_indices[i]
  const RUNNING := 0
  const EMPTY := 1
  const DONE := 2
  const KILLED := 3

  const SIGINT := 2

  /** struct bg_process. */
  datatype Process = Process(pid: int, jobNum: int, command: string, isRunning: bool)

  /** A slot in use. */
  datatype Job = Job(status: int, process: Process)

  /** A "[n]+ Done command" line; the pid is not printed. */
  datatype Line = Line(jobNum: int, command: string, pid: int)

  // ---------------------------------------------------------------- operations on the used slots

  function Launch(t: seq<Job>, pid: int, command: string): seq<Job> {
    if |t| == MAX_PROCESS then t
    else t + [Job(RUNNING, Process(pid, |t| + 1, Take(CStr(command), MAX_STR_LEN - 1), true))]
  }

  /** The first slot with that pid, or |t|. */
  function FirstWithPid(t: seq<Job>, pid: int): (i: nat)
    ensures i <= |t| && (i < |t| ==> t[i].process.pid == pid) && forall j :: 0 <= j < i ==> t[j].process.pid != pid
  {
    if t == [] || t[0].process.pid == pid then 0 else 1 + FirstWithPid(t[1..], pid)
  }

  /** After kill(pid, signo) succeeded. */
  function Kill(t: seq<Job>, pid: int, signo: int): seq<Job> {
    var i := FirstWithPid(t, pid);
    if i == |t| || signo == SIGINT then t else t[i := t[i].(status := KILLED)]
  }

  function LineOf(j: Job): Line { Line(j.process.jobNum, j.process.command, j.process.pid) }

  function Finished(j: Job): Job { Job(DONE, j.process.(isRunning := false)) }

  predicate ReapsJob(j: Job, pid: int) { j.process.pid == pid && j.process.isRunning }

  function Reap(t: seq<Job>, pid: int): (r: seq<Job>)
    ensures |r| == |t|
  {
    seq(|t|, i requires 0 <= i < |t| => if ReapsJob(t[i], pid) then Finished(t[i]) else t[i])
  }

  function ReapLines(t: seq<Job>, pid: int): seq<Line> {
    if t == [] then []
    else
      var j := t[|t| - 1];
      ReapLines(t[..|t| - 1], pid) + (if ReapsJob(j, pid) then [LineOf(j)] else [])
  }

  function Sweep(t: seq<Job>): (r: seq<Job>)
    ensures |r| == |t|
  {
    seq(|t|, i requires 0 <= i < |t| => if t[i].status == KILLED then Finished(t[i]) else t[i])
  }

  function SweepLines(t: seq<Job>): seq<Line> {
    if t == [] then []
    else
      var j := t[|t| - 1];
      SweepLines(t[..|t| - 1]) + (if j.status == KILLED then [LineOf(j)] else [])
  }

  predicate AnyRunning(t: seq<Job>) { exists j :: j in t && j.status == RUNNING }

  function ReapAll(t: seq<Job>, pids: seq<int>): seq<Job>
    decreases |pids|
  {
    if pids == [] then t else ReapAll(Reap(t, pids[0]), pids[1..])
  }

  function ReapAllLines(t: seq<Job>, pids: seq<int>): seq<Line>
    decreases |pids|
  {
    if pids == [] then [] else ReapLines(t, pids[0]) + ReapAllLines(Reap(t, pids[0]), pids[1..])
  }

  /** display_done_process() when waitpid() reports `pids`. */
  function Display(t: seq<Job>, pids: seq<int>): seq<Job> {
    var swept := Sweep(ReapAll(t, pids));
    if AnyRunning(swept) then swept else []
  }

  function DisplayLines(t: seq<Job>, pids: seq<int>): seq<Line> {
    ReapAllLines(t, pids) + SweepLines(ReapAll(t, pids))
  }

  /** What ps lists: slots whose process is marked as running. */
  function Listed(t: seq<Job>): seq<Process> {
    if t == [] then []
    else
      var j := t[|t| - 1];
      Listed(t[..|t| - 1]) + (if j.process.isRunning then [j.process] else [])
  }

  /** The line ps prints for a job: the first word of its command, and its pid. */
  function PsLine(p: Process): string {
    var words := Words(p.command, {' '});
    (if words == [] then p.command else words[0]) + " " + Decimal(p.pid)
  }

  function PsLines(ps: seq<Process>): seq<string> {
    seq(|ps|, i requires 0 <= i < |ps| => PsLine(ps[i]))
  }

  /** The processes of the slots with status 0, in slot order. */
  function Active(t: seq<Job>): seq<Process> {
    if t == [] then []
    else
      var j := t[|t| - 1];
      Active(t[..|t| - 1]) + (if j.status == RUNNING then [j.process] else [])
  }

  // ---------------------------------------------------------------- the table in its arrays

  class JobTable {
    const available: array<int>
    const processes: array<Process>
    var shown: seq<Line>
    ghost var used: nat

    /** Slots in use are exactly the first `used` ones; their commands are C strings. */
    ghost predicate Valid()
      reads this, available, processes
    {
      && available.Length == MAX_PROCESS && processes.Length == MAX_PROCESS
      && used <= MAX_PROCESS
      && (forall i :: 0 <= i < used ==> available[i] in {RUNNING, DONE, KILLED})
      && (forall i :: used <= i < MAX_PROCESS ==> available[i] == EMPTY)
      && (forall i :: 0 <= i < used ==> NUL !in processes[i].command)
    }

    ghost function Table(): (t: seq<Job>)
      requires Valid()
      reads this, available, processes
      ensures |t| == used
    {
      seq(used, i requires 0 <= i < used && Valid() reads this, available, processes => Job(available[i], processes[i]))
    }

    constructor ()
      ensures Valid() && Table() == [] && shown == []
      ensures fresh(available) && fresh(processes)
    {
      available := new int[MAX_PROCESS](_ => EMPTY);
      processes := new Process[MAX_PROCESS](_ => Process(0, 0, "", false));
      shown, used := [], 0;
    }

    /** initialize_available_indices(). */
    method Initialize()
      requires Valid()
      modifies this`used, available
      ensures Valid() && Table() == []
    {
      for i := 0 to MAX_PROCESS
        invariant forall k :: 0 <= k < i ==> available[k] == EMPTY
      {
        available[i] := EMPTY;
      }
      used := 0;
    }

    /** find_new_spot(). */
    method FindNewSpot() returns (spot: int)
      requires Valid()
      ensures spot == if used < MAX_PROCESS then used else -1
    {
      for i := 0 to MAX_PROCESS
        invariant i <= used
      {
        if available[i] == EMPTY {
          return i;
        }
      }
      return -1;
    }

    /** The parent's half of running a command in the background. */
    method AddProcess(pid: int, command: string) returns (spot: int)
      requires Valid()
      modifies this`used, available, processes
      ensures Valid() && Table() == Launch(old(Table()), pid, command)
      ensures spot == if |old(Table())| < MAX_PROCESS then |old(Table())| else -1
    {
      spot := FindNewSpot();
      if spot == -1 {
        return;
      }
      CStrNulFree(command);
      available[spot] := RUNNING;
      processes[spot] := Process(pid, spot + 1, Take(CStr(command), MAX_STR_LEN - 1), true);
      used := used + 1;
      assert Table() == old(Table()) + [Job(RUNNING, processes[spot])];
    }

    /** bn_kill() after a successful kill(). */
    method MarkKilled(pid: int, signo: int)
      requires Valid()
      modifies available
      ensures Valid() && Table() == Kill(old(Table()), pid, signo)
    {
      ghost var t := Table();
      var i := 0;
      while i < MAX_PROCESS && available[i] != EMPTY
        invariant 0 <= i <= used && Valid() && Table() == t
        invariant signo != SIGINT ==> forall j :: 0 <= j < i ==> t[j].process.pid != pid
      {
        assert t[i].process == processes[i];
        if processes[i].pid == pid && signo != SIGINT {
          FirstWithPidIs(t, pid, i);
          available[i] := KILLED;
          assert Table() == t[i := t[i].(status := KILLED)];
          return;
        }
        i := i + 1;
      }
      if signo != SIGINT {
        FirstWithPidIs(t, pid, i);
      }
    }

    /** Marks slot `i` as done and shows it. */
    method Finish(i: nat)
      requires Valid() && i < used
      modifies this`shown, available, processes
      ensures Valid() && Table() == old(Table())[i := Finished(old(Table())[i])]
      ensures shown == old(shown) + [LineOf(old(Table())[i])]
    {
      ghost var t := Table();
      assert t[i].process == processes[i];
      processes[i] := processes[i].(isRunning := false);
      available[i] := DONE;
      shown := shown + [Line(processes[i].jobNum, processes[i].command, processes[i].pid)];
      assert forall k :: 0 <= k < used && k != i ==> Table()[k] == t[k];
    }

    /** One turn of the waitpid() loop of display_done_process(). */
    method ReapOne(pid: int)
      requires Valid()
      modifies this`shown, available, processes
      ensures Valid() && used == old(used) && Table() == Reap(old(Table()), pid)
      ensures shown == old(shown) + ReapLines(old(Table()), pid)
    {
      hide ReapLines;
      ghost var t := Table();
      var i := 0;
      NoReapLines(pid);
      assert t[..0] == [];
      while i < MAX_PROCESS && available[i] != EMPTY
        invariant 0 <= i <= used && Valid()
        invariant forall k :: 0 <= k < i ==> Table()[k] == Reap(t, pid)[k]
        invariant forall k :: i <= k < used ==> Table()[k] == t[k]
        invariant shown == old(shown) + ReapLines(t[..i], pid)
      {
        assert Table()[i] == t[i];
        ReapLinesNext(t, i, pid);
        if processes[i].pid == pid && processes[i].isRunning {
          Finish(i);
        }
        i := i + 1;
      }
      assert t[..i] == t;
    }

    /** The pass over killed jobs of display_done_process(). */
    method SweepKilled()
      requires Valid()
      modifies this`shown, available, processes
      ensures Valid() && used == old(used) && Table() == Sweep(old(Table()))
      ensures shown == old(shown) + SweepLines(old(Table()))
    {
      hide SweepLines;
      ghost var t := Table();
      var i := 0;
      NoSweepLines();
      assert t[..0] == [];
      while i < MAX_PROCESS && available[i] != EMPTY
        invariant 0 <= i <= used && Valid()
        invariant forall k :: 0 <= k < i ==> Table()[k] == Sweep(t)[k]
        invariant forall k :: i <= k < used ==> Table()[k] == t[k]
        invariant shown == old(shown) + SweepLines(t[..i])
      {
        assert Table()[i] == t[i];
        SweepLinesNext(t, i);
        if available[i] == KILLED {
          Finish(i);
        }
        i := i + 1;
      }
      assert t[..i] == t;
    }

    method AllTerminated() returns (all: bool)
      requires Valid()
      ensures all <==> !AnyRunning(Table())
    {
      var i := 0;
      while i < MAX_PROCESS && available[i] != EMPTY
        invariant 0 <= i <= used
        invariant forall j :: 0 <= j < i ==> Table()[j].status != RUNNING
      {
        assert Table()[i].status == available[i];
        if available[i] == RUNNING {
          assert Table()[i] in Table();
          return false;
        }
        i := i + 1;
      }
      return true;
    }

    /** display_done_process(). */
    method DisplayDone(pids: seq<int>)
      requires Valid()
      modifies this, available, processes
      ensures Valid() && Table() == Display(old(Table()), pids)
      ensures shown == old(shown) + DisplayLines(old(Table()), pids)
    {
      hide Valid, Reap, ReapLines, Sweep, SweepLines, AnyRunning;
      var k := 0;
      while k < |pids|
        invariant 0 <= k <= |pids| && Valid()
        invariant ReapAll(Table(), pids[k..]) == ReapAll(old(Table()), pids)
        invariant shown + ReapAllLines(Table(), pids[k..]) == old(shown) + ReapAllLines(old(Table()), pids)
      {
        assert pids[k..][0] == pids[k] && pids[k..][1..] == pids[k + 1..];
        ghost var before, t := shown, Table();
        ReapOne(pids[k]);
        assert before + (ReapLines(t, pids[k]) + ReapAllLines(Table(), pids[k + 1..]))
            == shown + ReapAllLines(Table(), pids[k + 1..]);
        k := k + 1;
      }
      assert pids[k..] == [] && shown + [] == shown;
      SweepKilled();
      assert shown == old(shown) + (ReapAllLines(old(Table()), pids) + SweepLines(ReapAll(old(Table()), pids)));
      var all := AllTerminated();
      if all {
        Initialize();
      }
    }

    /** strtok(strdup(command), " "), or the command if it is blank. */
    method FirstWord(command: string) returns (word: string)
      requires NUL !in command
      ensures word == var words := Words(command, {' '}); if words == [] then command else words[0]
    {
      var copy := new char[|command| + 1](i => if 0 <= i < |command| then command[i] else NUL);
      var scanner := new Scanner(copy, command);
      assert command[0..] == command;
      var token := scanner.Next(command, {' '});
      if token == None {
        return command;
      }
      WordNulFree(command);
      word := ReadString(copy, token.value, Words(command, {' '})[0]);
    }

    /** bn_ps(). */
    method Ps() returns (list: seq<string>)
      requires Valid()
      ensures list == PsLines(Listed(Table()))
    {
      hide PsLine;
      ghost var t := Table();
      list := [];
      var i := 0;
      while i < MAX_PROCESS && available[i] != EMPTY
        invariant 0 <= i <= used && list == PsLines(Listed(t[..i]))
      {
        assert t[..i + 1][..i] == t[..i] && t[i].process == processes[i];
        if processes[i].isRunning {
          var word := FirstWord(processes[i].command);
          PsLineIs(processes[i], word);
          list := list + [word + " " + Decimal(processes[i].pid)];
        }
        i := i + 1;
      }
      assert t[..i] == t;
    }
  }

  lemma PsLineIs(p: Process, word: string)
    requires word == var words := Words(p.command, {' '}); if words == [] then p.command else words[0]
    ensures PsLine(p) == word + " " + Decimal(p.pid)
  {
  }

  lemma {:induction false} WordNulFree(s: string)
    requires NUL !in s && Words(s, {' '}) != []
    ensures NUL !in Words(s, {' '})[0]
    decreases |s|
  {
    if s[0] in {' '} {
      WordNulFree(s[1..]);
    }
  }

  lemma NoReapLines(pid: int)
    ensures ReapLines([], pid) == []
  {
  }

  lemma ReapLinesNext(t: seq<Job>, i: nat, pid: int)
    requires i < |t|
    ensures ReapLines(t[..i + 1], pid) == ReapLines(t[..i], pid) + (if ReapsJob(t[i], pid) then [LineOf(t[i])] else [])
  {
    assert t[..i + 1][..i] == t[..i];
  }

  lemma NoSweepLines()
    ensures SweepLines([]) == []
  {
  }

  lemma SweepLinesNext(t: seq<Job>, i: nat)
    requires i < |t|
    ensures SweepLines(t[..i + 1]) == SweepLines(t[..i]) + (if t[i].status == KILLED then [LineOf(t[i])] else [])
  {
    assert t[..i + 1][..i] == t[..i];
  }

  lemma FirstWithPidIs(t: seq<Job>, pid: int, i: nat)
    requires i <= |t| && (i < |t| ==> t[i].process.pid == pid) && forall j :: 0 <= j < i ==> t[j].process.pid != pid
    ensures FirstWithPid(t, pid) == i
  {
  }
}
