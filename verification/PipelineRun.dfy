/** The processes of execute_pipeline() (src/commands.c) as a concurrent system: one parent, n + 1 children, n pipes,
    every interleaving of their fork, dup2, close, read, write and exit steps. */
module PipelineRun {
  import opened Text

  datatype End = ReadEnd(pipe: nat) | WriteEnd(pipe: nat)

  datatype Phase = Unborn | Wiring | Running | Exited

  /** `open` are the descriptors it inherited and has not closed; `input` and `output` are descriptors 0 and 1 if
      dup2() changed them; `got` and `put` are all bytes it read and wrote. */
  datatype Child = Child(phase: Phase, pc: nat, open: set<End>, input: Option<End>, output: Option<End>,
                         sawEof: bool, got: string, put: string)

  /** `source` is what is left of the pipeline's own input, `sink` its output so far. */
  datatype State = State(forked: nat, closed: nat, open: set<End>, children: seq<Child>, pipes: seq<string>,
                         source: string, sink: string)

  /** A pipeline of `pipes` pipes whose buffers take `capacity` bytes. A stage that reads its whole input x and
      then answers it writes stage(i, x); the steps below do not oblige a stage to do so. */
  datatype Job = Job(pipes: nat, capacity: nat, stage: (nat, string) -> string)

  /** The k-th descriptor a closing loop closes: pipes[0][0], pipes[0][1], pipes[1][0], ... */
  function EndAt(k: nat): End { if k % 2 == 0 then ReadEnd(k / 2) else WriteEnd(k / 2) }

  function EndsFrom(k: nat, n: nat): set<End> { set m: nat | k <= m < 2 * n :: EndAt(m) }

  function Newborn(): Child { Child(Unborn, 0, {}, None, None, false, "", "") }

  function Initial(job: Job, source: string): State {
    State(0, 0, EndsFrom(0, job.pipes), seq(job.pipes + 1, _ => Newborn()), seq(job.pipes, _ => ""), source, "")
  }

  predicate Holds(c: Child, e: End) {
    c.phase != Exited && (e in c.open || c.input == Some(e) || c.output == Some(e))
  }

  predicate Held(st: State, e: End) { e in st.open || exists c :: c in st.children && Holds(c, e) }

  // ---------------------------------------------------------------- steps

  datatype Step =
    | Fork
    | ParentClose
    | Wire(i: nat)
    | Read(i: nat, count: nat)
    | ReadEof(i: nat)
    | Write(i: nat, bytes: string)
    | Exit(i: nat)

  /** One system call of a child that sets up its descriptors. */
  function Wired(job: Job, i: nat, c: Child): Child {
    if c.pc == 0 then c.(pc := 1, input := if i > 0 then Some(ReadEnd(i - 1)) else None)
    else if c.pc == 1 then c.(pc := 2, output := if i < job.pipes then Some(WriteEnd(i)) else None)
    else if c.pc - 2 < 2 * job.pipes then c.(pc := c.pc + 1, open := c.open - {EndAt(c.pc - 2)})
    else c.(phase := Running)
  }

  function Upstream(st: State, c: Child): string {
    match c.input
    case Some(ReadEnd(j)) => if j < |st.pipes| then st.pipes[j] else ""
    case _ => st.source
  }

  /** What the system allows: reads of bytes that are there, end of file when nobody can write any more, writes that
      fit while somebody can read. A child may exit (or be killed by a broken pipe) whenever it runs. */
  predicate Enabled(job: Job, st: State, s: Step) {
    && |st.children| == job.pipes + 1 && |st.pipes| == job.pipes &&
    match s
    case Fork => st.forked <= job.pipes
    case ParentClose => st.forked == job.pipes + 1 && st.closed < 2 * job.pipes
    case Wire(i) => i <= job.pipes && st.children[i].phase == Wiring
    case Read(i, count) =>
      i <= job.pipes && st.children[i].phase == Running && 1 <= count <= |Upstream(st, st.children[i])|
    case ReadEof(i) =>
      i <= job.pipes && st.children[i].phase == Running && Upstream(st, st.children[i]) == "" &&
      (st.children[i].input.Some? && st.children[i].input.value.ReadEnd? ==>
        !Held(st, WriteEnd(st.children[i].input.value.pipe)))
    case Write(i, bytes) =>
      i <= job.pipes && st.children[i].phase == Running &&
      (match st.children[i].output
       case Some(WriteEnd(j)) => j < job.pipes && |st.pipes[j]| + |bytes| <= job.capacity && Held(st, ReadEnd(j))
       case _ => true)
    case Exit(i) =>
      i <= job.pipes && st.children[i].phase == Running
  }

  function Next(job: Job, st: State, s: Step): State
    requires Enabled(job, st, s)
  {
    match s
    case Fork =>
      st.(forked := st.forked + 1, children := st.children[st.forked := Newborn().(phase := Wiring, open := st.open)])
    case ParentClose => st.(closed := st.closed + 1, open := st.open - {EndAt(st.closed)})
    case Wire(i) => st.(children := st.children[i := Wired(job, i, st.children[i])])
    case Read(i, count) =>
      var c := st.children[i];
      var up := Upstream(st, c);
      var st' := st.(children := st.children[i := c.(got := c.got + up[..count])]);
      (match c.input
       case Some(ReadEnd(j)) => if j < |st.pipes| then st'.(pipes := st.pipes[j := up[count..]]) else st'
       case _ => st'.(source := up[count..]))
    case ReadEof(i) => st.(children := st.children[i := st.children[i].(sawEof := true)])
    case Write(i, bytes) =>
      var c := st.children[i];
      var st' := st.(children := st.children[i := c.(put := c.put + bytes)]);
      (match c.output
       case Some(WriteEnd(j)) => st'.(pipes := st.pipes[j := st.pipes[j] + bytes])
       case _ => st'.(sink := st.sink + bytes))
    case Exit(i) => st.(children := st.children[i := st.children[i].(phase := Exited)])
  }

  /** The state after `steps`, if each was enabled in its turn. */
  function Execute(job: Job, st: State, steps: seq<Step>): Option<State>
    decreases |steps|
  {
    if steps == [] then Some(st)
    else if Enabled(job, st, steps[0]) then Execute(job, Next(job, st, steps[0]), steps[1..])
    else None
  }

  // ---------------------------------------------------------------- invariant

  /** Where a child's descriptors stand at each point of its program. */
  predicate ChildOk(job: Job, forked: nat, i: nat, c: Child) {
    var n := job.pipes;
    && (c.phase == Unborn <==> i >= forked)
    && (c.phase == Unborn || c.phase == Wiring ==> c.got == "" && c.put == "" && !c.sawEof)
    && (c.phase == Wiring ==> c.pc <= 2 * n + 2)
    && (c.phase == Unborn ==> c == Newborn())
    && (c.phase != Unborn ==>
          && c.open == EndsFrom(if c.pc >= 2 then c.pc - 2 else 0, n)
          && c.input == (if c.pc >= 1 && i > 0 then Some(ReadEnd(i - 1)) else None)
          && c.output == (if c.pc >= 2 && i < n then Some(WriteEnd(i)) else None))
    && (c.phase == Running || c.phase == Exited ==> c.pc == 2 * n + 2)
  }

  predicate ProcessesOk(job: Job, st: State) {
    var n := job.pipes;
    && |st.children| == n + 1 && |st.pipes| == n && st.forked <= n + 1 && st.closed <= 2 * n
    && (st.closed > 0 ==> st.forked == n + 1) && st.open == EndsFrom(st.closed, n)
    && forall i :: 0 <= i <= n ==> ChildOk(job, st.forked, i, st.children[i])
  }

  /** On every pipe the bytes written are the bytes read and the bytes in flight. */
  predicate BytesOk(job: Job, source: string, st: State)
    requires |st.children| == job.pipes + 1 && |st.pipes| == job.pipes
  {
    && (forall j :: 0 <= j < job.pipes ==> st.children[j].put == st.children[j+1].got + st.pipes[j])
    && source == st.children[0].got + st.source && st.sink == st.children[job.pipes].put
  }

  /** End of file was seen only by those whose writer is gone and whose pipe is empty. */
  predicate EofsOk(job: Job, st: State)
    requires |st.children| == job.pipes + 1 && |st.pipes| == job.pipes
  {
    forall i :: 0 <= i <= job.pipes && st.children[i].sawEof ==> EofOk(st, i)
  }

  predicate Inv(job: Job, source: string, st: State) {
    ProcessesOk(job, st) && BytesOk(job, source, st) && EofsOk(job, st)
  }

  predicate EofOk(st: State, i: nat)
    requires i < |st.children| == |st.pipes| + 1
  {
    if i == 0 then st.source == "" else st.children[i-1].phase == Exited && st.pipes[i-1] == ""
  }

  lemma InitialInv(job: Job, source: string)
    ensures Inv(job, source, Initial(job, source))
  {
    assert "" + source == source;
  }

  lemma CloseNext(k: nat, n: nat)
    requires k < 2 * n
    ensures EndsFrom(k, n) - {EndAt(k)} == EndsFrom(k + 1, n)
  {
    forall e
      ensures e in EndsFrom(k, n) - {EndAt(k)} <==> e in EndsFrom(k + 1, n)
    {
      if e in EndsFrom(k, n) - {EndAt(k)} {
        var m: nat :| k <= m < 2 * n && e == EndAt(m);
        assert m >= k + 1;
      }
      if e in EndsFrom(k + 1, n) {
        var m: nat :| k + 1 <= m < 2 * n && e == EndAt(m);
        assert EndAt(m) != EndAt(k);
      }
    }
  }

  lemma ForkKeeps(job: Job, source: string, st: State)
    requires Inv(job, source, st) && Enabled(job, st, Fork)
    ensures Inv(job, source, Next(job, st, Fork))
    ensures var c := Next(job, st, Fork).children[st.forked];
      c.open == st.open && forall j :: 0 <= j < job.pipes ==> ReadEnd(j) in c.open && WriteEnd(j) in c.open
  {
    var st' := Next(job, st, Fork);
    assert st.closed == 0;
    forall i | 0 <= i <= job.pipes
      ensures ChildOk(job, st'.forked, i, st'.children[i])
    {
      assert ChildOk(job, st.forked, i, st.children[i]);
    }
    assert ChildOk(job, st.forked, st.forked, st.children[st.forked]);
    forall j | 0 <= j < job.pipes
      ensures ReadEnd(j) in st.open && WriteEnd(j) in st.open
    {
      assert ReadEnd(j) == EndAt(2 * j) && WriteEnd(j) == EndAt(2 * j + 1);
    }
  }

  lemma ParentCloseKeeps(job: Job, source: string, st: State)
    requires Inv(job, source, st) && Enabled(job, st, ParentClose)
    ensures Inv(job, source, Next(job, st, ParentClose))
  {
    hide ChildOk;
    CloseNext(st.closed, job.pipes);
  }

  lemma WiredOk(job: Job, forked: nat, i: nat, c: Child)
    requires ChildOk(job, forked, i, c) && c.phase == Wiring
    ensures ChildOk(job, forked, i, Wired(job, i, c))
    ensures var d := Wired(job, i, c); d.got == c.got && d.put == c.put && d.sawEof == c.sawEof && d.phase != Exited
  {
    if 2 <= c.pc < 2 * job.pipes + 2 {
      CloseNext(c.pc - 2, job.pipes);
    }
  }

  /** Replacing a child by one with the same data. */
  lemma SameData(job: Job, source: string, st: State, i: nat, d: Child)
    requires Inv(job, source, st) && i <= job.pipes && ChildOk(job, st.forked, i, d)
    requires d.got == st.children[i].got && d.put == st.children[i].put
    requires st.children[i].phase == Exited ==> d.phase == Exited
    requires d.sawEof ==> EofOk(st, i)
    ensures Inv(job, source, st.(children := st.children[i := d]))
  {
    hide ChildOk;
    var st' := st.(children := st.children[i := d]);
    forall k | 0 <= k <= job.pipes && st'.children[k].sawEof
      ensures EofOk(st', k)
    {
      assert EofOk(st, k);
    }
  }

  lemma WireKeeps(job: Job, source: string, st: State, i: nat)
    requires Inv(job, source, st) && Enabled(job, st, Wire(i))
    ensures Inv(job, source, Next(job, st, Wire(i)))
  {
    hide Wired;
    WiredOk(job, st.forked, i, st.children[i]);
    assert !st.children[i].sawEof;
    SameData(job, source, st, i, Wired(job, i, st.children[i]));
  }

  lemma ExitKeeps(job: Job, source: string, st: State, i: nat)
    requires Inv(job, source, st) && Enabled(job, st, Exit(i))
    ensures Inv(job, source, Next(job, st, Exit(i)))
  {
    assert ChildOk(job, st.forked, i, st.children[i]);
    SameData(job, source, st, i, st.children[i].(phase := Exited));
  }

  /** A running child still holds its ends; one that is being set up holds both, or will. */
  lemma WriterHolds(job: Job, st: State, j: nat)
    requires ProcessesOk(job, st) && j < job.pipes && j < st.forked && st.children[j].phase != Exited
    ensures Held(st, WriteEnd(j))
  {
    var c := st.children[j];
    assert ChildOk(job, st.forked, j, c);
    assert c in st.children;
    if c.pc < 2 {
      assert WriteEnd(j) == EndAt(2 * j + 1);
    }
  }

  /** End of file on pipe `i - 1` means that its writer has exited: it is the last to hold the write end. */
  lemma EofKeeps(job: Job, source: string, st: State, i: nat)
    requires Inv(job, source, st) && Enabled(job, st, ReadEof(i))
    ensures Inv(job, source, Next(job, st, ReadEof(i)))
    ensures i > 0 ==> st.children[i-1].phase == Exited
  {
    var c := st.children[i];
    assert ChildOk(job, st.forked, i, c);
    if i > 0 {
      assert c.input == Some(ReadEnd(i - 1));
      if st.children[i-1].phase != Exited {
        WriterHolds(job, st, i - 1);
      }
    }
    SameData(job, source, st, i, c.(sawEof := true));
  }

  /** Where a running child's descriptors 0 and 1 lead. */
  lemma RunningEnds(job: Job, st: State, i: nat)
    requires ProcessesOk(job, st) && i <= job.pipes && st.children[i].phase == Running
    ensures st.children[i].input == if i > 0 then Some(ReadEnd(i - 1)) else None
    ensures st.children[i].output == if i < job.pipes then Some(WriteEnd(i)) else None
    ensures i < st.forked
  {
    assert ChildOk(job, st.forked, i, st.children[i]);
  }

  lemma DataKeepsChild(job: Job, forked: nat, i: nat, c: Child, got: string, put: string)
    requires ChildOk(job, forked, i, c) && c.phase == Running
    ensures ChildOk(job, forked, i, c.(got := got, put := put))
  {
  }

  lemma ReadKeeps(job: Job, source: string, st: State, i: nat, count: nat)
    requires Inv(job, source, st) && Enabled(job, st, Read(i, count))
    ensures Inv(job, source, Next(job, st, Read(i, count)))
  {
    hide ChildOk, EndsFrom;
    var c, st' := st.children[i], Next(job, st, Read(i, count));
    RunningEnds(job, st, i);
    DataKeepsChild(job, st.forked, i, c, c.got + Upstream(st, c)[..count], c.put);
    var up := Upstream(st, c);
    assert up == up[..count] + up[count..];
    Associative(c.got, up[..count], up[count..]);
    forall k | 0 <= k <= job.pipes && st'.children[k].sawEof
      ensures EofOk(st', k)
    {
      assert EofOk(st, k);
    }
  }

  lemma WriteKeeps(job: Job, source: string, st: State, i: nat, bytes: string)
    requires Inv(job, source, st) && Enabled(job, st, Write(i, bytes))
    ensures Inv(job, source, Next(job, st, Write(i, bytes)))
  {
    hide ChildOk, EndsFrom;
    var c, st' := st.children[i], Next(job, st, Write(i, bytes));
    RunningEnds(job, st, i);
    DataKeepsChild(job, st.forked, i, c, c.got, c.put + bytes);
    if i < job.pipes {
      Associative(st.children[i+1].got, st.pipes[i], bytes);
    }
    forall k | 0 <= k <= job.pipes && st'.children[k].sawEof
      ensures EofOk(st', k)
    {
      assert EofOk(st, k);
    }
  }

  /** Every step keeps the invariant. */
  lemma StepKeeps(job: Job, source: string, st: State, s: Step)
    requires Inv(job, source, st) && Enabled(job, st, s)
    ensures Inv(job, source, Next(job, st, s))
  {
    hide Inv, Enabled, Next;
    match s {
      case Fork => ForkKeeps(job, source, st);
      case ParentClose => ParentCloseKeeps(job, source, st);
      case Wire(i) => WireKeeps(job, source, st, i);
      case Read(i, count) => ReadKeeps(job, source, st, i, count);
      case ReadEof(i) => EofKeeps(job, source, st, i);
      case Write(i, bytes) => WriteKeeps(job, source, st, i, bytes);
      case Exit(i) => ExitKeeps(job, source, st, i);
    }
  }

  lemma {:induction false} ExecuteKeeps(job: Job, source: string, st: State, steps: seq<Step>)
    requires Inv(job, source, st)
    ensures Execute(job, st, steps).Some? ==> Inv(job, source, Execute(job, st, steps).value)
    decreases |steps|
  {
    hide Inv, Enabled, Next;
    if steps != [] && Enabled(job, st, steps[0]) {
      StepKeeps(job, source, st, steps[0]);
      ExecuteKeeps(job, source, Next(job, st, steps[0]), steps[1..]);
    }
  }

  // ---------------------------------------------------------------- theorems

  /** A state some interleaving leads to. */
  ghost predicate Reachable(job: Job, source: string, st: State) {
    exists steps :: Execute(job, Initial(job, source), steps) == Some(st)
  }

  lemma ReachableInv(job: Job, source: string, st: State)
    requires Reachable(job, source, st)
    ensures Inv(job, source, st)
  {
    var steps :| Execute(job, Initial(job, source), steps) == Some(st);
    InitialInv(job, source);
    ExecuteKeeps(job, source, Initial(job, source), steps);
  }

  /** The parent and all children are past their closing loops. */
  predicate Settled(job: Job, st: State) {
    && |st.children| == job.pipes + 1 && st.forked == job.pipes + 1 && st.closed == 2 * job.pipes
    && forall i :: 0 <= i <= job.pipes ==> st.children[i].phase == Running || st.children[i].phase == Exited
  }

  lemma NoEndsLeft(n: nat)
    ensures EndsFrom(2 * n, n) == {}
  {
  }

  /** Once everybody is past the closing loops, a pipe's write end is held by the child before it and its read end
      by the child behind it, and by nobody else, as long as those run. */
  lemma WiringIsExclusive(job: Job, source: string, st: State, i: nat, e: End)
    requires Reachable(job, source, st) && Settled(job, st) && i <= job.pipes
    ensures e !in st.open
    ensures Holds(st.children[i], e) <==>
      st.children[i].phase == Running &&
      ((e == WriteEnd(i) && i < job.pipes) || (i > 0 && e == ReadEnd(i - 1)))
  {
    ReachableInv(job, source, st);
    NoEndsLeft(job.pipes);
    assert ChildOk(job, st.forked, i, st.children[i]);
  }

  /** At every moment of every interleaving: what went into a pipe is what came out and what is in flight. */
  lemma BytesConserved(job: Job, source: string, st: State, j: nat)
    requires Reachable(job, source, st) && j < job.pipes
    ensures |st.children| == job.pipes + 1 && |st.pipes| == job.pipes
    ensures st.children[j].put == st.children[j+1].got + st.pipes[j]
  {
    ReachableInv(job, source, st);
  }

  /** A stage that read to the end of its input read all of it. */
  lemma StageInput(job: Job, source: string, st: State, i: nat)
    requires Inv(job, source, st) && |st.children| == job.pipes + 1 && i <= job.pipes && st.children[i].sawEof
    ensures st.children[i].got == if i == 0 then source else st.children[i-1].put
  {
    hide ChildOk, EndsFrom;
    var got := st.children[i].got;
    assert EofOk(st, i);
    assert got + "" == got;
  }

  /** A child that saw the end of its input has read all that the stage before it ever wrote. */
  lemma EofMeansAll(job: Job, source: string, st: State, i: nat)
    requires Reachable(job, source, st) && i < |st.children| && st.children[i].sawEof
    ensures i == 0 ==> st.children[i].got == source
    ensures i > 0 ==> st.children[i-1].phase == Exited && st.children[i].got == st.children[i-1].put
  {
    hide ChildOk, EndsFrom;
    ReachableInv(job, source, st);
    StageInput(job, source, st, i);
    assert EofOk(st, i);
  }

  /** The stages' functions applied one after the other. */
  function Composed(job: Job, stages: nat, x: string): string {
    if stages == 0 then x else job.stage(stages - 1, Composed(job, stages - 1, x))
  }

  predicate Finished(st: State) { forall c :: c in st.children ==> c.phase == Exited }

  /** Every stage has read to the end of its input and written its answer to it. */
  predicate Answered(job: Job, st: State) {
    && |st.children| == job.pipes + 1
    && forall i :: 0 <= i <= job.pipes ==> st.children[i].sawEof && st.children[i].put == job.stage(i, st.children[i].got)
  }

  lemma {:induction false} StageOutput(job: Job, source: string, st: State, i: nat)
    requires Inv(job, source, st) && Answered(job, st) && i <= job.pipes
    ensures st.children[i].put == Composed(job, i + 1, source)
    decreases i
  {
    hide Inv, Composed;
    StageInput(job, source, st, i);
    ComposedNext(job, i, source);
    if i > 0 {
      StageOutput(job, source, st, i - 1);
    }
  }

  lemma ComposedNext(job: Job, i: nat, x: string)
    ensures Composed(job, i + 1, x) == job.stage(i, Composed(job, i, x))
    ensures Composed(job, 0, x) == x
  {
  }

  /** When every stage has answered its input, whatever the interleaving, the pipeline has output exactly what its
      stages compose to. */
  lemma PipelineComposes(job: Job, source: string, st: State)
    requires Reachable(job, source, st) && Answered(job, st)
    ensures st.sink == Composed(job, job.pipes + 1, source)
  {
    ReachableInv(job, source, st);
    StageOutput(job, source, st, job.pipes);
  }

  // ---------------------------------------------------------------- no deadlock

  /** What the program of a running stage wants to do next. */
  datatype Wish = WantsInput | WantsOutput(byte: char) | WantsExit

  /** A system call returns: it does its work, or reports the end of the input or a broken pipe. */
  predicate Granted(job: Job, st: State, i: nat, w: Wish) {
    match w
    case WantsInput => Enabled(job, st, Read(i, 1)) || Enabled(job, st, ReadEof(i))
    case WantsOutput(byte) => Enabled(job, st, Write(i, [byte])) || (i < job.pipes && !Held(st, ReadEnd(i)))
    case WantsExit => Enabled(job, st, Exit(i))
  }

  /** Who holds an end of a pipe once all is settled. */
  lemma OnlyHolder(job: Job, source: string, st: State, e: End)
    requires Reachable(job, source, st) && Settled(job, st) && Held(st, e)
    ensures match e
            case WriteEnd(j) => j < job.pipes && st.children[j].phase == Running
            case ReadEnd(j) => j < job.pipes && st.children[j+1].phase == Running
  {
    WiringIsExclusive(job, source, st, 0, e);
    var c :| c in st.children && Holds(c, e);
    var i :| 0 <= i < |st.children| && st.children[i] == c;
    WiringIsExclusive(job, source, st, i, e);
  }

  /** A running stage gets what it wants, or its output pipe is full and the stage behind it runs and has input. */
  lemma GrantedOrFull(job: Job, source: string, st: State, i: nat, w: Wish)
    requires Reachable(job, source, st) && Settled(job, st) && job.capacity >= 1
    requires i <= job.pipes && st.children[i].phase == Running && |st.pipes| == job.pipes
    ensures Granted(job, st, i, w) ||
            (i < job.pipes && st.children[i+1].phase == Running && st.pipes[i] != "") ||
            (i > 0 && st.pipes[i-1] == "" && st.children[i-1].phase == Running)
  {
    hide EndsFrom;
    ReachableInv(job, source, st);
    RunningEnds(job, st, i);
    if w.WantsInput? && i > 0 && Held(st, WriteEnd(i - 1)) {
      OnlyHolder(job, source, st, WriteEnd(i - 1));
    }
    if w.WantsOutput? && i < job.pipes && Held(st, ReadEnd(i)) {
      OnlyHolder(job, source, st, ReadEnd(i));
    }
  }

  /** From a running stage that has input, or none to wait for, somebody at or behind it goes on. */
  lemma {:induction false} SomebodyGoesOn(job: Job, source: string, st: State, wishes: seq<Wish>, i: nat) returns (k: nat)
    requires Reachable(job, source, st) && Settled(job, st) && job.capacity >= 1
    requires |wishes| == job.pipes + 1 && |st.pipes| == job.pipes
    requires i <= job.pipes && st.children[i].phase == Running
    requires i > 0 ==> st.pipes[i-1] != "" || st.children[i-1].phase == Exited
    ensures k <= job.pipes && st.children[k].phase == Running && Granted(job, st, k, wishes[k])
    decreases job.pipes - i
  {
    GrantedOrFull(job, source, st, i, wishes[i]);
    if Granted(job, st, i, wishes[i]) {
      return i;
    }
    k := SomebodyGoesOn(job, source, st, wishes, i + 1);
  }

  /** No deadlock: whatever the running stages want, as long as one of them runs, one of them gets it. */
  lemma NoDeadlock(job: Job, source: string, st: State, wishes: seq<Wish>) returns (k: nat)
    requires Reachable(job, source, st) && Settled(job, st) && job.capacity >= 1 && !Finished(st)
    requires |wishes| == job.pipes + 1
    ensures k <= job.pipes && st.children[k].phase == Running && Granted(job, st, k, wishes[k])
  {
    hide Granted, Reachable;
    ReachableInv(job, source, st);
    var c :| c in st.children && c.phase != Exited;
    var i: nat :| i < |st.children| && st.children[i] == c;
    while i > 0 && st.children[i-1].phase != Exited
      invariant 0 <= i <= job.pipes && st.children[i].phase != Exited
    {
      i := i - 1;
    }
    k := SomebodyGoesOn(job, source, st, wishes, i);
  }

  /** Until all is settled somebody can fork, close or go on with its set-up. */
  lemma SettingUpGoesOn(job: Job, source: string, st: State) returns (s: Step)
    requires Reachable(job, source, st) && !Settled(job, st)
    ensures (s.Fork? || s.ParentClose? || s.Wire?) && Enabled(job, st, s)
  {
    ReachableInv(job, source, st);
    if st.forked <= job.pipes {
      return Fork;
    }
    if st.closed < 2 * job.pipes {
      return ParentClose;
    }
    var i :| 0 <= i <= job.pipes && st.children[i].phase != Running && st.children[i].phase != Exited;
    assert ChildOk(job, st.forked, i, st.children[i]);
    return Wire(i);
  }

  /** The set-up calls a child still has to make, counting its fork. */
  function LeftOf(job: Job, c: Child): int {
    match c.phase
    case Unborn => 2 * job.pipes + 4
    case Wiring => 2 * job.pipes + 3 - c.pc
    case _ => 0
  }

  function LeftIn(job: Job, cs: seq<Child>): int {
    if cs == [] then 0 else LeftOf(job, cs[0]) + LeftIn(job, cs[1..])
  }

  /** The set-up calls still to be made by the parent and all children. */
  function SetupLeft(job: Job, st: State): int { 2 * job.pipes - st.closed + LeftIn(job, st.children) }

  predicate IsSetup(s: Step) { s.Fork? || s.ParentClose? || s.Wire? }

  function SetupSteps(steps: seq<Step>): nat {
    if steps == [] then 0 else (if IsSetup(steps[0]) then 1 else 0) + SetupSteps(steps[1..])
  }

  lemma {:induction false} LeftUpdate(job: Job, cs: seq<Child>, i: nat, d: Child)
    requires i < |cs|
    ensures LeftIn(job, cs[i := d]) == LeftIn(job, cs) - LeftOf(job, cs[i]) + LeftOf(job, d)
    decreases |cs|
  {
    hide LeftOf;
    if i == 0 {
      assert cs[i := d][1..] == cs[1..];
    } else {
      LeftUpdate(job, cs[1..], i - 1, d);
      assert cs[i := d][1..] == cs[1..][i - 1 := d];
    }
  }

  lemma {:induction false} LeftIsZero(job: Job, cs: seq<Child>)
    requires forall i :: 0 <= i < |cs| ==> LeftOf(job, cs[i]) >= 0
    ensures LeftIn(job, cs) >= 0
    ensures LeftIn(job, cs) == 0 <==> forall i :: 0 <= i < |cs| ==> LeftOf(job, cs[i]) == 0
  {
    hide LeftOf;
    if cs != [] {
      LeftIsZero(job, cs[1..]);
      assert forall i :: 0 < i < |cs| ==> cs[i] == cs[1..][i - 1];
    }
  }

  lemma ForkCounts(job: Job, source: string, st: State)
    requires Inv(job, source, st) && Enabled(job, st, Fork)
    ensures SetupLeft(job, Next(job, st, Fork)) == SetupLeft(job, st) - 1
  {
    hide EndsFrom;
    assert ChildOk(job, st.forked, st.forked, st.children[st.forked]);
    LeftUpdate(job, st.children, st.forked, Next(job, st, Fork).children[st.forked]);
  }

  lemma WireCounts(job: Job, source: string, st: State, i: nat)
    requires Inv(job, source, st) && Enabled(job, st, Wire(i))
    ensures SetupLeft(job, Next(job, st, Wire(i))) == SetupLeft(job, st) - 1
  {
    hide EndsFrom;
    assert ChildOk(job, st.forked, i, st.children[i]);
    LeftUpdate(job, st.children, i, Wired(job, i, st.children[i]));
  }

  lemma DataCounts(job: Job, st: State, s: Step)
    requires !IsSetup(s) && Enabled(job, st, s)
    ensures SetupLeft(job, Next(job, st, s)) == SetupLeft(job, st)
  {
    hide Held, LeftIn;
    var i := s.i;
    var d := Next(job, st, s).children[i];
    assert Next(job, st, s).children == st.children[i := d] && LeftOf(job, d) == 0 == LeftOf(job, st.children[i]);
    LeftUpdate(job, st.children, i, d);
  }

  lemma SetupStep(job: Job, source: string, st: State, s: Step)
    requires Inv(job, source, st) && Enabled(job, st, s)
    ensures SetupLeft(job, Next(job, st, s)) == SetupLeft(job, st) - (if IsSetup(s) then 1 else 0)
  {
    match s {
      case Fork => ForkCounts(job, source, st);
      case ParentClose =>
      case Wire(i) => WireCounts(job, source, st, i);
      case _ => DataCounts(job, st, s);
    }
  }

  lemma SettledIsZero(job: Job, source: string, st: State)
    requires Inv(job, source, st)
    ensures SetupLeft(job, st) >= 0 && (SetupLeft(job, st) == 0 <==> Settled(job, st))
  {
    hide EndsFrom;
    forall i | 0 <= i <= job.pipes
      ensures LeftOf(job, st.children[i]) >= 0
      ensures LeftOf(job, st.children[i]) == 0 <==> st.children[i].phase == Running || st.children[i].phase == Exited
      ensures st.children[i].phase == Unborn <==> i >= st.forked
    {
      assert ChildOk(job, st.forked, i, st.children[i]);
    }
    LeftIsZero(job, st.children);
  }

  lemma {:induction false} LeftAtStart(job: Job, cs: seq<Child>)
    requires forall i :: 0 <= i < |cs| ==> cs[i].phase == Unborn
    ensures LeftIn(job, cs) == |cs| * (2 * job.pipes + 4)
  {
    if cs != [] {
      LeftAtStart(job, cs[1..]);
      var k := 2 * job.pipes + 4;
      assert |cs| * k == k + (|cs| - 1) * k;
    }
  }

  lemma {:induction false} SetupCounted(job: Job, source: string, st: State, steps: seq<Step>)
    requires Inv(job, source, st) && Execute(job, st, steps).Some?
    ensures SetupLeft(job, Execute(job, st, steps).value) + SetupSteps(steps) == SetupLeft(job, st)
    decreases |steps|
  {
    hide Inv, Enabled, Next, SetupLeft, IsSetup;
    if steps != [] {
      SetupStep(job, source, st, steps[0]);
      StepKeeps(job, source, st, steps[0]);
      SetupCounted(job, source, Next(job, st, steps[0]), steps[1..]);
    }
  }

  /** Whatever runs in between, everybody is past the closing loops after exactly so many set-up calls, and no
      interleaving has more of them. */
  lemma SetupTakes(job: Job, source: string, steps: seq<Step>)
    requires Execute(job, Initial(job, source), steps).Some?
    ensures var n, st := job.pipes, Execute(job, Initial(job, source), steps).value;
      var total := 2 * n + (n + 1) * (2 * n + 4);
      SetupSteps(steps) <= total && (Settled(job, st) <==> SetupSteps(steps) == total)
  {
    hide Execute, Settled, Inv;
    InitialInv(job, source);
    ExecuteKeeps(job, source, Initial(job, source), steps);
    SetupCounted(job, source, Initial(job, source), steps);
    SettledIsZero(job, source, Execute(job, Initial(job, source), steps).value);
    LeftAtStart(job, Initial(job, source).children);
  }
}
