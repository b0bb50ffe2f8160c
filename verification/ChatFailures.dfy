/** The failures the run theorems speak of: exactly when a sender is freed, and a run for each kind. */
module ChatFailures {
  import opened Text
  import opened Framing
  import opened Socket
  import opened Chat
  import opened ChatInvariant
  import opened ChatSteps
  import opened ChatWire
  import opened ChatTheorems

  // ---------------------------------------------------------------- when a run frees a sender

  /** Some relay's write to its own sender broke the connection. */
  ghost predicate EchoBroke(log: seq<Entry>) { exists e :: e in log && e.echo == Broken }

  ghost predicate FreedByEcho(st: State) { st.freed <==> EchoBroke(st.log) }

  lemma EchoAppend(log: seq<Entry>, e: Entry)
    ensures EchoBroke(log + [e]) <==> EchoBroke(log) || e.echo == Broken
  {
    assert forall x :: x in log + [e] <==> x in log || x == e;
  }

  lemma HandleEcho(st: State, s: nat, msg: string, env: Env)
    requires Ascending(st.peers, st.accepted) && !st.freed && FreedByEcho(st)
    ensures FreedByEcho(Handle(Pop(st, s, msg), s, msg, env))
  {
    hide EchoBroke, Cut, Kept, RelayText, WriteOutcome;
    var st1 := Pop(st, s, msg);
    var i := IndexOf(st.peers, s);
    if i < |st.peers| && st1 != st {
      ReplaceKeeps(st.peers, i, st1.peers[i], st.accepted);
    }
    var j := IndexOf(st1.peers, s);
    if !AsksCount(msg) && j < |st1.peers| {
      CutBySender(st1.peers, j, RelayText(st1.peers[j].id, msg), env, st1.clock, st1.accepted);
      EchoAppend(st1.log, Logged(st1, j, msg, env));
    }
  }

  lemma {:induction false} DrainEcho(st: State, s: nat, msgs: seq<string>, env: Env)
    requires Serving(st, s, msgs, msgs) && IndexOf(st.peers, s) < |st.peers| && FreedByEcho(st)
    requires forall m :: m in msgs ==> CrlfFree(m)
    ensures FreedByEcho(Drain(st, s, msgs, env))
    decreases |msgs|
  {
    if msgs != [] {
      var m, rest := msgs[0], msgs[1..];
      var st' := Handle(Pop(st, s, m), s, m, env);
      assert msgs == [m] + rest && !st.freed;
      HandleEcho(st, s, m, env);
      hide Serving, Handle, Pop;
      if st'.freed {
        FreedStays(st', s, rest, env);
      } else {
        HandleKeeps(st, s, m, rest, env);
        DrainEcho(st', s, rest, env);
      }
    }
  }

  lemma ServeEcho(st: State, s: nat, r: Round, env: Env)
    requires Inv(st) && FreedByEcho(st)
    ensures FreedByEcho(Serve(st, s, r, env))
  {
    hide Serving, Drain, LivesOk, GonesOk, EchoBroke;
    var i := IndexOf(st.peers, s);
    if i < |st.peers| && st.peers[i].fd in r.ready {
      var p := st.peers[i];
      PendingFits(st, i);
      var o := Answer(r.answers(p.fd), USABLE - |p.pending|);
      if o.Data? && Messages(p.pending + o.bytes) != [] {
        FillAndNameKeeps(st, i, o.bytes);
        EncodeDecode(p.pending + o.bytes);
        DrainEcho(Named(Fill(st, i, o.bytes), i), s, Messages(p.pending + o.bytes), env);
      }
    }
  }

  lemma {:induction false} ServeAllEcho(st: State, todo: seq<nat>, r: Round, env: Env)
    requires Inv(st) && FreedByEcho(st)
    ensures FreedByEcho(ServeAll(st, todo, r, env))
    decreases |todo|
  {
    hide Inv, FreedByEcho, Serve;
    if todo != [] {
      var st' := Serve(st, todo[0], r, env);
      ServeEcho(st, todo[0], r, env);
      if st'.freed {
        FreedForever(st', todo[1..], r, env);
      } else {
        ServeKeeps(st, todo[0], r, env);
        ServeAllEcho(st', todo[1..], r, env);
      }
    }
  }

  lemma {:induction false} RunEcho(st: State, rs: seq<Round>, env: Env)
    requires Inv(st) && AllAllowed(st, rs, env) && FreedByEcho(st)
    ensures FreedByEcho(Run(st, rs, env))
    decreases |rs|
  {
    if rs != [] {
      hide Inv, EchoBroke, ServeAll;
      var a, st' := Admit(st, rs[0]), RunRound(st, rs[0], env);
      if rs[0].accept != [] {
        AcceptKeeps(st, rs[0].accept[0]);
      }
      ServeAllEcho(a, Serials(a.peers), rs[0], env);
      if st'.freed {
        FreedRuns(st', rs[1..], env);
      } else {
        RoundKeeps(st, rs[0], env);
        RunEcho(st', rs[1..], env);
      }
    }
  }

  /** After a sender was freed the model relays nothing more. */
  lemma {:induction false} FreedRuns(st: State, rs: seq<Round>, env: Env)
    requires st.freed
    ensures Run(st, rs, env).freed && Run(st, rs, env).log == st.log
    decreases |rs|
  {
    if rs != [] {
      var a := Admit(st, rs[0]);
      FreedForever(a, Serials(a.peers), rs[0], env);
      FreedRuns(RunRound(st, rs[0], env), rs[1..], env);
    }
  }

  /** A run frees a sender's node under its own relay if and only if some relay's write to its own sender breaks. */
  lemma RunFreedIff(listenFd: int, rs: seq<Round>, env: Env)
    requires AllAllowed(Initial(listenFd), rs, env)
    ensures Run(Initial(listenFd), rs, env).freed <==> EchoBroke(Run(Initial(listenFd), rs, env).log)
    ensures GoodRun(listenFd, rs, env) <==> !EchoBroke(Run(Initial(listenFd), rs, env).log)
  {
    InitialInv(listenFd);
    RunEcho(Initial(listenFd), rs, env);
  }

  // ---------------------------------------------------------------- rounds and environments for the runs below

  /** A write() that takes everything, one that takes nothing, and one that takes a single byte and then fails. */
  const ALL := WriteEnv((k: nat) => 2000, false)

  function Nothing(fatal: bool): WriteEnv { WriteEnv((k: nat) => -1, fatal) }

  const ONE_BYTE := WriteEnv((k: nat) => if k == 0 then 1 else -1, false)

  /** The first write meets `first`, all others `others`. */
  function Writes(first: WriteEnv, others: WriteEnv): Env { (k: nat) => if k == 0 then first else others }

  function Joins(fd: int): Round { Round([fd], {}, (f: int) => Eof) }

  function Says(fd: int, msg: string): Round { Round([], {fd}, (f: int) => Data(msg + CRLF)) }

  lemma {:induction false} NobodyReady(st: State, todo: seq<nat>, r: Round, env: Env)
    requires forall s :: s in todo && IndexOf(st.peers, s) < |st.peers| ==> st.peers[IndexOf(st.peers, s)].fd !in r.ready
    ensures ServeAll(st, todo, r, env) == st
    decreases |todo|
  {
    if todo != [] {
      assert todo[0] in todo && forall s :: s in todo[1..] ==> s in todo;
      NobodyReady(st, todo[1..], r, env);
    }
  }

  lemma JoinRound(st: State, fd: int, env: Env)
    ensures RunRound(st, Joins(fd), env) == Accept(st, fd)
  {
    var a := Accept(st, fd);
    NobodyReady(a, Serials(a.peers), Joins(fd), env);
  }

  /** The first client after it sent one message, which is taken out of its buffer. */
  function Spoken1(st: State, msg: string): State
    requires st.peers != []
  {
    var p := st.peers[0];
    var id := if p.id == 0 then |st.named| + 1 else p.id;
    st.(peers := st.peers[0 := p.(rcvd := p.rcvd + msg + CRLF, id := id)],
        named := if p.id == 0 then st.named + [p.serial] else st.named, turns := st.turns + [p.serial])
  }

  lemma DrainOne(st: State, s: nat, msg: string, env: Env)
    requires !st.freed
    ensures Drain(st, s, [msg], env) == Handle(Pop(st, s, msg), s, msg, env)
  {
    hide Handle, Pop;
    var h := Handle(Pop(st, s, msg), s, msg, env);
    assert [msg][1..] == [] && Drain(h, s, [], env) == h;
  }

  lemma FrameDecodes(msg: string)
    requires CrlfFree(msg)
    ensures Messages(msg + CRLF) == [msg] && FirstEnd(msg + CRLF) != -1
  {
    OneFrame(msg);
  }

  lemma SpokenIs(st: State, msg: string)
    requires st.peers != [] && st.peers[0].pending == ""
    ensures Pop(Named(Fill(st, 0, msg + CRLF), 0), st.peers[0].serial, msg) == Spoken1(st, msg)
  {
    var p, bytes := st.peers[0], msg + CRLF;
    var f := Named(Fill(st, 0, bytes), 0);
    assert p.rcvd + bytes == p.rcvd + msg + CRLF && "" + bytes == bytes && bytes[|msg| + 2..] == "";
    assert f.peers[0].pending == bytes && IndexOf(f.peers, p.serial) == 0;
    assert Pop(f, p.serial, msg).peers == Spoken1(st, msg).peers;
  }

  lemma SayTurn(st: State, msg: string, env: Env)
    requires st.peers != [] && !st.freed && st.peers[0].pending == ""
    requires CrlfFree(msg) && |msg| + 2 <= USABLE
    ensures var p := st.peers[0];
      Serve(st, p.serial, Says(p.fd, msg), env) == Handle(Spoken1(st, msg), p.serial, msg, env)
  {
    hide Handle, Pop, Drain, Messages, FirstEnd, Spoken1, CrlfFree;
    var p, bytes := st.peers[0], msg + CRLF;
    assert "" + bytes == bytes && Take(bytes, USABLE) == bytes;
    FrameDecodes(msg);
    DrainOne(Named(Fill(st, 0, bytes), 0), p.serial, msg, env);
    SpokenIs(st, msg);
  }

  lemma SoloRound(st: State, msg: string, env: Env)
    requires |st.peers| == 1 && !st.freed && st.peers[0].pending == "" && CrlfFree(msg) && |msg| + 2 <= USABLE
    ensures var p := st.peers[0];
      RunRound(st, Says(p.fd, msg), env) == Handle(Spoken1(st, msg), p.serial, msg, env)
  {
    hide Handle, Spoken1, Serve, CrlfFree;
    var p := st.peers[0];
    SayTurn(st, msg, env);
    assert Serials(st.peers) == [p.serial] && [p.serial][1..] == [];
    var h := Serve(st, p.serial, Says(p.fd, msg), env);
    assert ServeAll(h, [], Says(p.fd, msg), env) == h;
  }

  lemma Outcomes(text: string)
    requires 0 < |text| <= 1998
    ensures WriteOutcome(text, ALL) == Complete && Leaves(text, ALL) == text + CRLF
    ensures forall fatal :: WriteOutcome(text, Nothing(fatal)) == (if fatal then Broken else Lost)
    ensures WriteOutcome(text, ONE_BYTE) == Lost && Leaves(text, ONE_BYTE) == [text[0]]
  {
    var n := |text| + 2;
    assert Accepted(n, ALL.counts, 0) == n + Accepted(0, ALL.counts, 1);
    assert Accepted(n, ONE_BYTE.counts, 0) == 1 + Accepted(n - 1, ONE_BYTE.counts, 1);
    assert (text + CRLF)[..n] == text + CRLF && (text + CRLF)[..1] == [text[0]];
    assert forall fatal :: Accepted(n, Nothing(fatal).counts, 0) == 0;
  }

  lemma NoReturn(s: string)
    requires forall i :: 0 <= i < |s| ==> s[i] != '\r'
    ensures CrlfFree(s)
  {
  }

  lemma FirstName()
    ensures ClientName(1) == "client1"
  {
    assert Decimal(1) == "1";
    assert "client" + "1" == "client1";
  }

  lemma GreetingText()
    ensures RelayText(1, "yo") == "client1 yo"
  {
    hide ClientName, CStr;
    FirstName();
    CStrOfNulFree("yo");
    assert "client1" + " " + "yo" == "client1 yo";
  }

  lemma Greeting()
    ensures CrlfFree("yo") && !AsksCount("yo")
    ensures CrlfFree("\\connected") && AsksCount("\\connected")
  {
    hide CStr, CrlfFree;
    NoReturn("yo");
    NoReturn("\\connected");
    CStrOfNulFree("yo");
    CStrOfNulFree("\\connected");
    assert |"yo"| != |"\\connected"|;
  }

  /** A relay to a single client: it is freed, or stays with one more write. */
  lemma SoloRelay(st: State, msg: string, env: Env)
    requires |st.peers| == 1 && !st.freed && !AsksCount(msg)
    ensures var p, st' := st.peers[0], Handle(st, st.peers[0].serial, msg, env);
      var text := RelayText(p.id, msg);
      if WriteOutcome(text, env(st.clock)) == Broken then st'.freed
      else !st'.freed && st'.peers == [Attempt(p, text, env(st.clock))]
  {
    hide WriteOutcome, Attempt, RelayText;
    var p := st.peers[0];
    var text := RelayText(p.id, msg);
    assert IndexOf(st.peers, p.serial) == 0 && st.peers[1..] == [];
    var a := Attempt(p, text, env(st.clock));
    AttemptSerial(p, text, env(st.clock));
    assert Kept([], text, env, st.clock + 1) == [] && [a] + [] == [a];
    assert a in Cut(st.peers, text, env, st.clock) <==> WriteOutcome(text, env(st.clock)) == Broken;
  }

  lemma AttemptSerial(p: Peer, text: string, w: WriteEnv)
    ensures Attempt(p, text, w).serial == p.serial
  {
  }

  lemma TwoRounds(st: State, a: Round, b: Round, env: Env)
    ensures var st1 := RunRound(st, a, env);
      Run(st, [a, b], env) == RunRound(st1, b, env)
      && (AllAllowed(st, [a, b], env) <==> Allowed(st, a) && Allowed(st1, b))
  {
    hide RunRound, Allowed;
    assert [a, b][1..] == [b] && [b][1..] == [];
    var st1 := RunRound(st, a, env);
    assert Run(st1, [b], env) == Run(RunRound(st1, b, env), [], env);
    assert AllAllowed(RunRound(st1, b, env), [], env);
    assert AllAllowed(st1, [b], env) <==> Allowed(st1, b);
  }

  lemma ThreeRounds(st: State, a: Round, b: Round, c: Round, env: Env)
    ensures var st1 := RunRound(st, a, env);
      var st2 := RunRound(st1, b, env);
      Run(st, [a, b, c], env) == RunRound(st2, c, env)
      && (AllAllowed(st, [a, b, c], env) <==> Allowed(st, a) && Allowed(st1, b) && Allowed(st2, c))
  {
    hide RunRound, Allowed;
    TwoRounds(RunRound(st, a, env), b, c, env);
    assert [a, b, c][1..] == [b, c];
  }

  // ---------------------------------------------------------------- one run for each failure

  /** The first message of the only client, whose first write meets `w`. */
  lemma FirstWords(w: WriteEnv)
    ensures var rs, env := [Joins(5), Says(5, "yo")], Writes(w, ALL);
      var st := Run(Initial(3), rs, env);
      && AllAllowed(Initial(3), rs, env)
      && (WriteOutcome("client1 yo", w) == Broken ==> st.freed)
      && (WriteOutcome("client1 yo", w) != Broken ==>
            !st.freed && |st.peers| == 1 &&
            st.peers[0].writes == [Relayed("client1 yo", WriteOutcome("client1 yo", w), Leaves("client1 yo", w))])
  {
    hide WriteOutcome, Leaves, Handle, RunRound, AsksCount, CrlfFree, RelayText, Run, AllAllowed;
    var env := Writes(w, ALL);
    Greeting();
    GreetingText();
    var st1 := Accept(Initial(3), 5);
    JoinRound(Initial(3), 5, env);
    SoloRound(st1, "yo", env);
    SoloRelay(Spoken1(st1, "yo"), "yo", env);
    TwoRounds(Initial(3), Joins(5), Says(5, "yo"), env);
  }

  /** A run that frees a sender: its first relay breaks its own connection. */
  lemma FreedRun()
    ensures var rs, env := [Joins(5), Says(5, "yo")], Writes(Nothing(true), ALL);
      AllAllowed(Initial(3), rs, env) && Run(Initial(3), rs, env).freed
  {
    hide AllAllowed, Run;
    FirstWords(Nothing(true));
    Outcomes("client1 yo");
  }

  /** A good run in which a client stays and lost a relay. */
  lemma LostRun()
    ensures var rs, env := [Joins(5), Says(5, "yo")], Writes(Nothing(false), ALL);
      GoodRun(3, rs, env) && |Final(3, rs, env).peers| == 1 && !NoneLost(Attempts(Final(3, rs, env).peers[0].writes))
  {
    hide AllAllowed, Run;
    FirstWords(Nothing(false));
    Outcomes("client1 yo");
    var w := Relayed("client1 yo", Lost, Leaves("client1 yo", Nothing(false)));
    AttemptsAppend([], w);
    assert [] + [w] == [w] && w in [w];
  }

  /** A good run in which the answer to `\connected` fails after one byte and the next relay arrives whole: no relay
      is lost, and yet the client decodes a message nobody sent. */
  lemma GluedRun()
    ensures var rs, env := [Joins(5), Says(5, "\\connected"), Says(5, "yo")], Writes(ONE_BYTE, ALL);
      && GoodRun(3, rs, env) && |Final(3, rs, env).peers| == 1
      && var ws := Final(3, rs, env).peers[0].writes;
         NoneLost(Attempts(ws)) && !Intact(ws) && Messages(Sent(ws)) == ["1client1 yo"]
  {
    hide WriteOutcome, Leaves, Handle, RunRound, AsksCount, CrlfFree, RelayText, Run, AllAllowed, Intact, NoneLost, Sent;
    var env := Writes(ONE_BYTE, ALL);
    Greeting();
    GreetingText();
    Outcomes("1\n");
    Outcomes("client1 yo");
    var st1 := Accept(Initial(3), 5);
    JoinRound(Initial(3), 5, env);
    SoloRound(st1, "\\connected", env);
    var st2 := Handle(Spoken1(st1, "\\connected"), 0, "\\connected", env);
    var c := Counted(1, Lost, "1");
    CountOnce(st1, env);
    SoloRound(st2, "yo", env);
    SoloRelay(Spoken1(st2, "yo"), "yo", env);
    ThreeRounds(Initial(3), Joins(5), Says(5, "\\connected"), Says(5, "yo"), env);
    GluedWrites(c, Relayed("client1 yo", Complete, "client1 yo" + CRLF));
  }

  lemma CountOnce(st: State, env: Env)
    requires st == Accept(Initial(3), 5) && env == Writes(ONE_BYTE, ALL)
    ensures var st' := Handle(Spoken1(st, "\\connected"), 0, "\\connected", env);
      && !st'.freed && st'.clock == 1 && |st'.peers| == 1 && st'.fds == st.fds && st'.listenFd == 3
      && st'.peers[0].writes == [Counted(1, Lost, "1")]
      && st'.peers[0].id == 1 && st'.peers[0].pending == "" && st'.peers[0].serial == 0 && st'.peers[0].fd == 5
  {
    hide AsksCount, WriteOutcome, Leaves;
    Greeting();
    assert Decimal(1) + "\n" == "1\n" by { assert Decimal(1) == "1"; }
    Outcomes("1\n");
    var a := Spoken1(st, "\\connected");
    assert ["1\n"[0]] == "1";
    assert Answered(a, env) == Counted(1, Lost, "1");
    assert [] + [Answered(a, env)] == [Counted(1, Lost, "1")];
  }

  lemma GluedWrites(c: Write, w: Write)
    requires c == Counted(1, Lost, "1") && w == Relayed("client1 yo", Complete, "client1 yo" + CRLF)
    ensures NoneLost(Attempts([c] + [w])) && !Intact([c] + [w]) && Messages(Sent([c] + [w])) == ["1client1 yo"]
  {
    hide Intact, Sent, Rest, Messages, NoneLost, Attempts;
    SentNothing();
    assert [] + [c] == [c] && "" + "1" == "1";
    SentAppend([], c);
    SentAppend([c], w);
    IntactAppend([c], w);
    AttemptsAppend([], c);
    AttemptsAppend([c], w);
    NoneLostAppend([], w);
    GluedFrame();
  }

  lemma GluedFrame()
    ensures Messages("1" + ("client1 yo" + CRLF)) == ["1client1 yo"]
  {
    hide Messages, CrlfFree;
    assert "1" + ("client1 yo" + CRLF) == "1client1 yo" + CRLF;
    NoReturn("1client1 yo");
    FrameDecodes("1client1 yo");
  }

  lemma SentNothing()
    ensures Sent([]) == "" && Rest([]) == "" && Attempts([]) == [] && NoneLost([])
  {
  }

  /** A good run that drops a client during a fan-out: the counter stays one above the length of the list. */
  lemma DroppedRun()
    ensures var rs, env := [Joins(5), Joins(6), Says(5, "yo")], Writes(ALL, Nothing(true));
      && GoodRun(3, rs, env) && Final(3, rs, env).dropped == 1
      && |Final(3, rs, env).peers| == 1 && Final(3, rs, env).connected == 2
  {
    hide WriteOutcome, Leaves, Handle, RunRound, AsksCount, CrlfFree, RelayText, Run, AllAllowed;
    var env := Writes(ALL, Nothing(true));
    Greeting();
    GreetingText();
    Outcomes("client1 yo");
    JoinRound(Initial(3), 5, env);
    var st1 := Accept(Initial(3), 5);
    JoinRound(st1, 6, env);
    var st2 := Accept(st1, 6);
    PairRound(st2, env);
    ThreeRounds(Initial(3), Joins(5), Joins(6), Says(5, "yo"), env);
  }

  /** The first of two clients speaks; the write to the second breaks its connection. */
  lemma PairRound(st: State, env: Env)
    requires st == Accept(Accept(Initial(3), 5), 6) && env == Writes(ALL, Nothing(true))
    ensures var st' := RunRound(st, Says(5, "yo"), env);
      !st'.freed && st'.dropped == 1 && |st'.peers| == 1 && st'.connected == 2
  {
    hide WriteOutcome, Leaves, AsksCount, CrlfFree, RelayText, Serve;
    Greeting();
    GreetingText();
    Outcomes("client1 yo");
    SayTurn(st, "yo", env);
    var a := Spoken1(st, "yo");
    var h := Handle(a, 0, "yo", env);
    PairRelay(a, env);
    var r := Says(5, "yo");
    assert Serials(st.peers) == [0, 1] && [0, 1][1..] == [1];
    NobodyReady(h, [1], r, env);
  }

  lemma PairRelay(st: State, env: Env)
    requires |st.peers| == 2 && st.peers[0].serial == 0 && st.peers[1].serial == 1 && st.peers[0].id == 1
    requires st.clock == 0 && st.dropped == 0 && !st.freed && env == Writes(ALL, Nothing(true))
    ensures var st' := Handle(st, 0, "yo", env);
      && !st'.freed && st'.dropped == 1 && |st'.peers| == 1 && st'.peers[0].serial == 0 && st'.connected == st.connected
  {
    hide WriteOutcome, Leaves, AsksCount, RelayText;
    Greeting();
    GreetingText();
    Outcomes("client1 yo");
    var text := "client1 yo";
    var p, q := st.peers[0], st.peers[1];
    assert IndexOf(st.peers, 0) == 0 && st.peers[1..] == [q] && [q][1..] == [];
    assert Cut([], text, env, 2) == [] && Kept([], text, env, 2) == [];
    assert Cut([q], text, env, 1) == [Attempt(q, text, env(1))] && Kept([q], text, env, 1) == [];
    assert Cut(st.peers, text, env, 0) == [Attempt(q, text, env(1))];
    assert Kept(st.peers, text, env, 0) == [Attempt(p, text, env(0))];
  }
}
