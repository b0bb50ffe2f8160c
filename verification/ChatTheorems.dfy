/** What holds after every run of the chat server in which no sender's node was freed under it. */
module ChatTheorems {
  import opened Text
  import opened Framing
  import opened Socket
  import opened Chat
  import opened ChatInvariant
  import opened ChatSteps
  import opened ChatWire

  /** A run from the start in which the environment kept to its rules and no sender was freed mid-relay. */
  ghost predicate GoodRun(listenFd: int, rs: seq<Round>, env: Env) {
    AllAllowed(Initial(listenFd), rs, env) && !Run(Initial(listenFd), rs, env).freed
  }

  function Final(listenFd: int, rs: seq<Round>, env: Env): State { Run(Initial(listenFd), rs, env) }

  /** `p` is or was a client, and heard the log up to entry `left`. */
  ghost predicate Client(st: State, p: Peer, left: nat) {
    (p in st.peers && left == |st.log|) || Gone(p, left) in st.gone
  }

  lemma FinalInv(listenFd: int, rs: seq<Round>, env: Env)
    requires GoodRun(listenFd, rs, env)
    ensures Inv(Final(listenFd, rs, env))
  {
    InitialInv(listenFd);
    RunKeeps(Initial(listenFd), rs, env);
  }

  /** The client list, the descriptor set and the counters agree after any run. */
  lemma ServerStateInvariant(listenFd: int, rs: seq<Round>, env: Env)
    requires GoodRun(listenFd, rs, env)
    ensures var st := Final(listenFd, rs, env);
      && (forall i, j :: 0 <= i < j < |st.peers| ==> st.peers[i].serial < st.peers[j].serial && st.peers[i].fd != st.peers[j].fd)
      && st.listenFd == listenFd && listenFd !in Fds(st.peers) && st.fds == {listenFd} + Fds(st.peers)
      && (forall fd :: fd in st.fds ==> fd <= st.maxFd)
      && st.connected == |st.peers| + st.dropped
      && (st.connected == |st.peers| <==> st.dropped == 0)
  {
    FinalInv(listenFd, rs, env);
    ListenFdFixed(Initial(listenFd), rs, env);
  }

  lemma {:induction false} ServeAllListenFd(st: State, todo: seq<nat>, r: Round, env: Env)
    ensures ServeAll(st, todo, r, env).listenFd == st.listenFd
    decreases |todo|
  {
    if todo != [] {
      ServeConstants(st, todo[0], r, env);
      ServeAllListenFd(Serve(st, todo[0], r, env), todo[1..], r, env);
    }
  }

  lemma {:induction false} ListenFdFixed(st: State, rs: seq<Round>, env: Env)
    ensures Run(st, rs, env).listenFd == st.listenFd
    decreases |rs|
  {
    if rs != [] {
      var a := Admit(st, rs[0]);
      ServeAllListenFd(a, Serials(a.peers), rs[0], env);
      ListenFdFixed(RunRound(st, rs[0], env), rs[1..], env);
    }
  }

  lemma {:induction false} ServeAllMaxFd(st: State, todo: seq<nat>, r: Round, env: Env)
    ensures ServeAll(st, todo, r, env).maxFd == st.maxFd
    decreases |todo|
  {
    if todo != [] {
      ServeConstants(st, todo[0], r, env);
      ServeAllMaxFd(Serve(st, todo[0], r, env), todo[1..], r, env);
    }
  }

  predicate Accepts(rs: seq<Round>, i: int, fd: int) { 0 <= i < |rs| && rs[i].accept != [] && rs[i].accept[0] == fd }

  lemma RoundMaxFd(st: State, r: Round, env: Env)
    ensures RunRound(st, r, env).maxFd == if r.accept != [] && r.accept[0] > st.maxFd then r.accept[0] else st.maxFd
  {
    hide ServeAll;
    var a := Admit(st, r);
    ServeAllMaxFd(a, Serials(a.peers), r, env);
  }

  /** `m` is the greatest of `start` and the descriptors accepted in `rs`. */
  ghost predicate Greatest(m: int, start: int, rs: seq<Round>) {
    m >= start && (forall i, fd :: Accepts(rs, i, fd) ==> fd <= m) && (m == start || exists i :: Accepts(rs, i, m))
  }

  lemma GreatestCons(m: int, start: int, next: int, rs: seq<Round>)
    requires rs != [] && Greatest(m, next, rs[1..])
    requires next == if rs[0].accept != [] && rs[0].accept[0] > start then rs[0].accept[0] else start
    ensures Greatest(m, start, rs)
  {
    var rest := rs[1..];
    forall i, fd | Accepts(rs, i, fd)
      ensures fd <= m
    {
      assert i > 0 ==> Accepts(rest, i - 1, fd);
    }
    if m != next {
      var i :| Accepts(rest, i, m);
      assert Accepts(rs, i + 1, m);
    } else if m != start {
      assert Accepts(rs, 0, m);
    }
  }

  lemma {:induction false} MaxFdFrom(st: State, rs: seq<Round>, env: Env)
    ensures Greatest(Run(st, rs, env).maxFd, st.maxFd, rs)
    decreases |rs|
  {
    if rs != [] {
      hide RunRound, Greatest;
      var st' := RunRound(st, rs[0], env);
      RoundMaxFd(st, rs[0], env);
      MaxFdFrom(st', rs[1..], env);
      GreatestCons(Run(st, rs, env).maxFd, st.maxFd, st'.maxFd, rs);
    }
  }

  /** The bound given to select() is the greatest descriptor the server ever had: it never shrinks. */
  lemma MaxFdIs(listenFd: int, rs: seq<Round>, env: Env)
    ensures Greatest(Final(listenFd, rs, env).maxFd, listenFd, rs)
  {
    MaxFdFrom(Initial(listenFd), rs, env);
  }

  // ---------------------------------------------------------------- total order

  function LogTexts(log: seq<Entry>): seq<string> { seq(|log|, i requires 0 <= i < |log| => log[i].text) }

  /** How far into the log a client can have heard: a write that broke its connection completed nothing. */
  function HeardUpTo(attempts: seq<Write>, left: nat): int {
    if attempts != [] && attempts[|attempts| - 1].outcome == Broken then left - 1 else left
  }

  /** The relays that did not break the connection carry the log up to there. */
  lemma SurvivedSegment(a: seq<Write>, log: seq<Entry>, joined: nat, left: nat)
    requires joined <= left <= |log| && Mirrors(a, log[joined..left])
    ensures joined <= HeardUpTo(a, left)
    ensures WriteTexts(Survived(a)) == LogTexts(log[joined..HeardUpTo(a, left)])
  {
    var slice := log[joined..left];
    assert |slice| == left - joined == |a|;
    assert log[joined..HeardUpTo(a, left)] == slice[..HeardUpTo(a, left) - joined];
  }

  lemma ClientHistory(st: State, p: Peer, left: nat)
    requires Inv(st) && Client(st, p, left)
    ensures SentOk(p, left, st.log, st.accepted) && SpokeOk(p, st.log, st.named, [], [])
    ensures BrokenAtMostLast(Attempts(p.writes))
  {
    if !(p in st.peers && left == |st.log|) {
      assert GoneOk(Gone(p, left), st.log, st.named, st.accepted);
    }
  }

  lemma CountIsClean(count: nat)
    ensures CleanText(Decimal(count) + "\n")
  {
    DecimalDigits(count);
    var t, d := Decimal(count) + "\n", Decimal(count);
    assert t[0] == d[0] && d[0] in d;
    forall i | 0 <= i < |t|
      ensures t[i] != '\r'
    {
      if i < |t| - 1 {
        assert t[i] == d[i] && d[i] in d;
      }
    }
  }

  lemma WritesFramed(p: Peer, left: nat, log: seq<Entry>, accepted: nat)
    requires SentOk(p, left, log, accepted)
    ensures AllFramed(p.writes)
  {
    forall w | w in p.writes
      ensures Framed(w)
    {
      assert WriteOk(w, accepted);
      if w.Counted? {
        CountIsClean(w.count);
      }
    }
  }

  /** Every client was sent one contiguous segment of the one log, from its accept to its removal. What it decodes
      from the bytes that reached it are the arrivals; those that end a relay are exactly that segment if and only if
      no relay failed without ending the connection and none came behind a write that failed halfway. */
  lemma TotalOrderBroadcast(listenFd: int, rs: seq<Round>, env: Env, p: Peer, left: nat)
    requires GoodRun(listenFd, rs, env)
    requires Client(Final(listenFd, rs, env), p, left)
    ensures var log, ws := Final(listenFd, rs, env).log, p.writes;
      && p.joined <= left <= |log| && Mirrors(Attempts(ws), log[p.joined..left])
      && Messages(Sent(ws)) == Texts(Arrivals(ws)) && Heard(ws) == RelaysOf(Arrivals(ws))
      && p.joined <= HeardUpTo(Attempts(ws), left)
      && (Heard(ws) == LogTexts(log[p.joined..HeardUpTo(Attempts(ws), left)]) <==>
            NoneLost(Attempts(ws)) && Intact(ws))
  {
    hide WriteOk, AllFramed, Attempts, WriteTexts, LogTexts, Arrivals, Messages, Sent, Intact, NoneLost, BrokenAtMostLast;
    var st := Final(listenFd, rs, env);
    FinalInv(listenFd, rs, env);
    ClientHistory(st, p, left);
    WritesFramed(p, left, st.log, st.accepted);
    WireDecodes(p.writes);
    HeardSurvived(p.writes);
    SurvivedSegment(Attempts(p.writes), st.log, p.joined, left);
  }

  lemma SharedSegment(log: seq<Entry>, joined: nat, end: nat, from: nat, to: nat)
    requires joined <= from <= to <= end <= |log|
    ensures LogTexts(log[joined..end])[from - joined..to - joined] == LogTexts(log[from..to])
  {
  }

  lemma HeardRange(listenFd: int, rs: seq<Round>, env: Env, p: Peer, left: nat, from: nat, to: nat)
    requires GoodRun(listenFd, rs, env)
    requires Client(Final(listenFd, rs, env), p, left) && NoneLost(Attempts(p.writes)) && Intact(p.writes)
    requires p.joined <= from <= to <= HeardUpTo(Attempts(p.writes), left)
    ensures var log, heard := Final(listenFd, rs, env).log, Heard(p.writes);
      to <= |log| && to - p.joined <= |heard| && heard[from - p.joined..to - p.joined] == LogTexts(log[from..to])
  {
    hide Attempts, NoneLost, Intact, BrokenAtMostLast, Final, GoodRun, Client, Messages, Sent, Mirrors, Heard;
    TotalOrderBroadcast(listenFd, rs, env, p, left);
    var log, end := Final(listenFd, rs, env).log, HeardUpTo(Attempts(p.writes), left);
    SharedSegment(log, p.joined, end, from, to);
    assert |LogTexts(log[p.joined..end])| == end - p.joined;
  }

  /** Two clients whose relays arrived whole decoded the part of the log they share in the same order. */
  lemma ClientsAgree(listenFd: int, rs: seq<Round>, env: Env, p: Peer, pLeft: nat, q: Peer, qLeft: nat, from: nat, to: nat)
    requires GoodRun(listenFd, rs, env)
    requires Client(Final(listenFd, rs, env), p, pLeft) && NoneLost(Attempts(p.writes)) && Intact(p.writes)
    requires Client(Final(listenFd, rs, env), q, qLeft) && NoneLost(Attempts(q.writes)) && Intact(q.writes)
    requires p.joined <= from <= to <= HeardUpTo(Attempts(p.writes), pLeft)
    requires q.joined <= from <= to <= HeardUpTo(Attempts(q.writes), qLeft)
    ensures var hp, hq := Heard(p.writes), Heard(q.writes);
      to - p.joined <= |hp| && to - q.joined <= |hq| &&
      hp[from - p.joined..to - p.joined] == hq[from - q.joined..to - q.joined]
  {
    HeardRange(listenFd, rs, env, p, pLeft, from, to);
    HeardRange(listenFd, rs, env, q, qLeft, from, to);
  }

  /** Nothing a client says is lost, repeated, reordered or invented: its entries in the log are its complete
      messages in the order it sent them, and what it has not finished is still in its buffer. */
  lemma SenderFifo(listenFd: int, rs: seq<Round>, env: Env, p: Peer, left: nat)
    requires GoodRun(listenFd, rs, env)
    requires Client(Final(listenFd, rs, env), p, left)
    ensures Spoken(Final(listenFd, rs, env).log, p.serial) == Relayable(p.id, Messages(p.rcvd))
    ensures p.pending == Tail(p.rcvd)
  {
    FinalInv(listenFd, rs, env);
    ClientHistory(Final(listenFd, rs, env), p, left);
    assert Relayable(p.id, []) == [];
    assert Encode([]) + Tail(p.rcvd) == Tail(p.rcvd);
  }

  // ---------------------------------------------------------------- names

  lemma ClientNameFits(id: nat)
    requires id <= INT_MAX
    ensures ClientName(id) == "client" + Decimal(id) && |Decimal(id)| <= 10
  {
    DecimalFits(id);
  }

  /** A client has a name if and only if a complete message of it has arrived. */
  lemma NamedIff(listenFd: int, rs: seq<Round>, env: Env, p: Peer, left: nat)
    requires GoodRun(listenFd, rs, env)
    requires Client(Final(listenFd, rs, env), p, left)
    ensures p.id != 0 <==> Messages(p.rcvd) != []
  {
    FinalInv(listenFd, rs, env);
    ClientHistory(Final(listenFd, rs, env), p, left);
  }

  /** Two clients never have the same name. */
  lemma NamesUnique(listenFd: int, rs: seq<Round>, env: Env, p: Peer, pLeft: nat, q: Peer, qLeft: nat)
    requires GoodRun(listenFd, rs, env) && |Final(listenFd, rs, env).named| <= INT_MAX
    requires var st := Final(listenFd, rs, env); Client(st, p, pLeft) && Client(st, q, qLeft)
    requires p.id != 0 && q.id != 0 && ClientName(p.id) == ClientName(q.id)
    ensures p.serial == q.serial
  {
    FinalInv(listenFd, rs, env);
    ClientNameFits(p.id);
    ClientNameFits(q.id);
    assert ClientName(p.id)[6..] == Decimal(p.id) && ClientName(q.id)[6..] == Decimal(q.id);
    DecimalInjective(p.id, q.id);
  }

  // ---------------------------------------------------------------- frame sizes

  lemma WritesFit(p: Peer, left: nat, log: seq<Entry>, accepted: nat)
    requires SentOk(p, left, log, accepted) && accepted <= INT_MAX
    ensures forall w :: w in p.writes ==> CrlfFree(WriteText(w)) && |WriteText(w)| + |CRLF| <= USABLE
  {
    forall w | w in p.writes
      ensures CrlfFree(WriteText(w)) && |WriteText(w)| + |CRLF| <= USABLE
    {
      assert WriteOk(w, accepted);
      if w.Counted? {
        CountIsClean(w.count);
        DecimalFits(w.count);
      }
    }
  }

  /** Every text the server frames is CRLF-free and fits a receive buffer. The receiver decodes exactly the texts of
      the completed writes if and only if no write that failed halfway is followed by a completed one; its buffer then
      fills only with the remains of failed writes, and in any case exactly when ArrivalsFit fails. */
  lemma FrameSizeClosure(listenFd: int, rs: seq<Round>, env: Env, p: Peer, left: nat)
    requires GoodRun(listenFd, rs, env) && Final(listenFd, rs, env).accepted <= INT_MAX
    requires Client(Final(listenFd, rs, env), p, left)
    ensures forall w :: w in p.writes ==> CrlfFree(WriteText(w)) && |WriteText(w)| + 2 <= 1128
    ensures Messages(Sent(p.writes)) == CompletedTexts(p.writes) <==> Clean(p.writes)
    ensures Clean(p.writes) ==> (Fits(Sent(p.writes)) <==> |Rest(p.writes)| <= USABLE)
    ensures Fits(Sent(p.writes)) <==> ArrivalsFit(p.writes)
    ensures AllComplete(p.writes) ==> Messages(Sent(p.writes)) == WriteTexts(p.writes) && Fits(Sent(p.writes))
  {
    hide Clean, Fits, AllFramed, CrlfFree, Sent, CompletedTexts, Rest, Messages, ArrivalsFit;
    var st := Final(listenFd, rs, env);
    FinalInv(listenFd, rs, env);
    ClientHistory(st, p, left);
    WritesFit(p, left, st.log, st.accepted);
    WritesFramed(p, left, st.log, st.accepted);
    DecodesIff(p.writes);
    FitsIff(p.writes);
    if Clean(p.writes) {
      FramedFits(p.writes);
    }
    if AllComplete(p.writes) {
      AllCompleteIs(p.writes);
    }
  }

  // ---------------------------------------------------------------- the excluded case

  lemma CutHead(ps: seq<Peer>, text: string, env: Env, clock: nat, bound: nat)
    requires Ascending(ps, bound) && ps != []
    ensures forall q :: q in Cut(ps[1..], text, env, clock + 1) ==> q.serial > ps[0].serial
  {
    FanoutMembers(ps[1..], text, env, clock + 1);
    forall q | From(q, ps[1..], text)
      ensures q.serial > ps[0].serial
    {
    }
  }

  lemma {:induction false} CutBySender(ps: seq<Peer>, i: nat, text: string, env: Env, clock: nat, bound: nat)
    requires Ascending(ps, bound) && i < |ps|
    ensures (exists p :: p in Cut(ps, text, env, clock) && p.serial == ps[i].serial)
      <==> WriteOutcome(text, env(clock + i)) == Broken
    decreases |ps|
  {
    var a := Attempt(ps[0], text, env(clock));
    var rest := Cut(ps[1..], text, env, clock + 1);
    if i == 0 {
      CutHead(ps, text, env, clock, bound);
      assert a in [a] + rest;
    } else {
      CutBySender(ps[1..], i - 1, text, env, clock + 1, bound);
      assert forall q :: q in [a] + rest <==> q == a || q in rest;
    }
  }

  /** A sender's node is freed during its own relay exactly when the write to its own socket breaks. */
  lemma FreedIff(st: State, s: nat, msg: string, env: Env)
    requires Inv(st) && IndexOf(st.peers, s) < |st.peers|
    ensures var i := IndexOf(st.peers, s);
      Relay(st, s, msg, env).freed <==> WriteOutcome(RelayText(st.peers[i].id, msg), env(st.clock + i)) == Broken
  {
    hide LivesOk, GonesOk, EntryOk, DescriptorsOk, Cut;
    var i := IndexOf(st.peers, s);
    CutBySender(st.peers, i, RelayText(st.peers[i].id, msg), env, st.clock, st.accepted);
  }

  // ---------------------------------------------------------------- what one message does

  /** Where the client at `j` is after the fan-out. */
  lemma {:induction false} FanoutAt(ps: seq<Peer>, j: nat, text: string, env: Env, clock: nat)
    requires j < |ps|
    ensures var a := Attempt(ps[j], text, env(clock + j));
      a in (if WriteOutcome(text, env(clock + j)) == Broken then Cut(ps, text, env, clock) else Kept(ps, text, env, clock))
    decreases |ps|
  {
    hide WriteOutcome, Attempt;
    if j > 0 {
      FanoutAt(ps[1..], j - 1, text, env, clock + 1);
    }
  }

  lemma AllGoneHas(cut: seq<Peer>, left: nat, p: Peer)
    requires p in cut
    ensures Gone(p, left) in AllGone(cut, left)
  {
    var k :| 0 <= k < |cut| && cut[k] == p;
    assert AllGone(cut, left)[k] == Gone(p, left);
  }

  /** A relay is written once to every listed client, the sender included. A client is removed if and only if the write
      to it broke its connection; the counter stays as it is. */
  lemma RelayReaches(st: State, s: nat, msg: string, env: Env, j: nat)
    requires Inv(st) && IndexOf(st.peers, s) < |st.peers| && j < |st.peers|
    ensures var st', text, e := Relay(st, s, msg, env), RelayText(st.peers[IndexOf(st.peers, s)].id, msg), env(st.clock + j);
      var p := st.peers[j];
      var q := p.(writes := p.writes + [Relayed(text, WriteOutcome(text, e), Leaves(text, e))]);
      && st'.connected == st.connected
      && (if WriteOutcome(text, e) == Broken
          then Gone(q, |st.log| + 1) in st'.gone && !(exists o :: o in st'.peers && o.serial == p.serial)
          else q in st'.peers)
  {
    hide WriteOutcome, Kept, Cut, AllGone, RelayText, EntryOk, LivesOk, GonesOk, DescriptorsOk;
    var text := RelayText(st.peers[IndexOf(st.peers, s)].id, msg);
    var kept, cut := Kept(st.peers, text, env, st.clock), Cut(st.peers, text, env, st.clock);
    var a := Attempt(st.peers[j], text, env(st.clock + j));
    FanoutAt(st.peers, j, text, env, st.clock);
    if WriteOutcome(text, env(st.clock + j)) == Broken {
      AllGoneHas(cut, |st.log| + 1, a);
      forall o | o in kept
        ensures o.serial != a.serial
      {
        FanoutDisjoint(st.peers, text, env, st.clock, st.accepted, o, a);
      }
    }
  }

  /** A message is a request, and then one client is answered and nothing is relayed, or it becomes the next entry of
      the log. */
  lemma MessageHandled(st: State, s: nat, msg: string, env: Env)
    requires Inv(st) && IndexOf(st.peers, s) < |st.peers|
    ensures var i, st' := IndexOf(st.peers, s), Handle(st, s, msg, env);
      if IsRequest(msg) then
        st'.log == st.log && |st'.peers| == |st.peers| && st'.peers == st.peers[i := st'.peers[i]] &&
        |st'.peers[i].writes| == |st.peers[i].writes| + 1 && st'.peers[i].writes[|st.peers[i].writes|].Counted?
      else
        |st'.log| == |st.log| + 1 && st'.log[..|st.log|] == st.log &&
        st'.log[|st.log|].sender == s && st'.log[|st.log|].text == RelayText(st.peers[i].id, msg)
  {
    hide RelayText, EntryOk, LivesOk, GonesOk, DescriptorsOk, Kept, Cut, WriteOutcome, Leaves;
    AsksCountIff(msg);
  }

  /** A client that asks `\connected` is told how many clients are listed and how many a fan-out removed. */
  lemma CountAnswered(st: State, s: nat, env: Env)
    requires Inv(st) && IndexOf(st.peers, s) < |st.peers|
    ensures var i, st' := IndexOf(st.peers, s), AnswerCount(st, s, env);
      && |st'.peers| == |st.peers| && st'.peers == st.peers[i := st'.peers[i]] && st'.log == st.log && st'.gone == st.gone
      && |st'.peers[i].writes| == |st.peers[i].writes| + 1
      && WriteText(st'.peers[i].writes[|st.peers[i].writes|]) == Decimal(|st.peers| + st.dropped) + "\n"
  {
    hide LivesOk, GonesOk, EntryOk, DescriptorsOk, Decimal, Leaves, WriteOutcome;
  }
}
