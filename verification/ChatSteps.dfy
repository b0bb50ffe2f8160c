/** Every step of the chat server keeps the invariant. */
module ChatSteps {
  import opened Text
  import opened Framing
  import opened Socket
  import opened Chat
  import opened ChatInvariant

  // ---------------------------------------------------------------- relaying one message

  lemma SentAfterRelay(p: Peer, q: Peer, log: seq<Entry>, e: Entry, accepted: nat)
    requires SentOk(p, |log|, log, accepted)
    requires Attempted(p, q, e.text) && TextOk(e.text)
    ensures SentOk(q, |log| + 1, log + [e], accepted)
  {
    var w := q.writes[|p.writes|];
    assert q.writes == p.writes + [w];
    AttemptsAppend(p.writes, w);
    assert (log + [e])[p.joined..|log| + 1] == log[p.joined..|log|] + [e];
  }

  lemma SentAfterOthers(p: Peer, left: nat, log: seq<Entry>, e: Entry, accepted: nat)
    requires SentOk(p, left, log, accepted)
    ensures SentOk(p, left, log + [e], accepted)
  {
    assert (log + [e])[p.joined..left] == log[p.joined..left];
  }

  lemma SpokeAfterRelay(p: Peer, q: Peer, log: seq<Entry>, named: seq<nat>, e: Entry,
                        buffered: seq<string>, owed: seq<string>, owed': seq<string>)
    requires SpokeOk(p, log, named, buffered, owed)
    requires q == p.(writes := q.writes)
    requires Relayable(p.id, owed) == (if e.sender == p.serial then [e.text] else []) + Relayable(p.id, owed')
    ensures SpokeOk(q, log + [e], named, buffered, owed')
  {
    SpokenAppend(log, e, p.serial);
    var x := if e.sender == p.serial then [e.text] else [];
    Associative(Spoken(log, p.serial), x, Relayable(p.id, owed'));
  }

  lemma OutcomesAfterRelay(p: Peer, q: Peer, text: string)
    requires Attempted(p, q, text) && NeverBroken(Attempts(p.writes))
    ensures BrokenAtMostLast(Attempts(q.writes))
    ensures q.writes[|q.writes| - 1].outcome != Broken ==> NeverBroken(Attempts(q.writes))
  {
    var w := q.writes[|p.writes|];
    assert q.writes == p.writes + [w];
    AttemptsAppend(p.writes, w);
    assert Attempts(q.writes)[..|Attempts(p.writes)|] == Attempts(p.writes);
  }

  /** A client touched by the fan-out of `e`. */
  lemma TouchedByRelay(st: State, q: Peer, s: nat, msg: string, rest: seq<string>, e: Entry)
    requires LivesOk(st, s, rest, [msg] + rest) && !AsksCount(msg) && e.sender == s
    requires From(q, st.peers, e.text) && TextOk(e.text)
    requires forall p :: p in st.peers && p.serial == s ==> e.text == RelayText(p.id, msg)
    ensures q.writes != [] && q.writes[|q.writes| - 1].outcome != Broken ==>
      var buffered := if q.serial == s then rest else [];
      LiveOk(q, st.log + [e], st.named, st.accepted, buffered, buffered)
    ensures q.serial != s ==> GoneOk(Gone(q, |st.log| + 1), st.log + [e], st.named, st.accepted)
  {
    hide Spoken, Mirrors, Attempts, WriteOk, TextOk, Encode, Tail, Messages, RelayText;
    var p :| p in st.peers && Attempted(p, q, e.text);
    SentAfterRelay(p, q, st.log, e, st.accepted);
    OutcomesAfterRelay(p, q, e.text);
    AsksCountIff(msg);
    if p.serial == s {
      assert ([msg] + rest)[1..] == rest;
      assert Relayable(p.id, [msg] + rest) == [e.text] + Relayable(p.id, rest);
      SpokeAfterRelay(p, q, st.log, st.named, e, rest, [msg] + rest, rest);
    } else {
      SpokeAfterRelay(p, q, st.log, st.named, e, [], [], []);
    }
  }

  lemma SenderText(st: State, s: nat, msg: string)
    requires RegistryOk(st) && IndexOf(st.peers, s) < |st.peers|
    ensures forall p :: p in st.peers && p.serial == s ==> p == st.peers[IndexOf(st.peers, s)]
  {
    forall p | p in st.peers && p.serial == s
      ensures p == st.peers[IndexOf(st.peers, s)]
    {
      var k :| 0 <= k < |st.peers| && st.peers[k] == p;
      IndexFound(st.peers, k, st.accepted);
    }
  }

  lemma RelayKeepsLives(st: State, s: nat, msg: string, rest: seq<string>, env: Env)
    requires RegistryOk(st) && LivesOk(st, s, rest, [msg] + rest) && !AsksCount(msg) && CrlfFree(msg)
    requires IndexOf(st.peers, s) < |st.peers|
    ensures LivesOk(Relay(st, s, msg, env), s, rest, rest)
  {
    hide LiveOk, GoneOk, RelayText, TextOk, CrlfFree, AsksCount, Cut, Kept, EntryOk;
    var i := IndexOf(st.peers, s);
    var text := RelayText(st.peers[i].id, msg);
    RelayTextIsFrame(st.peers[i].id, msg);
    FanoutMembers(st.peers, text, env, st.clock);
    SenderText(st, s, msg);
    forall q | q in Kept(st.peers, text, env, st.clock)
      ensures var buffered := if q.serial == s then rest else [];
        LiveOk(q, st.log + [Logged(st, i, msg, env)], st.named, st.accepted, buffered, buffered)
    {
      TouchedByRelay(st, q, s, msg, rest, Logged(st, i, msg, env));
    }
  }

  lemma RelayKeepsGones(st: State, s: nat, msg: string, rest: seq<string>, env: Env)
    requires RegistryOk(st) && LivesOk(st, s, rest, [msg] + rest) && GonesOk(st) && !AsksCount(msg) && CrlfFree(msg)
    requires IndexOf(st.peers, s) < |st.peers|
    requires !Relay(st, s, msg, env).freed
    ensures GonesOk(Relay(st, s, msg, env))
  {
    hide Kept, Cut, SentOk, SpokeOk, EntryOk, NeverBroken, BrokenAtMostLast, RelayText;
    var i := IndexOf(st.peers, s);
    var text := RelayText(st.peers[i].id, msg);
    var e := Logged(st, i, msg, env);
    var cut := Cut(st.peers, text, env, st.clock);
    RelayTextIsFrame(st.peers[i].id, msg);
    FanoutMembers(st.peers, text, env, st.clock);
    SenderText(st, s, msg);
    assert st.peers[i] in st.peers;
    forall g | g in st.gone
      ensures GoneOk(g, st.log + [e], st.named, st.accepted)
    {
      SentAfterOthers(g.peer, g.left, st.log, e, st.accepted);
      SpokeAfterRelay(g.peer, g.peer, st.log, st.named, e, [], [], []);
    }
    forall q | q in cut
      ensures GoneOk(Gone(q, |st.log| + 1), st.log + [e], st.named, st.accepted)
    {
      TouchedByRelay(st, q, s, msg, rest, e);
    }
    assert forall g :: g in AllGone(cut, |st.log| + 1) ==> g.peer in cut && g.left == |st.log| + 1;
  }

  /** Who has a message to relay has a name. */
  lemma SenderNamed(st: State, s: nat, msg: string, rest: seq<string>, env: Env)
    requires LivesOk(st, s, rest, [msg] + rest) && !AsksCount(msg) && IndexOf(st.peers, s) < |st.peers|
    ensures EntryOk(Logged(st, IndexOf(st.peers, s), msg, env), st.named)
  {
    var p := st.peers[IndexOf(st.peers, s)];
    assert p in st.peers;
    AsksCountIff(msg);
    assert ([msg] + rest)[1..] == rest;
    assert Relayable(p.id, [msg] + rest) == [RelayText(p.id, msg)] + Relayable(p.id, rest);
    assert p.id != 0;
  }

  lemma RelayKeepsDescriptors(st: State, s: nat, msg: string, env: Env)
    requires DescriptorsOk(st) && CountsOk(st) && IndexOf(st.peers, s) < |st.peers|
    ensures DescriptorsOk(Relay(st, s, msg, env)) && CountsOk(Relay(st, s, msg, env))
  {
    var text := RelayText(st.peers[IndexOf(st.peers, s)].id, msg);
    FanoutMembers(st.peers, text, env, st.clock);
    FanoutFds(st.peers, text, env, st.clock);
    forall p | p in Cut(st.peers, text, env, st.clock)
      ensures p.fd in Fds(st.peers)
    {
      assert From(p, st.peers, text);
    }
  }

  lemma RelayKeepsSender(st: State, s: nat, msg: string, env: Env)
    requires IndexOf(st.peers, s) < |st.peers| && !Relay(st, s, msg, env).freed
    ensures IndexOf(Relay(st, s, msg, env).peers, s) < |Relay(st, s, msg, env).peers|
  {
    var i := IndexOf(st.peers, s);
    var text := RelayText(st.peers[i].id, msg);
    SenderStays(st.peers, text, env, st.clock, i);
    IndexMissing(Kept(st.peers, text, env, st.clock), s);
  }

  lemma RelayKeeps(st: State, s: nat, msg: string, rest: seq<string>, env: Env)
    requires Serving(st, s, rest, [msg] + rest) && !AsksCount(msg) && CrlfFree(msg)
    requires IndexOf(st.peers, s) < |st.peers|
    requires !Relay(st, s, msg, env).freed
    ensures Serving(Relay(st, s, msg, env), s, rest, rest)
    ensures IndexOf(Relay(st, s, msg, env).peers, s) < |Relay(st, s, msg, env).peers|
  {
    RelayKeepsLives(st, s, msg, rest, env);
    RelayKeepsGones(st, s, msg, rest, env);
    SenderNamed(st, s, msg, rest, env);
    RelayKeepsRegistry(st, s, msg, env);
    RelayKeepsDescriptors(st, s, msg, env);
    RelayKeepsSender(st, s, msg, env);
  }

  lemma {:induction false} SenderStays(ps: seq<Peer>, text: string, env: Env, clock: nat, i: nat)
    requires i < |ps| && forall q :: q in Cut(ps, text, env, clock) ==> q.serial != ps[i].serial
    ensures exists q :: q in Kept(ps, text, env, clock) && q.serial == ps[i].serial
    decreases |ps|
  {
    var a := Attempt(ps[0], text, env(clock));
    var kept, cut := Kept(ps[1..], text, env, clock + 1), Cut(ps[1..], text, env, clock + 1);
    if i == 0 {
      assert a in Kept(ps, text, env, clock) || a in Cut(ps, text, env, clock);
    } else {
      assert forall q :: q in cut ==> q in Cut(ps, text, env, clock);
      SenderStays(ps[1..], text, env, clock + 1, i - 1);
      var q :| q in kept && q.serial == ps[i].serial;
      assert q in Kept(ps, text, env, clock);
    }
  }

  lemma RelayKeepsRegistry(st: State, s: nat, msg: string, env: Env)
    requires RegistryOk(st) && IndexOf(st.peers, s) < |st.peers|
    requires EntryOk(Logged(st, IndexOf(st.peers, s), msg, env), st.named)
    ensures RegistryOk(Relay(st, s, msg, env))
  {
    var i := IndexOf(st.peers, s);
    var text := RelayText(st.peers[i].id, msg);
    var st' := Relay(st, s, msg, env);
    var cut := Cut(st.peers, text, env, st.clock);
    FanoutMembers(st.peers, text, env, st.clock);
    FanoutAscending(st.peers, text, env, st.clock, st.accepted);
    forall q | From(q, st.peers, text)
      ensures q.serial < st.accepted && forall g :: g in st.gone ==> g.peer.serial != q.serial
    {
    }
    forall p, q | p in st'.peers && q in cut
      ensures p.serial != q.serial
    {
      FanoutDisjoint(st.peers, text, env, st.clock, st.accepted, p, q);
    }
    assert st.peers[i].serial < st.accepted;
    assert forall g :: g in AllGone(cut, |st.log| + 1) ==> g.peer in cut;
  }

  // ---------------------------------------------------------------- the steps that touch one client

  /** Replacing the client at `i` by one with the same serial and descriptor. */
  lemma ReplaceKeeps(ps: seq<Peer>, i: nat, p: Peer, bound: nat)
    requires i < |ps| && p.serial == ps[i].serial && p.fd == ps[i].fd && Ascending(ps, bound)
    ensures Ascending(ps[i := p], bound)
    ensures DistinctFds(ps) ==> DistinctFds(ps[i := p])
    ensures IndexOf(ps[i := p], p.serial) == i
  {
    var qs := ps[i := p];
    assert forall k :: 0 <= k < |ps| ==> qs[k].fd == ps[k].fd && qs[k].serial == ps[k].serial;
    IndexFound(qs, i, bound);
  }

  lemma ReplaceFds(ps: seq<Peer>, i: nat, p: Peer)
    requires i < |ps| && p.fd == ps[i].fd
    ensures Fds(ps[i := p]) == Fds(ps)
  {
    var qs := ps[i := p];
    forall q | q in ps
      ensures q.fd in Fds(qs)
    {
      var k :| 0 <= k < |ps| && q == ps[k];
      assert qs[k] in qs && qs[k].fd == q.fd;
    }
    assert ps[i] in ps;
  }

  /** Naming one more client does not disturb the others. */
  lemma MoreNamed(p: Peer, log: seq<Entry>, named: seq<nat>, named': seq<nat>, buffered: seq<string>, owed: seq<string>)
    requires SpokeOk(p, log, named, buffered, owed) && named <= named'
    ensures SpokeOk(p, log, named', buffered, owed)
  {
  }

  lemma OthersLive(st: State, i: nat, p: Peer, named: seq<nat>,
                   buffered: seq<string>, owed: seq<string>, buffered': seq<string>, owed': seq<string>)
    requires i < |st.peers| && Ascending(st.peers, st.accepted) && LivesOk(st, st.peers[i].serial, buffered, owed)
    requires p.serial == st.peers[i].serial && st.named <= named
    requires LiveOk(p, st.log, named, st.accepted, buffered', owed')
    ensures LivesOk(st.(peers := st.peers[i := p], named := named), p.serial, buffered', owed')
  {
    hide SentOk, SpokeOk, NeverBroken;
    forall q | q in st.peers[i := p] && q != p
      ensures q.serial != p.serial && LiveOk(q, st.log, named, st.accepted, [], [])
    {
      var k :| 0 <= k < |st.peers| && k != i && st.peers[k] == q;
      MoreNamed(q, st.log, st.named, named, [], []);
    }
  }

  /** A step that changes only the client being served. */
  lemma OneChanged(st: State, i: nat, p: Peer, named: seq<nat>, turns: seq<nat>, clock: nat,
                   buffered: seq<string>, owed: seq<string>, buffered': seq<string>, owed': seq<string>)
    requires i < |st.peers| && Serving(st, st.peers[i].serial, buffered, owed)
    requires p.serial == st.peers[i].serial && p.fd == st.peers[i].fd && st.named <= named
    requires LiveOk(p, st.log, named, st.accepted, buffered', owed')
    ensures var st' := st.(peers := st.peers[i := p], named := named, turns := turns, clock := clock);
      Serving(st', p.serial, buffered', owed') && IndexOf(st'.peers, p.serial) == i
  {
    ReplaceKeeps(st.peers, i, p, st.accepted);
    ReplaceFds(st.peers, i, p);
    OthersLive(st, i, p, named, buffered, owed, buffered', owed');
    assert st.peers[i] in st.peers;
    forall g | g in st.gone
      ensures GoneOk(g, st.log, named, st.accepted)
    {
      MoreNamed(g.peer, st.log, st.named, named, [], []);
    }
    forall e | e in st.log
      ensures EntryOk(e, named)
    {
      assert EntryOk(e, st.named);
    }
  }

  lemma PoppedBuffer(msg: string, rest: seq<string>, tail: string)
    ensures var pending := Encode([msg] + rest) + tail;
      |pending| >= |msg| + 2 && pending[|msg| + 2..] == Encode(rest) + tail
  {
    assert ([msg] + rest)[1..] == rest;
    assert Encode([msg] + rest) + tail == msg + CRLF + (Encode(rest) + tail);
  }

  lemma PoppedLive(p: Peer, log: seq<Entry>, named: seq<nat>, accepted: nat, msg: string, rest: seq<string>, owed: seq<string>)
    requires LiveOk(p, log, named, accepted, [msg] + rest, owed)
    ensures |p.pending| >= |msg| + 2
    ensures LiveOk(p.(pending := p.pending[|msg| + 2..]), log, named, accepted, rest, owed)
  {
    hide Messages, Relayable, Spoken, Attempts, Encode, Tail, Mirrors, WriteOk;
    PoppedBuffer(msg, rest, Tail(p.rcvd));
  }

  lemma PopKeeps(st: State, s: nat, msg: string, rest: seq<string>, owed: seq<string>)
    requires Serving(st, s, [msg] + rest, owed) && IndexOf(st.peers, s) < |st.peers|
    ensures Serving(Pop(st, s, msg), s, rest, owed)
    ensures IndexOf(Pop(st, s, msg).peers, s) < |Pop(st, s, msg).peers|
  {
    hide LiveOk, GonesOk, RegistryOk, DescriptorsOk, CountsOk;
    var i := IndexOf(st.peers, s);
    var p := st.peers[i];
    assert p in st.peers;
    PoppedLive(p, st.log, st.named, st.accepted, msg, rest, owed);
    OneChanged(st, i, p.(pending := p.pending[|msg| + 2..]), st.named, st.turns, st.clock, [msg] + rest, owed, rest, owed);
  }

  lemma CountedLive(p: Peer, log: seq<Entry>, named: seq<nat>, accepted: nat, msg: string, rest: seq<string>, w: Write)
    requires LiveOk(p, log, named, accepted, rest, [msg] + rest) && AsksCount(msg)
    requires w.Counted? && WriteOk(w, accepted)
    ensures LiveOk(p.(writes := p.writes + [w]), log, named, accepted, rest, rest)
  {
    hide IsRequest, AsksCount, WriteOk, RelayText, NeverBroken;
    hide Messages, Spoken, Attempts, Encode, Tail, Mirrors;
    AttemptsAppend(p.writes, w);
    assert Attempts(p.writes) + [] == Attempts(p.writes);
    AsksCountIff(msg);
    assert ([msg] + rest)[1..] == rest;
    assert Relayable(p.id, [msg] + rest) == Relayable(p.id, rest);
  }

  lemma AnswerCountKeeps(st: State, s: nat, msg: string, rest: seq<string>, env: Env)
    requires Serving(st, s, rest, [msg] + rest) && IndexOf(st.peers, s) < |st.peers| && AsksCount(msg)
    ensures Serving(AnswerCount(st, s, env), s, rest, rest)
    ensures IndexOf(AnswerCount(st, s, env).peers, s) < |AnswerCount(st, s, env).peers|
  {
    hide LiveOk, GonesOk, RegistryOk, DescriptorsOk, Decimal, Leaves, WriteOutcome, AsksCount;
    var i := IndexOf(st.peers, s);
    var p := st.peers[i];
    assert p in st.peers;
    var text, e := Decimal(st.connected) + "\n", env(st.clock);
    var w := Answered(st, env);
    LeavesCarried(text, st.connected, e);
    CountedLive(p, st.log, st.named, st.accepted, msg, rest, w);
    OneChanged(st, i, p.(writes := p.writes + [w]), st.named, st.turns, st.clock + 1, rest, [msg] + rest, rest, rest);
  }

  lemma HandleKeeps(st: State, s: nat, msg: string, rest: seq<string>, env: Env)
    requires Serving(st, s, [msg] + rest, [msg] + rest) && IndexOf(st.peers, s) < |st.peers| && CrlfFree(msg)
    requires !Handle(Pop(st, s, msg), s, msg, env).freed
    ensures Serving(Handle(Pop(st, s, msg), s, msg, env), s, rest, rest)
    ensures IndexOf(Handle(Pop(st, s, msg), s, msg, env).peers, s) < |Handle(Pop(st, s, msg), s, msg, env).peers|
  {
    PopKeeps(st, s, msg, rest, [msg] + rest);
    if AsksCount(msg) {
      AnswerCountKeeps(Pop(st, s, msg), s, msg, rest, env);
    } else {
      RelayKeeps(Pop(st, s, msg), s, msg, rest, env);
    }
  }

  lemma FreedStays(st: State, s: nat, msgs: seq<string>, env: Env)
    ensures st.freed ==> Drain(st, s, msgs, env) == st
  {
  }

  lemma {:induction false} DrainKeeps(st: State, s: nat, msgs: seq<string>, env: Env)
    requires Serving(st, s, msgs, msgs) && IndexOf(st.peers, s) < |st.peers|
    requires forall m :: m in msgs ==> CrlfFree(m)
    requires !st.freed && !Drain(st, s, msgs, env).freed
    ensures Serving(Drain(st, s, msgs, env), s, [], [])
    decreases |msgs|
  {
    hide Serving, Handle, Pop;
    if msgs != [] {
      var m, rest := msgs[0], msgs[1..];
      assert msgs == [m] + rest;
      FreedStays(Handle(Pop(st, s, m), s, m, env), s, rest, env);
      HandleKeeps(st, s, m, rest, env);
      DrainKeeps(Handle(Pop(st, s, m), s, m, env), s, rest, env);
    }
  }

  // ---------------------------------------------------------------- reading, closing, accepting

  lemma ReceivedKeeps(p: Peer, log: seq<Entry>, named: seq<nat>, bytes: string)
    requires SpokeOk(p, log, named, [], []) && |p.pending| + |bytes| <= USABLE
    ensures var q := p.(pending := p.pending + bytes, rcvd := p.rcvd + bytes);
      var ms := Messages(q.pending);
      && q.pending == Encode(ms) + Tail(q.rcvd)
      && Messages(q.rcvd) == Messages(p.rcvd) + ms
      && forall id :: id == p.id || p.id == 0 ==> Spoken(log, p.serial) + Relayable(id, ms) == Relayable(id, Messages(q.rcvd))
  {
    assert Encode([]) + Tail(p.rcvd) == Tail(p.rcvd);
    DecodeAppend(p.rcvd, bytes);
    EncodeDecode(p.pending + bytes);
    forall id | id == p.id || p.id == 0
      ensures Spoken(log, p.serial) + Relayable(id, Messages(p.pending + bytes)) == Relayable(id, Messages(p.rcvd + bytes))
    {
      RelayableAppend(id, Messages(p.rcvd), Messages(p.pending + bytes));
      assert Spoken(log, p.serial) + Relayable(p.id, []) == Spoken(log, p.serial);
    }
  }

  /** The client after a read, and after the naming that goes with its first complete message. */
  function Filled(p: Peer, bytes: string, id: nat): Peer {
    p.(pending := p.pending + bytes, rcvd := p.rcvd + bytes, id := id)
  }

  lemma FilledSpoke(p: Peer, log: seq<Entry>, named: seq<nat>, named': seq<nat>, bytes: string, id: nat)
    requires SpokeOk(p, log, named, [], []) && |p.pending| + |bytes| <= USABLE
    requires var ms := Messages(p.pending + bytes);
      if p.id != 0 || ms == [] then id == p.id && named' == named else id == |named| + 1 && named' == named + [p.serial]
    ensures var ms := Messages(p.pending + bytes); SpokeOk(Filled(p, bytes, id), log, named', ms, ms)
  {
    hide Messages, Tail, Encode, Spoken, Relayable, SpokeOk;
    var ms, before := Messages(p.pending + bytes), Messages(p.rcvd);
    var q := p.(pending := p.pending + bytes, rcvd := p.rcvd + bytes);
    ReceivedKeeps(p, log, named, bytes);
    IdleSpoke(p, log, named);
    assert Messages(q.rcvd) == before + ms;
    assert before + ms == [] <==> before == [] && ms == [];
    assert Spoken(log, p.serial) + Relayable(id, ms) == Relayable(id, Messages(q.rcvd));
    SpokeIs(Filled(p, bytes, id), log, named', ms, ms);
  }

  lemma IdleSpoke(p: Peer, log: seq<Entry>, named: seq<nat>)
    requires SpokeOk(p, log, named, [], [])
    ensures p.id == 0 <==> Messages(p.rcvd) == []
    ensures p.id != 0 ==> p.id <= |named| && named[p.id - 1] == p.serial
  {
  }

  lemma SpokeIs(p: Peer, log: seq<Entry>, named: seq<nat>, buffered: seq<string>, owed: seq<string>)
    requires p.pending == Encode(buffered) + Tail(p.rcvd) && |p.pending| <= USABLE
    requires Spoken(log, p.serial) + Relayable(p.id, owed) == Relayable(p.id, Messages(p.rcvd))
    requires p.id == 0 <==> Messages(p.rcvd) == []
    requires p.id != 0 ==> p.id <= |named| && named[p.id - 1] == p.serial
    ensures SpokeOk(p, log, named, buffered, owed)
  {
  }

  lemma FilledLive(p: Peer, log: seq<Entry>, named: seq<nat>, accepted: nat, bytes: string)
    requires LiveOk(p, log, named, accepted, [], []) && |p.pending| + |bytes| <= USABLE
    ensures var ms := Messages(p.pending + bytes);
      if p.id != 0 || ms == [] then LiveOk(Filled(p, bytes, p.id), log, named, accepted, ms, ms)
      else LiveOk(Filled(p, bytes, |named| + 1), log, named + [p.serial], accepted, ms, ms)
  {
    hide Attempts, Mirrors, WriteOk, Messages, SpokeOk, NeverBroken;
    if p.id != 0 || Messages(p.pending + bytes) == [] {
      FilledSpoke(p, log, named, named, bytes, p.id);
    } else {
      FilledSpoke(p, log, named, named + [p.serial], bytes, |named| + 1);
    }
  }

  lemma FillIs(st: State, i: nat, bytes: string)
    requires i < |st.peers|
    ensures var p := st.peers[i];
      Fill(st, i, bytes) == st.(peers := st.peers[i := Filled(p, bytes, p.id)], turns := st.turns + [p.serial])
    ensures var p := st.peers[i];
      Named(Fill(st, i, bytes), i) == (if p.id != 0 then Fill(st, i, bytes) else
        st.(peers := st.peers[i := Filled(p, bytes, |st.named| + 1)], named := st.named + [p.serial],
            turns := st.turns + [p.serial]))
  {
    var p := st.peers[i];
    assert st.peers[i := Filled(p, bytes, p.id)][i := Filled(p, bytes, |st.named| + 1)]
        == st.peers[i := Filled(p, bytes, |st.named| + 1)];
  }

  lemma FillKeeps(st: State, i: nat, bytes: string)
    requires Inv(st) && i < |st.peers| && |st.peers[i].pending| + |bytes| <= USABLE
    ensures var s, ms := st.peers[i].serial, Messages(st.peers[i].pending + bytes);
      st.peers[i].id != 0 || ms == [] ==>
        Serving(Fill(st, i, bytes), s, ms, ms) && IndexOf(Fill(st, i, bytes).peers, s) == i
  {
    var p := st.peers[i];
    var ms := Messages(p.pending + bytes);
    if p.id != 0 || ms == [] {
      assert p in st.peers;
      FilledLive(p, st.log, st.named, st.accepted, bytes);
      FillIs(st, i, bytes);
      OneChanged(st, i, Filled(p, bytes, p.id), st.named, st.turns + [p.serial], st.clock, [], [], ms, ms);
    }
  }

  lemma FillAndNameKeeps(st: State, i: nat, bytes: string)
    requires Inv(st) && i < |st.peers| && |st.peers[i].pending| + |bytes| <= USABLE
    requires Messages(st.peers[i].pending + bytes) != []
    ensures var s, ms := st.peers[i].serial, Messages(st.peers[i].pending + bytes);
      var st' := Named(Fill(st, i, bytes), i);
      Serving(st', s, ms, ms) && IndexOf(st'.peers, s) == i
  {
    hide LiveOk, Messages, RegistryOk, DescriptorsOk, CountsOk, GonesOk;
    var p := st.peers[i];
    var ms := Messages(p.pending + bytes);
    FillIs(st, i, bytes);
    if p.id != 0 {
      FillKeeps(st, i, bytes);
    } else {
      assert p in st.peers;
      FilledLive(p, st.log, st.named, st.accepted, bytes);
      OneChanged(st, i, Filled(p, bytes, |st.named| + 1), st.named + [p.serial], st.turns + [p.serial], st.clock,
                 [], [], ms, ms);
    }
  }

  lemma RemoveAt(ps: seq<Peer>, i: nat, bound: nat)
    requires i < |ps| && Ascending(ps, bound) && DistinctFds(ps)
    ensures var rest := ps[..i] + ps[i+1..];
      && Ascending(rest, bound) && DistinctFds(rest)
      && forall q :: q in rest ==> q in ps && q.serial != ps[i].serial && q.fd != ps[i].fd
  {
    var rest := ps[..i] + ps[i+1..];
    forall k | 0 <= k < |rest|
      ensures rest[k] == ps[if k < i then k else k + 1]
      ensures rest[k].fd != ps[i].fd && rest[k].serial != ps[i].serial
    {
    }
  }

  lemma RemoveFds(ps: seq<Peer>, i: nat, bound: nat)
    requires i < |ps| && Ascending(ps, bound) && DistinctFds(ps)
    ensures Fds(ps[..i] + ps[i+1..]) == Fds(ps) - {ps[i].fd}
  {
    var rest := ps[..i] + ps[i+1..];
    RemoveAt(ps, i, bound);
    forall q | q in ps && q.fd != ps[i].fd
      ensures q in rest
    {
      var k :| 0 <= k < |ps| && ps[k] == q;
      assert rest[if k < i then k else k - 1] == q;
    }
  }

  lemma CloseKeeps(st: State, i: nat)
    requires Inv(st) && i < |st.peers|
    ensures Inv(Close(st, i))
  {
    assert st.peers[i] in st.peers;
    RemoveAt(st.peers, i, st.accepted);
    RemoveFds(st.peers, i, st.accepted);
  }

  lemma NewcomerLive(st: State, fd: int)
    requires RegistryOk(st)
    ensures LiveOk(Peer(st.accepted, fd, 0, "", "", |st.log|, []), st.log, st.named, st.accepted + 1, [], [])
  {
    hide EntryOk;
    assert Encode([]) + Tail("") == "" && Messages("") == [] by {
      assert FirstEnd("") == -1;
    }
    SpokenByNobody(st.log, st.accepted);
    assert Relayable(0, []) == [];
    assert st.log[|st.log|..|st.log|] == [];
  }

  lemma MoreAccepted(p: Peer, left: nat, log: seq<Entry>, accepted: nat)
    requires SentOk(p, left, log, accepted)
    ensures SentOk(p, left, log, accepted + 1)
  {
  }

  lemma AcceptKeeps(st: State, fd: int)
    requires Inv(st) && fd !in st.fds
    ensures Inv(Accept(st, fd))
  {
    hide EntryOk, SentOk, SpokeOk, NeverBroken, BrokenAtMostLast;
    var p, st' := Peer(st.accepted, fd, 0, "", "", |st.log|, []), Accept(st, fd);
    NewcomerLive(st, fd);
    assert forall q :: q in st'.peers <==> q == p || q in st.peers;
    assert Fds(st'.peers) == Fds(st.peers) + {fd};
    forall q | q in st.peers
      ensures SentOk(q, |st.log|, st.log, st'.accepted)
    {
      MoreAccepted(q, |st.log|, st.log, st.accepted);
    }
    forall g | g in st.gone
      ensures SentOk(g.peer, g.left, st.log, st'.accepted)
    {
      MoreAccepted(g.peer, g.left, st.log, st.accepted);
    }
  }

  // ---------------------------------------------------------------- turns, rounds, runs

  lemma PendingFits(st: State, i: nat)
    requires Inv(st) && i < |st.peers|
    ensures |st.peers[i].pending| <= USABLE && !st.freed
  {
    assert st.peers[i] in st.peers;
  }

  lemma ServeKeeps(st: State, s: nat, r: Round, env: Env)
    requires Inv(st) && !Serve(st, s, r, env).freed
    ensures Inv(Serve(st, s, r, env))
  {
    hide Serving, Drain, Close, LivesOk, GonesOk;
    var i := IndexOf(st.peers, s);
    if i < |st.peers| && st.peers[i].fd in r.ready {
      var p := st.peers[i];
      PendingFits(st, i);
      var o := Answer(r.answers(p.fd), USABLE - |p.pending|);
      if o.Data? {
        var ms := Messages(p.pending + o.bytes);
        if ms == [] {
          FillKeeps(st, i, o.bytes);
        } else {
          FillAndNameKeeps(st, i, o.bytes);
          EncodeDecode(p.pending + o.bytes);
          DrainKeeps(Named(Fill(st, i, o.bytes), i), s, ms, env);
        }
        Idle(Serve(st, s, r, env), s, 0);
      } else {
        CloseKeeps(st, i);
      }
    }
  }

  lemma {:induction false} DrainConstants(st: State, s: nat, msgs: seq<string>, env: Env)
    ensures var st' := Drain(st, s, msgs, env);
      st'.listenFd == st.listenFd && st'.accepted == st.accepted && st'.maxFd == st.maxFd
    decreases |msgs|
  {
    if msgs != [] && !st.freed {
      DrainConstants(Handle(Pop(st, s, msgs[0]), s, msgs[0], env), s, msgs[1..], env);
    }
  }

  /** A turn accepts nobody. */
  lemma ServeConstants(st: State, s: nat, r: Round, env: Env)
    ensures var st' := Serve(st, s, r, env);
      st'.listenFd == st.listenFd && st'.accepted == st.accepted && st'.maxFd == st.maxFd
  {
    var i := IndexOf(st.peers, s);
    if i < |st.peers| {
      var p := st.peers[i];
      var o := Answer(r.answers(p.fd), if |p.pending| <= USABLE then USABLE - |p.pending| else 0);
      if o.Data? {
        DrainConstants(Named(Fill(st, i, o.bytes), i), s, Messages(p.pending + o.bytes), env);
      }
    }
  }

  lemma {:induction false} FreedForever(st: State, todo: seq<nat>, r: Round, env: Env)
    ensures st.freed ==> ServeAll(st, todo, r, env) == st
    decreases |todo|
  {
    if todo != [] {
      FreedForever(Serve(st, todo[0], r, env), todo[1..], r, env);
    }
  }

  lemma {:induction false} ServeAllKeeps(st: State, todo: seq<nat>, r: Round, env: Env)
    requires Inv(st) && !ServeAll(st, todo, r, env).freed
    ensures Inv(ServeAll(st, todo, r, env))
    decreases |todo|
  {
    if todo != [] {
      var st' := Serve(st, todo[0], r, env);
      if st'.freed {
        FreedForever(st', todo[1..], r, env);
      } else {
        ServeKeeps(st, todo[0], r, env);
        ServeAllKeeps(st', todo[1..], r, env);
      }
    }
  }

  lemma RoundKeeps(st: State, r: Round, env: Env)
    requires Inv(st) && Allowed(st, r) && !RunRound(st, r, env).freed
    ensures Inv(RunRound(st, r, env))
  {
    if r.accept != [] {
      AcceptKeeps(st, r.accept[0]);
    }
    var admitted := Admit(st, r);
    ServeAllKeeps(admitted, Serials(admitted.peers), r, env);
  }

  lemma {:induction false} RunFreed(st: State, rs: seq<Round>, env: Env)
    ensures st.freed ==> Run(st, rs, env).freed
    decreases |rs|
  {
    if rs != [] && st.freed {
      var admitted := Admit(st, rs[0]);
      FreedForever(admitted, Serials(admitted.peers), rs[0], env);
      RunFreed(RunRound(st, rs[0], env), rs[1..], env);
    }
  }

  lemma {:induction false} RunKeeps(st: State, rs: seq<Round>, env: Env)
    requires Inv(st) && AllAllowed(st, rs, env) && !Run(st, rs, env).freed
    ensures Inv(Run(st, rs, env))
    decreases |rs|
  {
    if rs != [] {
      var st' := RunRound(st, rs[0], env);
      if st'.freed {
        RunFreed(st', rs[1..], env);
      } else {
        RoundKeeps(st, rs[0], env);
        RunKeeps(st', rs[1..], env);
      }
    }
  }

  lemma InitialInv(listenFd: int)
    ensures Inv(Initial(listenFd))
  {
    assert Fds([]) == {};
  }
}
