/** One select round reads every ready client that is still there when its turn comes, once and in accept order,
    although clients are removed while the list is walked. */
module ChatRounds {
  import opened Framing
  import opened Socket
  import opened Chat
  import opened ChatInvariant
  import opened ChatSteps

  /** `q` is `p` later, with nothing more received; only the served client `s` may have been drained. */
  predicate SameInput(p: Peer, q: Peer, s: nat) {
    p.serial == q.serial && p.fd == q.fd && p.joined == q.joined && p.rcvd == q.rcvd &&
    (p.serial != s ==> p.pending == q.pending)
  }

  ghost predicate Descends(q: Peer, ps: seq<Peer>, s: nat) { exists p :: p in ps && SameInput(p, q, s) }

  /** `p` is still a client, or was removed, with the same input. */
  ghost predicate Accounted(p: Peer, st: State, s: nat) {
    (exists q :: q in st.peers && SameInput(p, q, s)) || (exists g :: g in st.gone && SameInput(p, g.peer, s))
  }

  ghost predicate Follows(st: State, st': State, s: nat) {
    && st'.turns == st.turns && st.gone <= st'.gone
    && (forall q :: q in st'.peers ==> Descends(q, st.peers, s))
    && (forall p :: p in st.peers ==> Accounted(p, st', s))
  }

  lemma FollowsSelf(st: State, s: nat)
    ensures Follows(st, st, s)
  {
    forall p | p in st.peers
      ensures Descends(p, st.peers, s) && Accounted(p, st, s)
    {
      assert SameInput(p, p, s);
    }
  }

  lemma FollowsTransitive(a: State, b: State, c: State, s: nat)
    requires Follows(a, b, s) && Follows(b, c, s)
    ensures Follows(a, c, s)
  {
    forall q | q in c.peers
      ensures Descends(q, a.peers, s)
    {
      var m :| m in b.peers && SameInput(m, q, s);
      assert Descends(m, a.peers, s);
    }
    forall p | p in a.peers
      ensures Accounted(p, c, s)
    {
      if m :| m in b.peers && SameInput(p, m, s) {
        assert Accounted(m, c, s);
      } else {
        var g :| g in b.gone && SameInput(p, g.peer, s);
        assert g in c.gone;
      }
    }
  }

  lemma {:induction false} FanoutCovers(ps: seq<Peer>, text: string, env: Env, clock: nat, p: Peer)
    requires p in ps
    ensures exists q :: (q in Kept(ps, text, env, clock) || q in Cut(ps, text, env, clock)) && Attempted(p, q, text)
    decreases |ps|
  {
    var a := Attempt(ps[0], text, env(clock));
    if p == ps[0] {
      assert Attempted(p, a, text);
      assert a in Kept(ps, text, env, clock) || a in Cut(ps, text, env, clock);
    } else {
      FanoutCovers(ps[1..], text, env, clock + 1, p);
    }
  }

  lemma RelayFollows(st: State, s: nat, msg: string, env: Env)
    ensures Follows(st, Relay(st, s, msg, env), s)
  {
    var i := IndexOf(st.peers, s);
    if i == |st.peers| {
      FollowsSelf(st, s);
    } else {
      var text := RelayText(st.peers[i].id, msg);
      var st', cut := Relay(st, s, msg, env), Cut(st.peers, text, env, st.clock);
      FanoutMembers(st.peers, text, env, st.clock);
      forall q | q in st'.peers
        ensures Descends(q, st.peers, s)
      {
        assert From(q, st.peers, text);
        var p :| p in st.peers && Attempted(p, q, text);
        assert SameInput(p, q, s);
      }
      forall p | p in st.peers
        ensures Accounted(p, st', s)
      {
        FanoutCovers(st.peers, text, env, st.clock, p);
        var q :| (q in st'.peers || q in cut) && Attempted(p, q, text);
        assert SameInput(p, q, s);
        if q in cut {
          var k :| 0 <= k < |cut| && cut[k] == q;
          assert AllGone(cut, |st.log| + 1)[k].peer == q;
        }
      }
    }
  }

  /** Replacing the served client by one with the same input. */
  lemma ReplaceFollows(st: State, st': State, i: nat, p: Peer, s: nat)
    requires i < |st.peers| && st'.peers == st.peers[i := p] && st'.gone == st.gone && st'.turns == st.turns
    requires SameInput(st.peers[i], p, s)
    ensures Follows(st, st', s)
  {
    forall q | q in st'.peers
      ensures Descends(q, st.peers, s)
    {
      var k :| 0 <= k < |st'.peers| && st'.peers[k] == q;
      assert st.peers[k] in st.peers && SameInput(st.peers[k], q, s);
    }
    forall q | q in st.peers
      ensures Accounted(q, st', s)
    {
      var k :| 0 <= k < |st.peers| && st.peers[k] == q;
      assert st'.peers[k] in st'.peers && SameInput(q, st'.peers[k], s);
    }
  }

  lemma HandleFollows(st: State, s: nat, msg: string, env: Env)
    ensures Follows(st, Handle(Pop(st, s, msg), s, msg, env), s)
  {
    var i := IndexOf(st.peers, s);
    var st1 := Pop(st, s, msg);
    if st1 == st {
      FollowsSelf(st, s);
    } else {
      ReplaceFollows(st, st1, i, st.peers[i].(pending := st.peers[i].pending[|msg| + 2..]), s);
    }
    if !AsksCount(msg) {
      RelayFollows(st1, s, msg, env);
    } else {
      var j := IndexOf(st1.peers, s);
      var st2 := AnswerCount(st1, s, env);
      if j == |st1.peers| {
        FollowsSelf(st1, s);
      } else {
        ReplaceFollows(st1, st2, j, st2.peers[j], s);
      }
    }
    FollowsTransitive(st, st1, Handle(st1, s, msg, env), s);
  }

  lemma {:induction false} DrainFollows(st: State, s: nat, msgs: seq<string>, env: Env)
    ensures Follows(st, Drain(st, s, msgs, env), s)
    decreases |msgs|
  {
    if msgs == [] || st.freed {
      FollowsSelf(st, s);
    } else {
      var st' := Handle(Pop(st, s, msgs[0]), s, msgs[0], env);
      HandleFollows(st, s, msgs[0], env);
      DrainFollows(st', s, msgs[1..], env);
      FollowsTransitive(st, st', Drain(st, s, msgs, env), s);
    }
  }

  // ---------------------------------------------------------------- one turn

  /** The bytes the round's one read from `p` delivers. */
  function Delivered(p: Peer, r: Round): string {
    var o := Answer(r.answers(p.fd), if |p.pending| <= USABLE then USABLE - |p.pending| else 0);
    if o.Data? then o.bytes else ""
  }

  /** What read() reports that ends a connection: end of file, an error, or nothing because the buffer is full. */
  predicate Ends(o: ReadOutcome, pending: string) { !o.Data? || o.bytes == "" || |pending| >= USABLE }

  predicate TakesTurn(st: State, s: nat, r: Round) {
    var i := IndexOf(st.peers, s);
    !st.freed && i < |st.peers| && st.peers[i].fd in r.ready
  }

  /** `q` is `p` after `p` had its turn, if it was ready and in `todo`, and after others had theirs. */
  predicate ReadOnce(p: Peer, q: Peer, todo: seq<nat>, r: Round) {
    p.serial == q.serial && p.fd == q.fd && p.joined == q.joined &&
    (if p.serial in todo && p.fd in r.ready then q.rcvd == p.rcvd + Delivered(p, r)
     else q.rcvd == p.rcvd && q.pending == p.pending)
  }

  ghost predicate HasReadOnce(q: Peer, ps: seq<Peer>, todo: seq<nat>, r: Round) {
    exists p :: p in ps && ReadOnce(p, q, todo, r)
  }

  function Filling(st: State, i: nat, bytes: string): State
    requires i < |st.peers|
  {
    if FirstEnd(st.peers[i].pending + bytes) == -1 then Fill(st, i, bytes) else Named(Fill(st, i, bytes), i)
  }

  /** A turn either closes the client or fills its buffer and drains it. */
  lemma ServeIs(st: State, s: nat, r: Round, env: Env)
    ensures !TakesTurn(st, s, r) ==> Serve(st, s, r, env) == st
    ensures TakesTurn(st, s, r) ==>
      var i := IndexOf(st.peers, s);
      var p, bytes := st.peers[i], Delivered(st.peers[i], r);
      Serve(st, s, r, env) == if Ends(r.answers(p.fd), p.pending) then Close(st, i)
                              else Drain(Filling(st, i, bytes), s, Messages(p.pending + bytes), env)
  {
    var i := IndexOf(st.peers, s);
    if TakesTurn(st, s, r) {
      var p, bytes := st.peers[i], Delivered(st.peers[i], r);
      assert FirstEnd(p.pending + bytes) == -1 ==> Messages(p.pending + bytes) == [];
    }
  }

  lemma FillingIs(st: State, i: nat, bytes: string)
    requires i < |st.peers|
    ensures var f, p := Filling(st, i, bytes), st.peers[i];
      && f.gone == st.gone && f.turns == st.turns + [p.serial]
      && |f.peers| == |st.peers| && f.peers[i].serial == p.serial && f.peers[i].fd == p.fd
      && f.peers[i].joined == p.joined && f.peers[i].rcvd == p.rcvd + bytes
      && forall k :: 0 <= k < |st.peers| && k != i ==> f.peers[k] == st.peers[k]
  {
    FillIs(st, i, bytes);
  }

  lemma FilledReads(st: State, i: nat, filled: State, bytes: string, q: Peer, r: Round)
    requires Ascending(st.peers, st.accepted) && i < |st.peers| && st.peers[i].fd in r.ready
    requires bytes == Delivered(st.peers[i], r)
    requires |filled.peers| == |st.peers| && filled.peers[i].serial == st.peers[i].serial
    requires filled.peers[i].fd == st.peers[i].fd && filled.peers[i].joined == st.peers[i].joined
    requires filled.peers[i].rcvd == st.peers[i].rcvd + bytes
    requires forall k :: 0 <= k < |st.peers| && k != i ==> filled.peers[k] == st.peers[k]
    requires Descends(q, filled.peers, st.peers[i].serial)
    ensures HasReadOnce(q, st.peers, [st.peers[i].serial], r)
  {
    var m :| m in filled.peers && SameInput(m, q, st.peers[i].serial);
    var k :| 0 <= k < |filled.peers| && filled.peers[k] == m;
    assert st.peers[k] in st.peers;
    assert ReadOnce(st.peers[k], q, [st.peers[i].serial], r);
  }

  /** What one turn does to the others, and to the client whose turn it is. */
  ghost predicate Turned(st: State, st': State, s: nat, r: Round) {
    && st'.turns == st.turns + (if TakesTurn(st, s, r) then [s] else [])
    && st.gone <= st'.gone
    && (forall q :: q in st'.peers ==> HasReadOnce(q, st.peers, [s], r))
    && (forall p :: p in st.peers && p.serial != s ==> Accounted(p, st', s))
  }

  lemma IdleReads(ps: seq<Peer>, bound: nat, s: nat, r: Round, q: Peer)
    requires Ascending(ps, bound) && q in ps
    requires IndexOf(ps, s) == |ps| || ps[IndexOf(ps, s)].fd !in r.ready
    ensures ReadOnce(q, q, [s], r)
  {
    var k :| 0 <= k < |ps| && ps[k] == q;
    IndexFound(ps, k, bound);
  }

  lemma IdleTurn(st: State, s: nat, r: Round)
    requires Ascending(st.peers, st.accepted) && !st.freed && !TakesTurn(st, s, r)
    ensures Turned(st, st, s, r)
  {
    forall q | q in st.peers
      ensures HasReadOnce(q, st.peers, [s], r) && Accounted(q, st, s)
    {
      IdleReads(st.peers, st.accepted, s, r, q);
      assert SameInput(q, q, s);
    }
  }

  lemma ClosedPeers(st: State, i: nat)
    requires Ascending(st.peers, st.accepted) && i < |st.peers|
    ensures forall q :: q in Close(st, i).peers ==> q in st.peers && q.serial != st.peers[i].serial
    ensures forall o :: o in st.peers && o.serial != st.peers[i].serial ==> o in Close(st, i).peers
  {
    var rest := Close(st, i).peers;
    forall k | 0 <= k < |rest|
      ensures rest[k] == st.peers[if k < i then k else k + 1] && rest[k].serial != st.peers[i].serial
    {
    }
    forall o | o in st.peers && o.serial != st.peers[i].serial
      ensures o in rest
    {
      var k :| 0 <= k < |st.peers| && st.peers[k] == o;
      assert rest[if k < i then k else k - 1] == o;
    }
  }

  lemma ClosingTurn(st: State, s: nat, r: Round)
    requires Ascending(st.peers, st.accepted) && TakesTurn(st, s, r)
    ensures Turned(st, Close(st, IndexOf(st.peers, s)), s, r)
  {
    hide Ascending, Delivered;
    var i := IndexOf(st.peers, s);
    ClosedPeers(st, i);
    forall q | q in Close(st, i).peers
      ensures HasReadOnce(q, st.peers, [s], r)
    {
      assert ReadOnce(q, q, [s], r);
    }
    forall o | o in st.peers && o.serial != s
      ensures Accounted(o, Close(st, i), s)
    {
      assert SameInput(o, o, s);
    }
  }

  lemma DrainingTurn(st: State, s: nat, r: Round, env: Env)
    requires Ascending(st.peers, st.accepted) && TakesTurn(st, s, r)
    ensures var i := IndexOf(st.peers, s);
      var bytes := Delivered(st.peers[i], r);
      Turned(st, Drain(Filling(st, i, bytes), s, Messages(st.peers[i].pending + bytes), env), s, r)
  {
    var i := IndexOf(st.peers, s);
    var bytes := Delivered(st.peers[i], r);
    var ms, f := Messages(st.peers[i].pending + bytes), Filling(st, i, bytes);
    var st' := Drain(f, s, ms, env);
    FillingIs(st, i, bytes);
    DrainFollows(f, s, ms, env);
    forall q | q in st'.peers
      ensures HasReadOnce(q, st.peers, [s], r)
    {
      FilledReads(st, i, f, bytes, q, r);
    }
    forall o | o in st.peers && o.serial != s
      ensures Accounted(o, st', s)
    {
      var k :| 0 <= k < |st.peers| && st.peers[k] == o;
      assert f.peers[k] == o;
    }
  }

  lemma ServeTurns(st: State, s: nat, r: Round, env: Env)
    requires Ascending(st.peers, st.accepted) && !st.freed
    ensures Turned(st, Serve(st, s, r, env), s, r)
  {
    ServeIs(st, s, r, env);
    if !TakesTurn(st, s, r) {
      IdleTurn(st, s, r);
    } else {
      ClosingTurn(st, s, r);
      DrainingTurn(st, s, r, env);
    }
  }

  /** The first of several turns. */
  lemma NextTurn(st: State, todo: seq<nat>, r: Round, env: Env)
    requires Inv(st) && todo != [] && !ServeAll(st, todo, r, env).freed
    ensures Inv(Serve(st, todo[0], r, env)) && Turned(st, Serve(st, todo[0], r, env), todo[0], r)
    ensures ServeAll(st, todo, r, env) == ServeAll(Serve(st, todo[0], r, env), todo[1..], r, env)
  {
    FreedForever(Serve(st, todo[0], r, env), todo[1..], r, env);
    ServeKeeps(st, todo[0], r, env);
    ServeTurns(st, todo[0], r, env);
  }

  // ---------------------------------------------------------------- the whole round

  /** The clients of `todo` whose socket is read, in order. */
  function Visits(st: State, todo: seq<nat>, r: Round, env: Env): seq<nat>
    decreases |todo|
  {
    if todo == [] then []
    else (if TakesTurn(st, todo[0], r) then [todo[0]] else []) + Visits(Serve(st, todo[0], r, env), todo[1..], r, env)
  }

  predicate Increasing(s: seq<nat>) { forall i, j :: 0 <= i < j < |s| ==> s[i] < s[j] }

  lemma {:induction false} VisitsInOrder(st: State, todo: seq<nat>, r: Round, env: Env)
    requires Increasing(todo)
    ensures Increasing(Visits(st, todo, r, env))
    ensures forall s :: s in Visits(st, todo, r, env) ==> s in todo
    decreases |todo|
  {
    if todo != [] {
      var vs := Visits(Serve(st, todo[0], r, env), todo[1..], r, env);
      VisitsInOrder(Serve(st, todo[0], r, env), todo[1..], r, env);
      forall k | 0 <= k < |vs|
        ensures vs[k] > todo[0] && vs[k] in todo
      {
        assert vs[k] in todo[1..];
      }
    }
  }

  /** `p` was removed without having been read. */
  ghost predicate RemovedUnread(p: Peer, st: State) {
    exists g :: g in st.gone && g.peer.serial == p.serial && g.peer.rcvd == p.rcvd
  }

  /** What the turns of `todo`, taken in order, made of `st`. */
  ghost predicate TurnsTaken(st: State, end: State, todo: seq<nat>, visits: seq<nat>, r: Round) {
    && end.turns == st.turns + visits && st.gone <= end.gone
    && (forall q :: q in end.peers ==> HasReadOnce(q, st.peers, todo, r))
    && (forall p :: p in st.peers && p.serial in todo && p.fd in r.ready ==>
          p.serial in visits || RemovedUnread(p, end))
  }

  lemma NoTurnTaken(st: State, r: Round)
    ensures TurnsTaken(st, st, [], [], r)
  {
    assert forall q :: q in st.peers ==> ReadOnce(q, q, [], r);
  }

  lemma ReadsCompose(ps: seq<Peer>, ms: seq<Peer>, q: Peer, s: nat, rest: seq<nat>, r: Round)
    requires s !in rest && HasReadOnce(q, ms, rest, r)
    requires forall m :: m in ms ==> HasReadOnce(m, ps, [s], r)
    ensures HasReadOnce(q, ps, [s] + rest, r)
  {
    var m :| m in ms && ReadOnce(m, q, rest, r);
    assert HasReadOnce(m, ps, [s], r);
    var p :| p in ps && ReadOnce(p, m, [s], r);
    assert ReadOnce(p, q, [s] + rest, r);
  }

  lemma SkipsCompose(st: State, st1: State, end: State, s: nat, rest: seq<nat>, visits: seq<nat>, r: Round, p: Peer)
    requires Turned(st, st1, s, r) && TurnsTaken(st1, end, rest, visits, r)
    requires p in st.peers && p.serial != s && p.serial in rest && p.fd in r.ready
    ensures p.serial in visits || RemovedUnread(p, end)
  {
    assert Accounted(p, st1, s);
    if q :| q in st1.peers && SameInput(p, q, s) {
      assert q.serial in visits || RemovedUnread(q, end);
    } else {
      var g :| g in st1.gone && SameInput(p, g.peer, s);
      assert g in end.gone;
    }
  }

  lemma TurnsCompose(st: State, st1: State, end: State, todo: seq<nat>, visits: seq<nat>, r: Round)
    requires Ascending(st.peers, st.accepted) && !st.freed && todo != [] && Increasing(todo)
    requires Turned(st, st1, todo[0], r) && TurnsTaken(st1, end, todo[1..], visits, r)
    ensures TurnsTaken(st, end, todo, (if TakesTurn(st, todo[0], r) then [todo[0]] else []) + visits, r)
  {
    var s, rest := todo[0], todo[1..];
    assert todo == [s] + rest;
    forall q | q in end.peers
      ensures HasReadOnce(q, st.peers, todo, r)
    {
      ReadsCompose(st.peers, st1.peers, q, s, rest, r);
    }
    forall p | p in st.peers && p.serial in todo && p.fd in r.ready && p.serial !in visits
      ensures (p.serial == s && TakesTurn(st, s, r)) || RemovedUnread(p, end)
    {
      if p.serial == s {
        var k :| 0 <= k < |st.peers| && st.peers[k] == p;
        IndexFound(st.peers, k, st.accepted);
      } else {
        SkipsCompose(st, st1, end, s, rest, visits, r, p);
      }
    }
  }

  lemma RegisteredInOrder(st: State)
    requires Inv(st)
    ensures Ascending(st.peers, st.accepted) && DistinctFds(st.peers) && !st.freed
  {
  }

  lemma {:induction false} ServeAllTurns(st: State, todo: seq<nat>, r: Round, env: Env)
    requires Inv(st) && Increasing(todo) && !ServeAll(st, todo, r, env).freed
    ensures TurnsTaken(st, ServeAll(st, todo, r, env), todo, Visits(st, todo, r, env), r)
    decreases |todo|
  {
    if todo == [] {
      NoTurnTaken(st, r);
    } else {
      var st1 := Serve(st, todo[0], r, env);
      NextTurn(st, todo, r, env);
      ServeAllTurns(st1, todo[1..], r, env);
      RegisteredInOrder(st);
      TurnsCompose(st, st1, ServeAll(st1, todo[1..], r, env), todo, Visits(st1, todo[1..], r, env), r);
    }
  }

  lemma SerialsIncrease(ps: seq<Peer>, bound: nat)
    requires Ascending(ps, bound)
    ensures Increasing(Serials(ps))
    ensures forall p :: p in ps ==> p.serial in Serials(ps)
  {
    forall p | p in ps
      ensures p.serial in Serials(ps)
    {
      var k :| 0 <= k < |ps| && ps[k] == p;
      assert Serials(ps)[k] == p.serial;
    }
  }

  /** In one round sockets are read in accept order, none twice; a ready client is read unless it was removed
      before its turn; whoever is left has received exactly the bytes of its one read, or nothing if not ready. */
  lemma RoundReadsOnce(st: State, r: Round, env: Env)
    requires Inv(st) && Allowed(st, r) && !RunRound(st, r, env).freed
    ensures var from, to := Admit(st, r), RunRound(st, r, env);
      && from.turns <= to.turns && Increasing(to.turns[|from.turns|..])
      && (forall p :: p in from.peers && p.fd in r.ready ==>
            p.serial in to.turns[|from.turns|..] || RemovedUnread(p, to))
      && (forall q :: q in to.peers ==> HasReadOnce(q, from.peers, Serials(from.peers), r))
  {
    var from, to := Admit(st, r), RunRound(st, r, env);
    AdmitKeeps(st, r);
    var todo := Serials(from.peers);
    SerialsIncrease(from.peers, from.accepted);
    ServeAllTurns(from, todo, r, env);
    VisitsInOrder(from, todo, r, env);
    assert to.turns[|from.turns|..] == Visits(from, todo, r, env);
  }

  /** Connections are accepted before anybody is read: a newcomer is sent every message relayed in its first round. */
  lemma NewcomerHearsRound(st: State, r: Round, env: Env, q: Peer)
    requires Inv(st) && Allowed(st, r) && !RunRound(st, r, env).freed && r.accept != []
    requires q in RunRound(st, r, env).peers && q.serial == st.accepted
    ensures q.fd == r.accept[0] && q.joined == |st.log|
  {
    hide ServeAll, Serials, Delivered;
    var from := Admit(st, r);
    RoundReadsOnce(st, r, env);
    var p :| p in from.peers && ReadOnce(p, q, Serials(from.peers), r);
    RegisteredInOrder(st);
    assert p in st.peers ==> p.serial < st.accepted;
  }

  /** The client being served keeps its place while its messages are handled. */
  lemma {:induction false} DrainKeepsServed(st: State, s: nat, msgs: seq<string>, env: Env)
    requires Serving(st, s, msgs, msgs) && IndexOf(st.peers, s) < |st.peers|
    requires forall m :: m in msgs ==> CrlfFree(m)
    requires !st.freed && !Drain(st, s, msgs, env).freed
    ensures IndexOf(Drain(st, s, msgs, env).peers, s) < |Drain(st, s, msgs, env).peers|
    ensures Drain(st, s, msgs, env).connected == st.connected
    decreases |msgs|
  {
    hide Serving, Handle, Pop;
    if msgs != [] {
      var m, rest := msgs[0], msgs[1..];
      assert msgs == [m] + rest;
      FreedStays(Handle(Pop(st, s, m), s, m, env), s, rest, env);
      HandleKeeps(st, s, m, rest, env);
      HandleConnected(st, s, m, env);
      DrainKeepsServed(Handle(Pop(st, s, m), s, m, env), s, rest, env);
    }
  }

  lemma HandleConnected(st: State, s: nat, msg: string, env: Env)
    ensures Handle(Pop(st, s, msg), s, msg, env).connected == st.connected
  {
    hide IndexOf, AsksCount, Kept, Cut;
  }

  /** A client whose read delivered bytes is still there after them. */
  lemma ReceivedStays(st: State, i: nat, bytes: string, env: Env)
    requires Inv(st) && i < |st.peers| && |st.peers[i].pending| + |bytes| <= USABLE
    requires var all := st.peers[i].pending + bytes;
      !Drain(Filling(st, i, bytes), st.peers[i].serial, Messages(all), env).freed
    ensures var s := st.peers[i].serial;
      var st' := Drain(Filling(st, i, bytes), s, Messages(st.peers[i].pending + bytes), env);
      IndexOf(st'.peers, s) < |st'.peers| && st'.connected == st.connected
  {
    hide Serving, Drain, Messages, FirstEnd, Fill, Named;
    var s, all := st.peers[i].serial, st.peers[i].pending + bytes;
    FillIs(st, i, bytes);
    EncodeDecode(all);
    PendingFits(st, i);
    if FirstEnd(all) == -1 {
      NoMessage(all);
      FillKeeps(st, i, bytes);
    } else {
      FirstMessage(all);
      FillAndNameKeeps(st, i, bytes);
    }
    DrainKeepsServed(Filling(st, i, bytes), s, Messages(all), env);
  }

  /** A turn ends the connection of the client if and only if its read does; then, and only then, the client is
      uncounted. */
  lemma TurnEndsIff(st: State, s: nat, r: Round, env: Env)
    requires Inv(st) && TakesTurn(st, s, r) && !Serve(st, s, r, env).freed
    ensures var st', p := Serve(st, s, r, env), st.peers[IndexOf(st.peers, s)];
      && (!(exists q :: q in st'.peers && q.serial == s) <==> Ends(r.answers(p.fd), p.pending))
      && st'.connected == st.connected - (if Ends(r.answers(p.fd), p.pending) then 1 else 0)
  {
    hide Inv, Drain, Messages, FirstEnd, Filling, Ascending;
    var i := IndexOf(st.peers, s);
    var p, st' := st.peers[i], Serve(st, s, r, env);
    PendingFits(st, i);
    RegisteredInOrder(st);
    IndexMissing(st'.peers, s);
    ServeIs(st, s, r, env);
    if Ends(r.answers(p.fd), p.pending) {
      ClosedPeers(st, i);
    } else {
      ReceivedStays(st, i, Delivered(p, r), env);
    }
  }

  lemma AdmitKeeps(st: State, r: Round)
    requires Inv(st) && Allowed(st, r)
    ensures Inv(Admit(st, r))
  {
    if r.accept != [] {
      AcceptKeeps(st, r.accept[0]);
    }
  }
}
