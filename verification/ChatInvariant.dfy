/** What every step of the chat server keeps. */
module ChatInvariant {
  import opened Text
  import opened Framing
  import opened Socket
  import opened Chat

  // ---------------------------------------------------------------- history

  /** The messages `serial` had relayed, in the order of the log. */
  function Spoken(log: seq<Entry>, serial: nat): seq<string> {
    if log == [] then []
    else
      var e := log[|log| - 1];
      Spoken(log[..|log| - 1], serial) + (if e.sender == serial then [e.text] else [])
  }

  /** What the server relays for a client named by `id` that sent `msgs`: all but the requests. */
  function Relayable(id: nat, msgs: seq<string>): seq<string> {
    if msgs == [] then []
    else (if IsRequest(msgs[0]) then [] else [RelayText(id, msgs[0])]) + Relayable(id, msgs[1..])
  }

  /** The relay attempts among the writes to a client. */
  function Attempts(ws: seq<Write>): (r: seq<Write>)
    ensures forall w :: w in r ==> w.Relayed?
  {
    if ws == [] then []
    else
      var w := ws[|ws| - 1];
      Attempts(ws[..|ws| - 1]) + (if w.Relayed? then [w] else [])
  }

  /** Attempt k carries entry k of the slice of the log. */
  ghost predicate Mirrors(attempts: seq<Write>, slice: seq<Entry>) {
    |attempts| == |slice| && forall k :: 0 <= k < |slice| ==> WriteText(attempts[k]) == slice[k].text
  }

  /** A text that is one frame, fits every buffer on its way, and completes no CRLF with what is in front of it. */
  predicate TextOk(text: string) { FirstEnd(text) == -1 && 0 < |text| <= USABLE - 2 && text[0] != '\n' }

  /** What left of a write is a prefix of its frame: all of it exactly if the write completed. */
  predicate Carried(w: Write) {
    w.bytes <= WriteText(w) + CRLF && (w.outcome == Complete <==> w.bytes == WriteText(w) + CRLF)
  }

  predicate WriteOk(w: Write, accepted: nat) {
    Carried(w) && (if w.Relayed? then TextOk(w.text) else 0 <= w.count <= accepted)
  }

  lemma LeavesCarried(text: string, count: int, w: WriteEnv)
    ensures Carried(Relayed(text, WriteOutcome(text, w), Leaves(text, w)))
    ensures text == Decimal(count) + "\n" ==> Carried(Counted(count, WriteOutcome(text, w), Leaves(text, w)))
  {
    hide Decimal, Accepted;
    assert |text + CRLF| == |text| + 2;
  }

  // ---------------------------------------------------------------- the invariant

  /** Everything relayed between its arrival and `left` was attempted to `p`, in order, and nothing else. */
  ghost predicate SentOk(p: Peer, left: nat, log: seq<Entry>, accepted: nat) {
    && p.joined <= left <= |log|
    && Mirrors(Attempts(p.writes), log[p.joined..left])
    && forall w :: w in p.writes ==> WriteOk(w, accepted)
  }

  /** The buffer holds the messages `buffered` and the unterminated rest of what was received; apart from `owed`,
      exactly the messages received were relayed. */
  ghost predicate SpokeOk(p: Peer, log: seq<Entry>, named: seq<nat>, buffered: seq<string>, owed: seq<string>) {
    && p.pending == Encode(buffered) + Tail(p.rcvd) && |p.pending| <= USABLE
    && Spoken(log, p.serial) + Relayable(p.id, owed) == Relayable(p.id, Messages(p.rcvd))
    && (p.id == 0 <==> Messages(p.rcvd) == [])
    && (p.id != 0 ==> p.id <= |named| && named[p.id - 1] == p.serial)
  }

  predicate Ascending(ps: seq<Peer>, bound: nat) {
    forall i :: 0 <= i < |ps| ==> ps[i].serial < bound && forall j :: i < j < |ps| ==> ps[i].serial < ps[j].serial
  }

  predicate DistinctFds(ps: seq<Peer>) {
    forall i, j :: 0 <= i < j < |ps| ==> ps[i].fd != ps[j].fd
  }

  /** The descriptor set is the listening socket plus exactly the clients', and max_fd bounds it. */
  predicate DescriptorsOk(st: State) {
    && DistinctFds(st.peers)
    && st.listenFd !in Fds(st.peers)
    && st.fds == {st.listenFd} + Fds(st.peers)
    && forall fd :: fd in st.fds ==> fd <= st.maxFd
  }

  predicate CountsOk(st: State) {
    && |st.peers| + |st.gone| == st.accepted
    && st.dropped <= |st.gone|
    && st.connected == |st.peers| + st.dropped
  }

  /** A log entry carries the name of its sender. */
  ghost predicate EntryOk(e: Entry, named: seq<nat>) {
    exists id, msg :: 1 <= id <= |named| && named[id - 1] == e.sender && e.text == RelayText(id, msg)
  }

  ghost predicate RegistryOk(st: State) {
    && Ascending(st.peers, st.accepted)
    && (forall g :: g in st.gone ==> g.peer.serial < st.accepted)
    && (forall g, p :: g in st.gone && p in st.peers ==> g.peer.serial != p.serial)
    && (forall e :: e in st.log ==> e.sender < st.accepted && EntryOk(e, st.named))
  }

  ghost predicate LiveOk(p: Peer, log: seq<Entry>, named: seq<nat>, accepted: nat, buffered: seq<string>, owed: seq<string>) {
    SentOk(p, |log|, log, accepted) && SpokeOk(p, log, named, buffered, owed) && NeverBroken(Attempts(p.writes))
  }

  ghost predicate GoneOk(g: Gone, log: seq<Entry>, named: seq<nat>, accepted: nat) {
    SentOk(g.peer, g.left, log, accepted) && SpokeOk(g.peer, log, named, [], []) &&
    BrokenAtMostLast(Attempts(g.peer.writes))
  }

  ghost predicate LivesOk(st: State, s: nat, buffered: seq<string>, owed: seq<string>) {
    forall p :: p in st.peers ==>
      LiveOk(p, st.log, st.named, st.accepted, if p.serial == s then buffered else [], if p.serial == s then owed else [])
  }

  ghost predicate GonesOk(st: State) {
    forall g :: g in st.gone ==> GoneOk(g, st.log, st.named, st.accepted)
  }

  predicate NeverBroken(attempts: seq<Write>) { forall w :: w in attempts ==> w.outcome != Broken }

  predicate BrokenAtMostLast(attempts: seq<Write>) {
    attempts == [] || NeverBroken(attempts[..|attempts| - 1])
  }

  /** Client `s` is being served: `buffered` is still in its buffer, `owed` not yet relayed. */
  ghost predicate Serving(st: State, s: nat, buffered: seq<string>, owed: seq<string>) {
    && !st.freed && RegistryOk(st) && DescriptorsOk(st) && CountsOk(st) && GonesOk(st) &&
    LivesOk(st, s, buffered, owed)
  }

  ghost predicate Inv(st: State) { Serving(st, 0, [], []) }

  lemma Idle(st: State, s: nat, t: nat)
    requires Serving(st, s, [], [])
    ensures Serving(st, t, [], [])
  {
  }

  // ---------------------------------------------------------------- positions

  lemma {:induction false} IndexFound(ps: seq<Peer>, i: nat, bound: nat)
    requires Ascending(ps, bound) && i < |ps|
    ensures IndexOf(ps, ps[i].serial) == i
  {
    if i > 0 {
      IndexFound(ps[1..], i - 1, bound);
    }
  }

  lemma {:induction false} IndexMissing(ps: seq<Peer>, s: nat)
    ensures IndexOf(ps, s) < |ps| <==> exists p :: p in ps && p.serial == s
  {
    if ps != [] && ps[0].serial != s {
      IndexMissing(ps[1..], s);
      assert forall p :: p in ps <==> p == ps[0] || p in ps[1..];
    }
  }

  // ---------------------------------------------------------------- fan-out

  /** `q` is `p` after one more relay attempt. */
  predicate Attempted(p: Peer, q: Peer, text: string) {
    |q.writes| == |p.writes| + 1 && q == p.(writes := p.writes + [q.writes[|p.writes|]]) &&
    q.writes[|p.writes|].Relayed? && q.writes[|p.writes|].text == text && Carried(q.writes[|p.writes|])
  }

  ghost predicate From(q: Peer, ps: seq<Peer>, text: string) { exists p :: p in ps && Attempted(p, q, text) }

  lemma {:induction false} FanoutMembers(ps: seq<Peer>, text: string, env: Env, clock: nat)
    ensures forall q :: q in Kept(ps, text, env, clock) ==>
      From(q, ps, text) && q.writes != [] && q.writes[|q.writes| - 1].outcome != Broken
    ensures forall q :: q in Cut(ps, text, env, clock) ==> From(q, ps, text)
    ensures |Kept(ps, text, env, clock)| + |Cut(ps, text, env, clock)| == |ps|
    decreases |ps|
  {
    if ps != [] {
      FanoutMembers(ps[1..], text, env, clock + 1);
      var a := Attempt(ps[0], text, env(clock));
      LeavesCarried(text, 0, env(clock));
      assert Attempted(ps[0], a, text) && ps[0] in ps;
      assert forall q :: From(q, ps[1..], text) ==> From(q, ps, text);
    }
  }

  lemma FdsCons(p: Peer, ps: seq<Peer>)
    ensures Fds([p] + ps) == {p.fd} + Fds(ps)
  {
    assert forall q :: q in [p] + ps <==> q == p || q in ps;
  }

  lemma {:induction false} FanoutAscending(ps: seq<Peer>, text: string, env: Env, clock: nat, bound: nat)
    requires Ascending(ps, bound)
    ensures Ascending(Kept(ps, text, env, clock), bound)
    decreases |ps|
  {
    if ps != [] {
      FanoutAscending(ps[1..], text, env, clock + 1, bound);
      FanoutMembers(ps[1..], text, env, clock + 1);
      var kept := Kept(ps[1..], text, env, clock + 1);
      forall j | 0 <= j < |kept|
        ensures kept[j].serial > ps[0].serial
      {
        assert From(kept[j], ps[1..], text);
      }
    }
  }

  lemma {:induction false} FanoutDisjoint(ps: seq<Peer>, text: string, env: Env, clock: nat, bound: nat, p: Peer, q: Peer)
    requires Ascending(ps, bound)
    requires p in Kept(ps, text, env, clock) && q in Cut(ps, text, env, clock)
    ensures p.serial != q.serial
    decreases |ps|
  {
    if ps != [] {
      FanoutMembers(ps[1..], text, env, clock + 1);
      if p in Kept(ps[1..], text, env, clock + 1) {
        if q in Cut(ps[1..], text, env, clock + 1) {
          FanoutDisjoint(ps[1..], text, env, clock + 1, bound, p, q);
        } else {
          assert From(p, ps[1..], text);
        }
      } else {
        assert From(q, ps[1..], text);
      }
    }
  }

  lemma {:induction false} FanoutFds(ps: seq<Peer>, text: string, env: Env, clock: nat)
    requires DistinctFds(ps)
    ensures DistinctFds(Kept(ps, text, env, clock))
    ensures Fds(Kept(ps, text, env, clock)) == Fds(ps) - Fds(Cut(ps, text, env, clock))
    decreases |ps|
  {
    if ps != [] {
      FanoutFds(ps[1..], text, env, clock + 1);
      FanoutMembers(ps[1..], text, env, clock + 1);
      var kept, cut := Kept(ps[1..], text, env, clock + 1), Cut(ps[1..], text, env, clock + 1);
      var a := Attempt(ps[0], text, env(clock));
      assert a.fd == ps[0].fd;
      hide Fds, WriteOutcome, Attempt, From;
      OtherFds(ps, text, kept);
      OtherFds(ps, text, cut);
      FdsCons(ps[0], ps[1..]);
      assert ps == [ps[0]] + ps[1..];
      FdsCons(a, kept);
      FdsCons(a, cut);
    }
  }

  lemma OtherFds(ps: seq<Peer>, text: string, qs: seq<Peer>)
    requires DistinctFds(ps) && ps != [] && forall q :: q in qs ==> From(q, ps[1..], text)
    ensures forall q :: q in qs ==> q.fd != ps[0].fd
    ensures ps[0].fd !in Fds(qs)
  {
  }

  lemma AttemptsAppend(ws: seq<Write>, w: Write)
    ensures Attempts(ws + [w]) == Attempts(ws) + (if w.Relayed? then [w] else [])
  {
    assert (ws + [w])[..|ws|] == ws;
  }

  lemma SpokenAppend(log: seq<Entry>, e: Entry, serial: nat)
    ensures Spoken(log + [e], serial) == Spoken(log, serial) + (if e.sender == serial then [e.text] else [])
  {
    assert (log + [e])[..|log|] == log;
  }

  lemma {:induction false} SpokenByNobody(log: seq<Entry>, serial: nat)
    requires forall e :: e in log ==> e.sender != serial
    ensures Spoken(log, serial) == []
  {
    if log != [] {
      SpokenByNobody(log[..|log| - 1], serial);
    }
  }

  lemma {:induction false} RelayableAppend(id: nat, a: seq<string>, b: seq<string>)
    ensures Relayable(id, a + b) == Relayable(id, a) + Relayable(id, b)
  {
    hide IsRequest, RelayText;
    if a == [] {
      assert a + b == b;
    } else {
      assert (a + b)[1..] == a[1..] + b;
      RelayableAppend(id, a[1..], b);
    }
  }

  /** What is relayed is one frame and fits every buffer on its way. */
  lemma RelayTextIsFrame(id: nat, msg: string)
    requires CrlfFree(msg)
    ensures TextOk(RelayText(id, msg))
  {
    var name, body := ClientName(id), Take(CStr(msg), MAX_USER_MSG);
    var t := RelayText(id, msg);
    CStrIsPrefix(msg);
    DecimalDigits(id);
    var d := Decimal(id);
    assert forall c :: c in d ==> c != '\r';
    forall c | c in name
      ensures c != '\r'
    {
      assert c in "client" || c in d;
    }
    assert Take(name, MAX_NAME) == name && t[0] == 'c';
    forall i | 0 <= i < |t| - 1
      ensures !CrlfAt(t, i)
    {
      if i < |name| {
        assert t[i] == name[i] && name[i] in name;
      } else if i > |name| {
        var k := i - |name| - 1;
        assert body == msg[..|body|];
        assert t[i] == body[k] && t[i+1] == body[k+1];
        assert !CrlfAt(msg, k);
      }
    }
  }

  lemma {:induction false} CStrIsPrefix(s: string)
    ensures |CStr(s)| <= |s| && CStr(s) == s[..|CStr(s)|]
  {
    if s != "" && s[0] != NUL {
      CStrIsPrefix(s[1..]);
    }
  }
}
