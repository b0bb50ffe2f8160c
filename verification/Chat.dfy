/** The chat server as steps on values: src/server.c and src/chat_helpers.c without the linked list.
    ChatServer proves that the code over the heap computes these functions; ChatTheorems says what they keep. */
module Chat {
  import opened Text
  import opened Framing
  import opened Socket

  // ---------------------------------------------------------------- state

  /** How one write_buf_to_client() ended: all bytes out, an error, or a broken connection. */
  datatype Outcome = Complete | Lost | Broken

  /** One write attempted to a client: a relayed message, or the answer to `\connected`. `bytes` are those bytes of
      its frame that write() took before it failed, or all of them. */
  datatype Write =
    | Relayed(text: string, outcome: Outcome, bytes: string)
    | Counted(count: int, outcome: Outcome, bytes: string)

  /** A client. `serial` numbers accepts; `id` is 0 until a name is given; `rcvd`, `joined` and `writes` are
      history: all bytes read from it, the log's length when it came, and every write attempted to it. */
  datatype Peer = Peer(serial: nat, fd: int, id: nat, pending: string, rcvd: string, joined: nat, writes: seq<Write>)

  /** A former client, and the length of the log when it was removed. */
  datatype Gone = Gone(peer: Peer, left: nat)

  /** A relayed message; `echo` is how the write of it to its own sender ended. */
  datatype Entry = Entry(sender: nat, text: string, echo: Outcome)

  /** `log` holds every relayed message in the order the server relayed them; `named[k-1]` is the serial of the
      client that got id k, so `client_id` is |named|; `turns` lists whose socket was read; `clock` counts writes.
      `freed` says that a sender's own node was freed while its message was being relayed. */
  datatype State = State(
    listenFd: int, peers: seq<Peer>, gone: seq<Gone>, fds: set<int>, maxFd: int,
    named: seq<nat>, accepted: nat, connected: int, dropped: nat,
    log: seq<Entry>, turns: seq<nat>, clock: nat, freed: bool)

  function Initial(listenFd: int): State {
    State(listenFd, [], [], {listenFd}, listenFd, [], 0, 0, 0, [], [], 0, false)
  }

  // ---------------------------------------------------------------- environment

  /** One call to write_buf_to_client(): what its write()s answer, and whether errno is EPIPE or ECONNRESET. */
  datatype WriteEnv = WriteEnv(counts: nat -> int, fatal: bool)

  /** The k-th call to write_buf_to_client() of the run meets `env(k)`. */
  type Env = nat -> WriteEnv

  /** One select() round: the client accepted, if any, the ready descriptors, and what each read answers. */
  datatype Round = Round(accept: seq<int>, ready: set<int>, answers: int -> ReadOutcome)

  /** accept() gives a descriptor nobody holds; select() reports only descriptors it was given. */
  predicate Allowed(st: State, r: Round) {
    |r.accept| <= 1 && (forall fd :: fd in r.accept ==> fd !in st.fds) && r.ready <= st.fds
  }

  /** read() with `request` bytes of room. */
  function Answer(o: ReadOutcome, request: nat): (a: ReadOutcome)
    ensures KernelAnswers(a, request)
  {
    if !o.Data? then o
    else if Min(|o.bytes|, request) == 0 then Eof
    else Data(Take(o.bytes, request))
  }

  // ---------------------------------------------------------------- texts

  /** "client%d" cut to a buffer of MAX_NAME bytes. */
  function ClientName(id: nat): string { Take("client" + Decimal(id), MAX_NAME - 1) }

  function RelayText(id: nat, msg: string): string {
    Take(ClientName(id), MAX_NAME) + " " + Take(CStr(msg), MAX_USER_MSG)
  }

  predicate AsksCount(msg: string) { CStr(msg) == "\\connected" }

  function WriteText(w: Write): string {
    match w
    case Relayed(text, _, _) => text
    case Counted(count, _, _) => Decimal(count) + "\n"
  }

  /** The byte stream a client is sent: whatever left of each write, one after the other. */
  function Sent(ws: seq<Write>): string {
    if ws == [] then "" else Sent(ws[..|ws| - 1]) + ws[|ws| - 1].bytes
  }

  /** The part of the frame of `text` that leaves. */
  function Leaves(text: string, w: WriteEnv): string {
    (text + CRLF)[..Accepted(|text| + 2, w.counts, 0)]
  }

  function WriteOutcome(text: string, w: WriteEnv): Outcome {
    if Accepted(|text| + 2, w.counts, 0) == |text| + 2 then Complete
    else if w.fatal then Broken else Lost
  }

  /** A write completes if and only if some number of write()s, taking something each, take the whole frame; otherwise
      the error decides whether it breaks the connection, and what leaves is what was taken before it. */
  lemma OutcomeIff(text: string, w: WriteEnv)
    ensures WriteOutcome(text, w) == Complete <==> exists k: nat :: Suffice(w.counts, |text + CRLF|, k)
    ensures WriteOutcome(text, w) == Complete ==> Leaves(text, w) == text + CRLF
    ensures WriteOutcome(text, w) != Complete ==>
      WriteOutcome(text, w) == (if w.fatal then Broken else Lost) && exists k: nat ::
        StopsAt(w.counts, |text + CRLF|, k) && 0 <= Total(w.counts, k) &&
        Leaves(text, w) == (text + CRLF)[..Total(w.counts, k)]
  {
    assert |text + CRLF| == |text| + 2;
    AcceptedIff(|text + CRLF|, w.counts);
  }

  /** If every write() takes at least one byte, no write fails. */
  lemma TakingCompletes(text: string, w: WriteEnv)
    requires AllTake(w.counts, |text| + 2)
    ensures WriteOutcome(text, w) == Complete && Leaves(text, w) == text + CRLF
  {
    assert |text + CRLF| == |text| + 2;
    TakingSuffices(w.counts, |text + CRLF|);
    OutcomeIff(text, w);
  }

  /** The request, as strncmp(msg, ..., 11) finds it: its ten bytes, and then the end of the message or a NUL. */
  predicate IsRequest(msg: string) {
    |msg| >= 10 && msg[..10] == "\\connected" && (|msg| == 10 || msg[10] == NUL)
  }

  lemma AsksCountIff(msg: string)
    ensures AsksCount(msg) <==> IsRequest(msg)
  {
    var r := "\\connected";
    CStrIff(msg, r);
    assert |msg| >= 10 ==> (r <= msg <==> msg[..10] == r);
    assert |msg| == 10 && r <= msg ==> msg == r;
  }

  // ---------------------------------------------------------------- one message

  function Attempt(p: Peer, text: string, w: WriteEnv): Peer {
    p.(writes := p.writes + [Relayed(text, WriteOutcome(text, w), Leaves(text, w))])
  }

  /** The clients that stay after `text` was written to all of `ps` in order. */
  function Kept(ps: seq<Peer>, text: string, env: Env, clock: nat): seq<Peer> {
    if ps == [] then []
    else if WriteOutcome(text, env(clock)) == Broken then Kept(ps[1..], text, env, clock + 1)
    else [Attempt(ps[0], text, env(clock))] + Kept(ps[1..], text, env, clock + 1)
  }

  /** The clients that are disconnected while `text` is written to all of `ps` in order. */
  function Cut(ps: seq<Peer>, text: string, env: Env, clock: nat): seq<Peer> {
    if ps == [] then []
    else if WriteOutcome(text, env(clock)) == Broken
      then [Attempt(ps[0], text, env(clock))] + Cut(ps[1..], text, env, clock + 1)
    else Cut(ps[1..], text, env, clock + 1)
  }

  function Fds(ps: seq<Peer>): set<int> { set p | p in ps :: p.fd }

  function Serials(ps: seq<Peer>): seq<nat> { seq(|ps|, i requires 0 <= i < |ps| => ps[i].serial) }

  function AllGone(ps: seq<Peer>, left: nat): seq<Gone> { seq(|ps|, i requires 0 <= i < |ps| => Gone(ps[i], left)) }

  /** The position of the client with serial `s`, or |ps|. */
  function IndexOf(ps: seq<Peer>, s: nat): (i: nat)
    ensures i <= |ps|
    ensures i < |ps| ==> ps[i].serial == s
  {
    if ps == [] || ps[0].serial == s then 0 else 1 + IndexOf(ps[1..], s)
  }

  /** The log entry of a message of the i-th client. */
  function Logged(st: State, i: nat, msg: string, env: Env): Entry
    requires i < |st.peers|
  {
    var text := RelayText(st.peers[i].id, msg);
    Entry(st.peers[i].serial, text, WriteOutcome(text, env(st.clock + i)))
  }

  function Relay(st: State, s: nat, msg: string, env: Env): State {
    var i := IndexOf(st.peers, s);
    if i == |st.peers| then st
    else
      var text := RelayText(st.peers[i].id, msg);
      var cut := Cut(st.peers, text, env, st.clock);
      st.(peers := Kept(st.peers, text, env, st.clock),
          gone := st.gone + AllGone(cut, |st.log| + 1),
          fds := st.fds - Fds(cut),
          dropped := st.dropped + |cut|,
          log := st.log + [Logged(st, i, msg, env)],
          clock := st.clock + |st.peers|,
          freed := st.freed || exists p :: p in cut && p.serial == s)
  }

  /** The answer to `\connected` as it enters the history of the client. */
  function Answered(st: State, env: Env): Write {
    var text, w := Decimal(st.connected) + "\n", env(st.clock);
    Counted(st.connected, WriteOutcome(text, w), Leaves(text, w))
  }

  function AnswerCount(st: State, s: nat, env: Env): State {
    var i := IndexOf(st.peers, s);
    if i == |st.peers| then st
    else
      var p := st.peers[i];
      st.(peers := st.peers[i := p.(writes := p.writes + [Answered(st, env)])], clock := st.clock + 1)
  }

  function Handle(st: State, s: nat, msg: string, env: Env): State {
    if AsksCount(msg) then AnswerCount(st, s, env) else Relay(st, s, msg, env)
  }

  /** Takes the message at the front of a client's buffer out of it. */
  function Pop(st: State, s: nat, msg: string): State {
    var i := IndexOf(st.peers, s);
    if i == |st.peers| || |st.peers[i].pending| < |msg| + 2 then st
    else st.(peers := st.peers[i := st.peers[i].(pending := st.peers[i].pending[|msg| + 2..])])
  }

  function Drain(st: State, s: nat, msgs: seq<string>, env: Env): State
    decreases |msgs|
  {
    if msgs == [] || st.freed then st
    else Drain(Handle(Pop(st, s, msgs[0]), s, msgs[0], env), s, msgs[1..], env)
  }

  // ---------------------------------------------------------------- one client's turn

  function Fill(st: State, i: nat, bytes: string): State
    requires i < |st.peers|
  {
    var p := st.peers[i];
    st.(peers := st.peers[i := p.(pending := p.pending + bytes, rcvd := p.rcvd + bytes)],
        turns := st.turns + [p.serial])
  }

  /** A name is given with the first complete message. */
  function Named(st: State, i: nat): State
    requires i < |st.peers|
  {
    var p := st.peers[i];
    if p.id != 0 then st
    else st.(peers := st.peers[i := p.(id := |st.named| + 1)], named := st.named + [p.serial])
  }

  function Close(st: State, i: nat): State
    requires i < |st.peers|
  {
    var p := st.peers[i];
    st.(peers := st.peers[..i] + st.peers[i+1..], gone := st.gone + [Gone(p, |st.log|)],
        fds := st.fds - {p.fd}, connected := st.connected - 1, turns := st.turns + [p.serial])
  }

  function Serve(st: State, s: nat, r: Round, env: Env): State {
    var i := IndexOf(st.peers, s);
    if st.freed || i == |st.peers| || st.peers[i].fd !in r.ready then st
    else
      var p := st.peers[i];
      match Answer(r.answers(p.fd), if |p.pending| <= USABLE then USABLE - |p.pending| else 0)
      case Data(bytes) =>
        if FirstEnd(p.pending + bytes) == -1 then Fill(st, i, bytes)
        else Drain(Named(Fill(st, i, bytes), i), s, Messages(p.pending + bytes), env)
      case _ => Close(st, i)
  }

  // ---------------------------------------------------------------- rounds and runs

  /** Serves each client of `todo` that is still there when its turn comes. */
  function ServeAll(st: State, todo: seq<nat>, r: Round, env: Env): State
    decreases |todo|
  {
    if todo == [] then st else ServeAll(Serve(st, todo[0], r, env), todo[1..], r, env)
  }

  function Accept(st: State, fd: int): State {
    st.(peers := st.peers + [Peer(st.accepted, fd, 0, "", "", |st.log|, [])],
        fds := st.fds + {fd}, maxFd := if fd > st.maxFd then fd else st.maxFd,
        accepted := st.accepted + 1, connected := st.connected + 1)
  }

  function Admit(st: State, r: Round): State { if r.accept == [] then st else Accept(st, r.accept[0]) }

  function RunRound(st: State, r: Round, env: Env): State {
    var admitted := Admit(st, r);
    ServeAll(admitted, Serials(admitted.peers), r, env)
  }

  /** All rounds of a run. */
  function Run(st: State, rs: seq<Round>, env: Env): State
    decreases |rs|
  {
    if rs == [] then st else Run(RunRound(st, rs[0], env), rs[1..], env)
  }

  ghost predicate AllAllowed(st: State, rs: seq<Round>, env: Env)
    decreases |rs|
  {
    rs != [] ==> Allowed(st, rs[0]) && AllAllowed(RunRound(st, rs[0], env), rs[1..], env)
  }
}
