/** The chat server over its linked list of clients (src/server.c, src/chat_helpers.c): every method computes the
    step of Chat on the value `st` that the list, the buffers and the counters stand for. */
module ChatServer {
  import opened Text
  import opened Framing
  import opened Socket
  import opened Chat
  import opened ChatInvariant
  import opened ChatSteps
  import opened ChatRounds
  import opened ChatWalk
  import opened ChatWire

  /** struct client_socket. */
  class Client {
    ghost const serial: nat
    const sockFd: int
    const buf: array<char>
    var username: Option<string>
    var inbuf: nat
    var next: Client?
    /** The bytes that write() took on its descriptor so far. */
    ghost var sent: string

    constructor (fd: int, ghost serial: nat)
      ensures this.serial == serial && sockFd == fd && username == None && inbuf == 0 && next == null && sent == ""
      ensures fresh(buf) && buf.Length == BUF_SIZE
    {
      this.serial := serial;
      sockFd, username, inbuf, next, sent := fd, None, 0, null, "";
      buf := new char[BUF_SIZE](_ => NUL);
    }

    /** The bytes received and not yet handled. */
    ghost function Pending(): string
      reads this`inbuf, buf
    {
      if inbuf <= buf.Length then buf[..inbuf] else ""
    }

    ghost predicate Represents(p: Peer)
      reads this`username, this`inbuf, this`sent, buf
    {
      && serial == p.serial && sockFd == p.fd && sent == Sent(p.writes)
      && username == (if p.id == 0 then None else Some(ClientName(p.id)))
      && buf.Length == BUF_SIZE && inbuf <= USABLE && Pending() == p.pending
    }
  }

  /** The k-th node, or the end of the list. */
  ghost function At(nodes: seq<Client>, k: nat): Client? { if k < |nodes| then nodes[k] else null }

  /** Following `next` from any of `nodes` leads through the rest of them to the end. */
  ghost predicate Chain(nodes: seq<Client>)
    reads nodes`next
  {
    forall i {:trigger nodes[i].next} :: 0 <= i < |nodes| ==> nodes[i].next == At(nodes, i + 1)
  }

  /** No two positions share a node or a buffer. */
  ghost predicate Separate(nodes: seq<Client>) {
    forall i, j :: 0 <= i < j < |nodes| ==> nodes[i] != nodes[j] && nodes[i].buf != nodes[j].buf
  }

  ghost function Bufs(nodes: seq<Client>): set<array<char>> { set n | n in nodes :: n.buf }

  ghost predicate Represent(nodes: seq<Client>, ps: seq<Peer>)
    reads nodes`username, nodes`inbuf, nodes`sent, set n | n in nodes :: n.buf
    ensures Represent(nodes, ps) ==> |nodes| == |ps|
  {
    |nodes| == |ps| && forall i :: 0 <= i < |nodes| ==> nodes[i].Represents(ps[i])
  }

  lemma RepresentAppend(nodes: seq<Client>, ps: seq<Peer>, n: Client, p: Peer)
    requires Represent(nodes, ps) && n.Represents(p)
    ensures Represent(nodes + [n], ps + [p])
  {
  }

  lemma RepresentWithout(nodes: seq<Client>, ps: seq<Peer>, k: nat)
    requires Represent(nodes, ps) && k < |nodes|
    ensures Represent(nodes[..k] + nodes[k+1..], ps[..k] + ps[k+1..])
  {
  }

  lemma RepresentLength(nodes: seq<Client>, ps: seq<Peer>)
    requires Represent(nodes, ps)
    ensures |nodes| == |ps|
  {
  }

  lemma RepresentAt(nodes: seq<Client>, ps: seq<Peer>, k: nat)
    requires Represent(nodes, ps) && k < |nodes|
    ensures nodes[k].Represents(ps[k])
  {
  }

  /** A node stores nothing else of its client's history. */
  lemma RepresentHistory(nodes: seq<Client>, ps: seq<Peer>, k: nat, p: Peer)
    requires Represent(nodes, ps) && k < |nodes|
    requires p.serial == ps[k].serial && p.fd == ps[k].fd && p.id == ps[k].id && p.pending == ps[k].pending
    requires p.writes == ps[k].writes
    ensures Represent(nodes, ps[k := p])
  {
  }

  lemma AcceptAscending(st: State, fd: int)
    requires Ascending(st.peers, st.accepted)
    ensures Ascending(Accept(st, fd).peers, Accept(st, fd).accepted)
  {
  }

  lemma SeparateWithout(nodes: seq<Client>, k: nat)
    requires Separate(nodes) && k < |nodes|
    ensures Separate(nodes[..k] + nodes[k+1..])
    ensures nodes[k] !in nodes[..k] + nodes[k+1..]
  {
    var rest := nodes[..k] + nodes[k+1..];
    assert forall i :: 0 <= i < |rest| ==> rest[i] == nodes[if i < k then i else i + 1];
  }

  lemma SameSerials(nodes: seq<Client>, ps: seq<Peer>)
    requires Represent(nodes, ps)
    ensures |nodes| == |ps| && forall i :: 0 <= i < |ps| ==> nodes[i].serial == ps[i].serial
  {
  }

  lemma RelayIs(st: State, s: nat, text: string, msg: string, env: Env)
    requires IndexOf(st.peers, s) < |st.peers| && Ascending(st.peers, st.accepted) && !Relay(st, s, msg, env).freed
    requires text == RelayText(st.peers[IndexOf(st.peers, s)].id, msg)
    ensures |text| + 2 <= BUF_SIZE
    ensures var st' := Relay(st, s, msg, env);
      && st'.peers == Kept(st.peers, text, env, st.clock) && st'.clock == st.clock + |st.peers|
      && st'.fds == st.fds - Fds(Cut(st.peers, text, env, st.clock))
      && st'.maxFd == st.maxFd && st'.named == st.named && st'.connected == st.connected
      && st'.listenFd == st.listenFd && st'.accepted == st.accepted && Ascending(st'.peers, st'.accepted)
      && exists q :: q in st'.peers && q.serial == s
  {
    FanoutAscending(st.peers, text, env, st.clock, st.accepted);
    SenderStays(st.peers, text, env, st.clock, IndexOf(st.peers, s));
  }

  lemma AnswerCountIs(st: State, s: nat, env: Env)
    requires IndexOf(st.peers, s) < |st.peers| && Ascending(st.peers, st.accepted)
    ensures var i, st' := IndexOf(st.peers, s), AnswerCount(st, s, env);
      && st'.peers == st.peers[i := st.peers[i].(writes := st.peers[i].writes + [Answered(st, env)])]
      && Ascending(st'.peers, st'.accepted)
      && Answered(st, env).bytes == Leaves(Decimal(st.connected) + "\n", env(st.clock))
      && st' == st.(peers := st'.peers, clock := st.clock + 1)
  {
    var i, st' := IndexOf(st.peers, s), AnswerCount(st, s, env);
    ReplaceKeeps(st.peers, i, st'.peers[i], st.accepted);
  }

  lemma FillFacts(st: State, k: nat, bytes: string)
    requires k < |st.peers| && Ascending(st.peers, st.accepted)
    ensures var p, f := st.peers[k], Fill(st, k, bytes);
      var q := p.(pending := p.pending + bytes);
      && |f.peers| == |st.peers| && f.peers == st.peers[k := q][k := q.(rcvd := f.peers[k].rcvd)]
      && f.peers[k] == q.(rcvd := f.peers[k].rcvd)
      && f == st.(peers := f.peers, turns := f.turns)
      && Ascending(f.peers, f.accepted)
  {
    ReplaceKeeps(st.peers, k, Fill(st, k, bytes).peers[k], st.accepted);
  }

  lemma NamedFacts(st: State, k: nat)
    requires k < |st.peers| && Ascending(st.peers, st.accepted)
    ensures var p, n := st.peers[k], Named(st, k);
      && (if p.id == 0
          then n.peers == st.peers[k := p.(id := |st.named| + 1)] &&
               n == st.(peers := n.peers, named := n.named) && |n.named| == |st.named| + 1
          else n == st)
      && Ascending(n.peers, n.accepted)
  {
    ReplaceKeeps(st.peers, k, Named(st, k).peers[k], st.accepted);
  }

  /** After a read of `bytes` from the client at `k`. */
  function Received(st: State, k: nat, bytes: string, env: Env): State {
    if k >= |st.peers| then st
    else
      var p := st.peers[k];
      if FirstEnd(p.pending + bytes) == -1 then Fill(st, k, bytes)
      else Drain(Named(Fill(st, k, bytes), k), p.serial, Messages(p.pending + bytes), env)
  }

  /** The turn of the client at `k`. */
  lemma TurnIs(st: State, k: nat, r: Round, env: Env)
    requires k < |st.peers| && IndexOf(st.peers, st.peers[k].serial) == k && |st.peers[k].pending| <= USABLE
    requires !Serve(st, st.peers[k].serial, r, env).freed
    ensures var p, st' := st.peers[k], Serve(st, st.peers[k].serial, r, env);
      if p.fd !in r.ready then st' == st
      else match Answer(r.answers(p.fd), USABLE - |p.pending|)
        case Data(bytes) => st' == Received(st, k, bytes, env)
        case _ => st' == Close(st, k)
  {
  }

  lemma PopIs(st: State, k: nat, msg: string, rest: string)
    requires k < |st.peers| && Ascending(st.peers, st.accepted) && st.peers[k].pending == msg + CRLF + rest
    ensures Pop(st, st.peers[k].serial, msg) == st.(peers := st.peers[k := st.peers[k].(pending := rest)])
    ensures Ascending(Pop(st, st.peers[k].serial, msg).peers, st.accepted)
  {
    IndexFound(st.peers, k, st.accepted);
    assert (msg + CRLF + rest)[|msg| + 2..] == rest;
    ReplaceKeeps(st.peers, k, st.peers[k].(pending := rest), st.accepted);
  }

  lemma CloseFacts(st: State, k: nat)
    requires k < |st.peers| && Ascending(st.peers, st.accepted)
    ensures var c := Close(st, k);
      && c.peers == st.peers[..k] + st.peers[k+1..]
      && c.fds == st.fds - {st.peers[k].fd} && c.connected == st.connected - 1
      && c == st.(peers := c.peers, fds := c.fds, connected := c.connected, gone := c.gone, turns := c.turns)
      && Ascending(c.peers, c.accepted) && Beyond(c.peers, st.peers[k].serial, k)
  {
    var c := Close(st, k);
    assert forall i :: 0 <= i < |c.peers| ==> c.peers[i] == st.peers[if i < k then i else i + 1];
  }

  lemma BeyondAt(ps: seq<Peer>, k: nat, bound: nat)
    requires k < |ps| && Ascending(ps, bound)
    ensures Beyond(ps, ps[k].serial, k + 1)
  {
  }

  lemma WalkStart(st: State, r: Round, env: Env)
    ensures Onward(st.peers, 0) == Serials(st.peers)
  {
  }

  /** The next turn of a walk keeps the invariant and frees nobody. */
  lemma WalkTurn(st: State, j: nat, r: Round, env: Env)
    requires Inv(st) && j < |st.peers| && !ServeAll(st, Onward(st.peers, j), r, env).freed
    ensures var st' := Serve(st, st.peers[j].serial, r, env);
      !st'.freed && Inv(st') && st'.accepted == st.accepted
  {
    hide Inv, Serve, ServeAll;
    assert Onward(st.peers, j)[0] == st.peers[j].serial;
    NextTurn(st, Onward(st.peers, j), r, env);
    ServeConstants(st, st.peers[j].serial, r, env);
    FreedForever(Serve(st, st.peers[j].serial, r, env), Onward(st.peers, j)[1..], r, env);
  }

  lemma WalkEnd(st: State, j: nat, r: Round, env: Env)
    requires j == |st.peers|
    ensures ServeAll(st, Onward(st.peers, j), r, env) == st
  {
    assert Onward(st.peers, j) == [];
  }

  lemma RunFreedLater(st: State, rs: seq<Round>, env: Env)
    requires rs != [] && !Run(st, rs, env).freed
    ensures !RunRound(st, rs[0], env).freed
    ensures RunRound(st, rs[0], env).accepted <= st.accepted + 1
  {
    hide RunRound;
    RunFreed(RunRound(st, rs[0], env), rs[1..], env);
    RoundAccepts(st, rs[0], env);
  }

  lemma RoundAccepts(st: State, r: Round, env: Env)
    ensures RunRound(st, r, env).accepted <= st.accepted + 1
  {
    var admitted := Admit(st, r);
    ServeAllAccepts(admitted, Serials(admitted.peers), r, env);
  }

  lemma {:induction false} ServeAllAccepts(st: State, todo: seq<nat>, r: Round, env: Env)
    ensures ServeAll(st, todo, r, env).accepted == st.accepted
    decreases |todo|
  {
    if todo != [] {
      ServeConstants(st, todo[0], r, env);
      ServeAllAccepts(Serve(st, todo[0], r, env), todo[1..], r, env);
    }
  }

  lemma DrainStep(st: State, s: nat, ms: seq<string>, env: Env)
    requires !Drain(st, s, ms, env).freed
    ensures ms == [] ==> Drain(st, s, ms, env) == st
    ensures ms != [] ==>
      var st' := Handle(Pop(st, s, ms[0]), s, ms[0], env);
      Drain(st, s, ms, env) == Drain(st', s, ms[1..], env) && !st'.freed
  {
    if ms != [] {
      FreedStays(Handle(Pop(st, s, ms[0]), s, ms[0], env), s, ms[1..], env);
    }
  }

  /** Nodes are told apart by the serials of the clients they stand for. */
  lemma StillThere(before: seq<Client>, ps: seq<Peer>, after: seq<Client>, qs: seq<Peer>, bound: nat, k: nat)
    requires |before| == |ps| && forall i :: 0 <= i < |ps| ==> before[i].serial == ps[i].serial
    requires |after| == |qs| && forall i :: 0 <= i < |qs| ==> after[i].serial == qs[i].serial
    requires Ascending(ps, bound) && k < |ps| && exists q :: q in qs && q.serial == ps[k].serial
    requires forall i :: 0 <= i < |after| ==> after[i] in before
    ensures before[k] in after
  {
    var q :| q in qs && q.serial == ps[k].serial;
    var i :| 0 <= i < |qs| && qs[i] == q;
    var j :| 0 <= j < |before| && before[j] == after[i];
    assert ps[j].serial == ps[k].serial;
  }

  /** The clients after a write to the k-th of them. */
  function Sifted(ps: seq<Peer>, k: nat, text: string, w: WriteEnv): (r: seq<Peer>)
    requires k < |ps|
    ensures |r| == if WriteOutcome(text, w) == Broken then |ps| - 1 else |ps|
  {
    if WriteOutcome(text, w) == Broken then ps[..k] + ps[k+1..] else ps[k := Attempt(ps[k], text, w)]
  }

  /** A fan-out over `ps` has come to position `k` of what is left of it, `all`. */
  ghost predicate Midway(all: seq<Peer>, k: nat, cut: seq<Peer>, text: string, env: Env, clock: nat,
                         ps: seq<Peer>, start: nat) {
    && k <= |all| && clock + |all| - k == start + |ps|
    && all[..k] + Kept(all[k..], text, env, clock) == Kept(ps, text, env, start)
    && cut + Cut(all[k..], text, env, clock) == Cut(ps, text, env, start)
  }

  lemma MidwayStart(text: string, env: Env, start: nat, ps: seq<Peer>)
    ensures Midway(ps, 0, [], text, env, start, ps, start)
  {
  }

  lemma MidwayStep(all: seq<Peer>, k: nat, cut: seq<Peer>, text: string, env: Env, clock: nat, ps: seq<Peer>, start: nat)
    requires Midway(all, k, cut, text, env, clock, ps, start) && k < |all|
    ensures var broken := WriteOutcome(text, env(clock)) == Broken;
      Midway(Sifted(all, k, text, env(clock)), if broken then k else k + 1,
             if broken then cut + [Attempt(all[k], text, env(clock))] else cut, text, env, clock + 1, ps, start)
    ensures Fds(cut + [Attempt(all[k], text, env(clock))]) == Fds(cut) + {all[k].fd}
  {
    var a, rest := Attempt(all[k], text, env(clock)), all[k..];
    hide Attempt, WriteOutcome;
    AttemptFd(all[k], text, env(clock));
    assert forall q :: q in cut + [a] <==> q in cut || q == a;
    assert rest[1..] == all[k+1..];
    if WriteOutcome(text, env(clock)) == Broken {
      var next := all[..k] + all[k+1..];
      assert next[..k] == all[..k] && next[k..] == rest[1..];
    } else {
      var next := all[k := a];
      assert next[..k+1] == all[..k] + [a] && next[k+1..] == rest[1..];
    }
  }

  lemma AttemptFd(p: Peer, text: string, w: WriteEnv)
    ensures Attempt(p, text, w).fd == p.fd
  {
  }

  lemma MidwayEnd(all: seq<Peer>, k: nat, cut: seq<Peer>, text: string, env: Env, clock: nat, ps: seq<Peer>, start: nat)
    requires Midway(all, k, cut, text, env, clock, ps, start) && k == |all|
    ensures all == Kept(ps, text, env, start) && cut == Cut(ps, text, env, start) && clock == start + |ps|
  {
    assert all[..k] == all && all[k..] == [];
  }

  /** What write_to_socket() makes of a frame. */
  lemma WriteIs(text: string, w: WriteEnv)
    ensures Leaves(text, w) == (text + CRLF)[..Accepted(|text + CRLF|, w.counts, 0)]
    ensures WriteOutcome(text, w) == if Leaves(text, w) == text + CRLF then Complete else if w.fatal then Broken else Lost
  {
    assert |text + CRLF| == |text| + 2;
  }

  function Ret(o: Outcome): int { match o case Complete => 0 case Lost => 1 case Broken => 2 }

  class Server {
    const listenFd: int
    var clients: Client?
    var allFds: set<int>
    var maxFd: int
    var clientId: nat
    var clientConnected: int
    /** How many calls to write_buf_to_client() were made: the position in the environment. */
    var writes: nat
    ghost var nodes: seq<Client>
    ghost var st: State

    /** `nodes` is the list that starts at `clients`: no cycle, no sharing. */
    ghost predicate Linked()
      reads this`clients, this`nodes, nodes`next
    {
      clients == At(nodes, 0) && Chain(nodes) && Separate(nodes)
    }

    ghost predicate Valid()
      reads this, nodes, set n | n in nodes :: n.buf
    {
      && Linked() && Represent(nodes, st.peers) && Ascending(st.peers, st.accepted)
      && allFds == st.fds && maxFd == st.maxFd && clientId == |st.named| && clientConnected == st.connected
      && listenFd == st.listenFd && writes == st.clock
    }

    constructor (listenFd: int)
      ensures Valid() && st == Initial(listenFd) && nodes == []
    {
      this.listenFd := listenFd;
      clients, clientId, clientConnected, writes := null, 0, 0, 0;
      allFds, maxFd := {listenFd}, listenFd;
      nodes, st := [], Initial(listenFd);
    }

    /** Walks to the last node and hangs `newclient` behind it. */
    method Append(newclient: Client)
      requires Linked() && newclient.next == null && newclient !in nodes && newclient.buf !in Bufs(nodes)
      modifies this`clients, this`nodes, nodes`next
      ensures Linked() && nodes == old(nodes) + [newclient]
    {
      var curr := clients;
      ghost var k := 0;
      while curr != null && curr.next != null
        invariant curr == At(nodes, k) && (nodes != [] ==> k < |nodes|)
        decreases |nodes| - k
      {
        curr := curr.next;
        k := k + 1;
      }
      if clients == null {
        clients := newclient;
      } else {
        curr.next := newclient;
      }
      nodes := nodes + [newclient];
    }

    /** The counter, and what run_server() does with a new descriptor. */
    method Register(fd: int)
      modifies this`clientConnected, this`maxFd, this`allFds, this`st
      ensures st == Accept(old(st), fd)
      ensures clientConnected == old(clientConnected) + 1 && allFds == old(allFds) + {fd}
      ensures maxFd == if fd > old(maxFd) then fd else old(maxFd)
    {
      clientConnected := clientConnected + 1;
      if fd > maxFd {
        maxFd := fd;
      }
      allFds := allFds + {fd};
      st := Accept(st, fd);
    }

    /** accept_connection() and the descriptor bookkeeping after it. */
    method AcceptConnection(fd: int)
      requires Valid()
      modifies this, nodes`next
      ensures Valid() && st == Accept(old(st), fd)
      ensures |nodes| == |old(nodes)| + 1 && nodes[..|old(nodes)|] == old(nodes)
      ensures fresh(nodes[|old(nodes)|]) && fresh(nodes[|old(nodes)|].buf)
    {
      hide Ascending, Represent, Chain, Separate;
      var newclient := new Client(fd, st.accepted);
      Append(newclient);
      RepresentAppend(old(nodes), st.peers, newclient, Peer(st.accepted, fd, 0, "", "", |st.log|, []));
      AcceptAscending(st, fd);
      Register(fd);
    }

    /** remove_client(): unlinks `curr` and returns the client after it. */
    method RemoveClient(curr: Client, ghost k: nat) returns (next: Client?)
      requires Linked() && k < |nodes| && nodes[k] == curr
      modifies this`clients, this`nodes, nodes`next
      ensures Linked() && nodes == old(nodes[..k] + nodes[k+1..])
      ensures next == At(nodes, k)
    {
      next := curr.next;
      if clients == curr {
        clients := curr.next;
      } else {
        var cur := clients;
        ghost var j := 0;
        while cur.next != curr
          invariant 0 <= j < k && nodes[j] == cur
          decreases k - j
        {
          cur := cur.next;
          j := j + 1;
        }
        cur.next := curr.next;
      }
      SeparateWithout(nodes, k);
      nodes := nodes[..k] + nodes[k+1..];
    }

    /** write_buf_to_client(): the text and its terminator, in one buffer. What write() takes of it before it fails is
        on the connection for good. */
    method WriteBufToClient(c: Client, text: string, env: Env) returns (ret: int)
      requires |text| + 2 <= BUF_SIZE
      modifies this`writes, c`sent
      ensures ret == Ret(WriteOutcome(text, env(old(writes)))) && writes == old(writes) + 1
      ensures c.sent == old(c.sent) + Leaves(text, env(old(writes)))
      ensures ret == if Leaves(text, env(old(writes))) == text + CRLF then 0 else if env(old(writes)).fatal then 2 else 1
    {
      hide WriteOutcome, Leaves, Accepted;
      WriteIs(text, env(writes));
      var sendBuf := new char[BUF_SIZE](_ => NUL);
      forall i | 0 <= i < |text| { sendBuf[i] := text[i]; }
      sendBuf[|text|] := '\r';
      sendBuf[|text| + 1] := '\n';
      assert sendBuf[..|text| + 2] == text + CRLF;
      var result, taken := WriteToSocket(sendBuf[..|text| + 2], env(writes).counts);
      ret := if result == 0 then 0 else if env(writes).fatal then 2 else 1;
      writes, c.sent := writes + 1, c.sent + taken;
    }

    /** The k-th client is written to; `w` is how that goes into its history. */
    method WriteTo(c: Client, text: string, env: Env, ghost k: nat, ghost ps: seq<Peer>, ghost w: Write)
      returns (ret: int)
      requires |text| + 2 <= BUF_SIZE && w.bytes == Leaves(text, env(writes))
      requires Separate(nodes) && Represent(nodes, ps) && k < |nodes| && nodes[k] == c
      modifies this`writes, c`sent
      ensures ret == Ret(WriteOutcome(text, env(old(writes)))) && writes == old(writes) + 1
      ensures Represent(nodes, ps[k := ps[k].(writes := ps[k].writes + [w])])
    {
      hide Leaves, WriteOutcome, Sent;
      assert c.Represents(ps[k]);
      ret := WriteBufToClient(c, text, env);
      SentAppend(ps[k].writes, w);
      forall i | 0 <= i < |nodes| && i != k
        ensures nodes[i].Represents(ps[i])
      {
        assert nodes[i] != c;
        assert old(nodes[i].Represents(ps[i]));
      }
    }

    /** The connection of `dest` is over: its descriptor goes, and its node. */
    method Drop(dest: Client, ghost k: nat, ghost ps: seq<Peer>) returns (next: Client?)
      requires Linked() && Represent(nodes, ps) && k < |nodes| && nodes[k] == dest
      modifies this`clients, this`nodes, this`allFds, nodes`next
      ensures Linked() && Represent(nodes, ps[..k] + ps[k+1..]) && next == At(nodes, k)
      ensures allFds == old(allFds) - {ps[k].fd}
      ensures nodes == old(nodes[..k] + nodes[k+1..])
    {
      hide Linked, Represent;
      RepresentAt(nodes, ps, k);
      allFds := allFds - {dest.sockFd};
      RepresentWithout(nodes, ps, k);
      next := RemoveClient(dest, k);
    }

    /** One write of a fan-out; returns the client to write to next. */
    method FanoutOne(dest: Client, text: string, env: Env, ghost k: nat, ghost ps: seq<Peer>) returns (next: Client?)
      requires Linked() && Represent(nodes, ps) && k < |nodes| && nodes[k] == dest && |text| + 2 <= BUF_SIZE
      modifies this`clients, this`nodes, this`allFds, this`writes, nodes`next, dest`sent
      ensures Linked() && Represent(nodes, Sifted(ps, k, text, env(old(writes))))
      ensures writes == old(writes) + 1
      ensures WriteOutcome(text, env(old(writes))) == Broken ==> next == At(nodes, k) && allFds == old(allFds) - {ps[k].fd}
      ensures WriteOutcome(text, env(old(writes))) != Broken ==> next == At(nodes, k + 1) && allFds == old(allFds)
      ensures forall i :: 0 <= i < |nodes| ==> nodes[i] in old(nodes)
    {
      hide Represent, WriteOutcome, Leaves;
      ghost var e := env(writes);
      ghost var w := Relayed(text, WriteOutcome(text, e), Leaves(text, e));
      ghost var qs := ps[k := Attempt(ps[k], text, e)];
      RepresentLength(nodes, ps);
      assert qs[..k] + qs[k+1..] == ps[..k] + ps[k+1..];
      var ret := WriteTo(dest, text, env, k, ps, w);
      if ret == 2 {
        next := Drop(dest, k, qs);
      } else {
        next := dest.next;
      }
    }

    /** Writes `text` to every client in list order; unlinks those whose connection broke. */
    method Fanout(text: string, env: Env, ghost ps: seq<Peer>)
      requires Linked() && Represent(nodes, ps) && |text| + 2 <= BUF_SIZE
      modifies this`clients, this`nodes, this`allFds, this`writes, nodes`next, nodes`sent
      ensures Linked() && Represent(nodes, Kept(ps, text, env, old(writes)))
      ensures allFds == old(allFds) - Fds(Cut(ps, text, env, old(writes))) && writes == old(writes) + |ps|
      ensures forall i :: 0 <= i < |nodes| ==> nodes[i] in old(nodes)
    {
      hide Midway, Represent, Sifted, Kept, Cut;
      var dest := clients;
      MidwayStart(text, env, writes, ps);
      ghost var all, k, cut, clock := ps, 0, [], writes;
      while dest != null
        invariant Linked() && Represent(nodes, all) && dest == At(nodes, k)
        invariant k <= |all| && Midway(all, k, cut, text, env, clock, ps, old(writes))
        invariant allFds == old(allFds) - Fds(cut) && writes == clock
        invariant forall i :: 0 <= i < |nodes| ==> nodes[i] in old(nodes)
        decreases |all| - k
      {
        ghost var broken := WriteOutcome(text, env(clock)) == Broken;
        MidwayStep(all, k, cut, text, env, clock, ps, old(writes));
        dest := FanoutOne(dest, text, env, k, all);
        all, k, cut, clock := Sifted(all, k, text, env(clock)), if broken then k else k + 1,
                              if broken then cut + [Attempt(all[k], text, env(clock))] else cut, clock + 1;
      }
      MidwayEnd(all, k, cut, text, env, clock, ps, old(writes));
    }

    lemma NextIs(k: nat)
      requires Linked() && k < |nodes|
      ensures nodes[k].next == At(nodes, k + 1)
    {
    }

    lemma NoSharing()
      requires Linked()
      ensures Separate(nodes)
    {
    }

    /** The position of a node is the position of the client it stands for. */
    lemma Locate(curr: Client) returns (k: nat)
      requires Valid() && curr in nodes
      ensures k < |nodes| && nodes[k] == curr && IndexOf(st.peers, curr.serial) == k
      ensures st.peers[k].serial == curr.serial && curr.Represents(st.peers[k])
    {
      k :| 0 <= k < |nodes| && nodes[k] == curr;
      IndexFound(st.peers, k, st.accepted);
    }

    /** Relays one message of `curr` to everybody. */
    method Broadcast(curr: Client, msg: string, env: Env)
      requires Valid() && curr in nodes && curr.username.Some?
      requires !Relay(st, curr.serial, msg, env).freed
      modifies this`clients, this`nodes, this`allFds, this`writes, this`st, nodes`next, nodes`sent
      ensures Valid() && st == Relay(old(st), curr.serial, msg, env)
      ensures curr in nodes && forall i :: 0 <= i < |nodes| ==> nodes[i] in old(nodes)
    {
      hide Linked, Kept, Cut, Ascending, Represent, Relay, CStr;
      ghost var k := Locate(curr);
      var text := Take(curr.username.value, MAX_NAME) + Take(" ", MAX_NAME) + Take(CStr(msg), MAX_USER_MSG);
      RelayIs(st, curr.serial, text, msg, env);
      SameSerials(nodes, st.peers);
      Fanout(text, env, st.peers);
      SameSerials(nodes, Relay(st, curr.serial, msg, env).peers);
      StillThere(old(nodes), st.peers, nodes, Relay(st, curr.serial, msg, env).peers, st.accepted, k);
      st := Relay(st, curr.serial, msg, env);
    }

    /** Answers `\\connected`; how the write ends does not matter. */
    method SendCount(curr: Client, env: Env)
      requires Valid() && curr in nodes && 0 <= clientConnected <= INT_MAX
      modifies this`writes, this`st, curr`sent
      ensures Valid() && st == AnswerCount(old(st), curr.serial, env)
    {
      hide Ascending, Represent, AnswerCount, Leaves, WriteOutcome;
      ghost var k := Locate(curr);
      DecimalFits(clientConnected);
      AnswerCountIs(st, curr.serial, env);
      var ret := WriteTo(curr, Decimal(clientConnected) + "\n", env, k, st.peers, Answered(st, env));
      st := AnswerCount(st, curr.serial, env);
    }

    /** get_message() on the buffer of `curr`; no other node changes. */
    method TakeMessage(curr: Client, ghost k: nat, ghost ps: seq<Peer>) returns (ret: int, msg: string, ghost rest: string)
      requires Separate(nodes) && Represent(nodes, ps) && k < |nodes| && nodes[k] == curr
      modifies curr`inbuf, curr.buf
      ensures Represent(nodes, ps[k := ps[k].(pending := rest)])
      ensures var e := FirstEnd(ps[k].pending);
        if e == -1 then ret != 0 && rest == ps[k].pending
        else ret == 0 && msg == ps[k].pending[..e-2] && rest == ps[k].pending[e..]
    {
      var n;
      assert curr.Represents(ps[k]);
      ret, msg, n := GetMessage(curr.buf, curr.inbuf);
      curr.inbuf := n;
      rest := curr.buf[..n];
      forall i | 0 <= i < |nodes| && i != k
        ensures nodes[i].Represents(ps[i])
      {
        assert nodes[i].buf != curr.buf && nodes[i] != curr;
        assert old(nodes[i].Represents(ps[i]));
      }
      assert curr.Represents(ps[k].(pending := rest));
    }

    method NextMessage(curr: Client) returns (ret: int, msg: string)
      requires Valid() && curr in nodes
      modifies this`st, curr`inbuf, curr.buf
      ensures Valid()
      ensures var ms := Messages(old(curr.Pending()));
        if ms == [] then ret != 0 && st == old(st) && curr.Pending() == old(curr.Pending())
        else ret == 0 && msg == ms[0] && st == Pop(old(st), curr.serial, msg) && Messages(curr.Pending()) == ms[1..]
    {
      hide Linked, Ascending, Represent, Separate, Messages, FirstEnd, Pop;
      NoSharing();
      ghost var k := Locate(curr);
      ghost var p, rest := st.peers[k], "";
      ret, msg, rest := TakeMessage(curr, k, st.peers);
      RepresentAt(nodes, st.peers[k := p.(pending := rest)], k);
      if ret == 0 {
        FirstMessage(p.pending);
        PopIs(st, k, msg, rest);
        st := Pop(st, curr.serial, msg);
      } else {
        NoMessage(p.pending);
        assert st.peers[k := p.(pending := rest)] == st.peers;
      }
    }

    method HandleMessage(curr: Client, msg: string, env: Env)
      requires Valid() && curr in nodes && curr.username.Some? && 0 <= clientConnected <= INT_MAX
      requires !Handle(st, curr.serial, msg, env).freed
      modifies this`clients, this`nodes, this`allFds, this`writes, this`st, nodes`next, nodes`sent
      ensures Valid() && st == Handle(old(st), curr.serial, msg, env)
      ensures curr in nodes && forall i :: 0 <= i < |nodes| ==> nodes[i] in old(nodes)
    {
      hide Valid, Relay, AnswerCount;
      if CStr(msg) == "\\connected" {
        SendCount(curr, env);
      } else {
        Broadcast(curr, msg, env);
      }
    }

    /** Handles every complete message in the buffer of `curr`. */
    method DrainClient(curr: Client, env: Env)
      requires Valid() && curr in nodes && curr.username.Some? && 0 <= clientConnected <= INT_MAX
      requires !Drain(st, curr.serial, Messages(curr.Pending()), env).freed
      modifies this`clients, this`nodes, this`allFds, this`writes, this`st, nodes`next, nodes`sent, curr`inbuf, curr.buf
      ensures Valid() && st == Drain(old(st), curr.serial, Messages(old(curr.Pending())), env)
      ensures curr in nodes && forall i :: 0 <= i < |nodes| ==> nodes[i] in old(nodes)
    {
      hide Valid, Drain, Handle, Pop, FirstEnd, Messages;
      ghost var s, ms := curr.serial, Messages(curr.Pending());
      while true
        invariant Valid() && curr in nodes && curr.username.Some? && 0 <= clientConnected <= INT_MAX
        invariant ms == Messages(curr.Pending())
        invariant Drain(st, s, ms, env) == Drain(old(st), s, Messages(old(curr.Pending())), env)
        invariant forall i :: 0 <= i < |nodes| ==> nodes[i] in old(nodes)
        decreases |ms|
      {
        DrainStep(st, s, ms, env);
        var ret, msg := NextMessage(curr);
        if ret != 0 {
          break;
        }
        HandleMessage(curr, msg, env);
        ms := ms[1..];
      }
    }

    /** read_from_client(). */
    method ReadFromClient(curr: Client, o: ReadOutcome, ghost k: nat, ghost ps: seq<Peer>) returns (ret: int)
      requires Separate(nodes) && Represent(nodes, ps) && k < |nodes| && nodes[k] == curr
      requires curr.inbuf <= USABLE ==> KernelAnswers(o, USABLE - curr.inbuf)
      modifies curr`inbuf, curr.buf
      ensures Represent(nodes, ps[k := ps[k].(pending := ps[k].pending + (if o.Data? then o.bytes else ""))])
      ensures o.Eof? ==> ret == 1
      ensures o.Failure? ==> ret == -1
      ensures o.Data? ==> ret == if FirstEnd(ps[k].pending + o.bytes) != -1 then 0 else 2
    {
      assert curr.Represents(ps[k]);
      var n;
      ret, n := ReadFromSocket(curr.buf, curr.inbuf, o);
      curr.inbuf := n;
      forall i | 0 <= i < |nodes| && i != k
        ensures nodes[i].Represents(ps[i])
      {
        assert nodes[i].buf != curr.buf && nodes[i] != curr;
        assert old(nodes[i].Represents(ps[i]));
      }
      assert curr.Pending() == ps[k].pending + (if o.Data? then o.bytes else "");
    }

    /** set_username() with the next client_id. */
    method SetUsername(curr: Client, ghost k: nat, ghost ps: seq<Peer>)
      requires Separate(nodes) && Represent(nodes, ps) && k < |nodes| && nodes[k] == curr
      modifies this`clientId, curr`username
      ensures clientId == old(clientId) + 1 && curr.username.Some?
      ensures Represent(nodes, ps[k := ps[k].(id := clientId)])
    {
      clientId := clientId + 1;
      curr.username := Some(Take("client" + Decimal(clientId), MAX_NAME - 1));
      forall i | 0 <= i < |nodes| && i != k
        ensures nodes[i].Represents(ps[i])
      {
        assert nodes[i] != curr;
        assert old(nodes[i].Represents(ps[i]));
      }
      assert old(curr.Represents(ps[k]));
    }

    /** A client without a name gets one. */
    method NameClient(curr: Client)
      requires Valid() && curr in nodes
      modifies this`clientId, this`st, curr`username
      ensures Valid() && curr.username.Some?
      ensures IndexOf(old(st).peers, curr.serial) < |old(st).peers|
      ensures st == Named(old(st), IndexOf(old(st).peers, curr.serial))
    {
      hide Ascending, Represent, Named;
      ghost var k := Locate(curr);
      NamedFacts(st, k);
      if curr.username == None {
        SetUsername(curr, k, st.peers);
      }
      st := Named(st, k);
    }

    /** Reads once from `curr`, and names it when its first message is complete. */
    method FillClient(curr: Client, o: ReadOutcome) returns (ret: int)
      requires Valid() && curr in nodes
      requires curr.inbuf <= USABLE ==> KernelAnswers(o, USABLE - curr.inbuf)
      modifies this`clientId, this`st, curr`inbuf, curr.buf, curr`username
      ensures Valid()
      ensures ret == 1 <==> o.Eof?
      ensures ret == -1 <==> o.Failure?
      ensures ret == 0 ==> curr.username.Some?
      ensures !o.Data? ==> st == old(st)
      ensures o.Data? ==>
        var i, all := IndexOf(old(st).peers, curr.serial), old(curr.Pending()) + o.bytes;
        i < |old(st).peers| && curr.Pending() == all &&
        (ret == 0 <==> FirstEnd(all) != -1) &&
        st == if ret == 0 then Named(Fill(old(st), i, o.bytes), i) else Fill(old(st), i, o.bytes)
    {
      hide Linked, Ascending, Represent, Fill, Named, FirstEnd;
      NoSharing();
      ghost var k := Locate(curr);
      ghost var p := st.peers[k];
      ghost var bytes := if o.Data? then o.bytes else "";
      ret := ReadFromClient(curr, o, k, st.peers);
      ghost var read := st.peers[k := p.(pending := p.pending + bytes)];
      FillFacts(st, k, bytes);
      if o.Data? {
        RepresentHistory(nodes, read, k, Fill(st, k, bytes).peers[k]);
        st := Fill(st, k, bytes);
        RepresentAt(nodes, st.peers, k);
        IndexFound(st.peers, k, st.accepted);
        if ret == 0 {
          NameClient(curr);
        }
      } else {
        assert p.pending + "" == p.pending;
        assert read == st.peers;
      }
    }

    /** Closes the connection of `curr`; returns the client after it. */
    method CloseClient(curr: Client) returns (next: Client?, ghost j: nat)
      requires Valid() && curr in nodes
      modifies this`clients, this`nodes, this`allFds, this`clientConnected, this`st, nodes`next
      ensures Valid() && j == IndexOf(old(st).peers, curr.serial) < |old(st).peers| && st == Close(old(st), j)
      ensures next == At(nodes, j) && forall i :: 0 <= i < |nodes| ==> nodes[i] in old(nodes)
    {
      hide Ascending, Represent, Close, Chain, Separate;
      ghost var k := Locate(curr);
      CloseFacts(st, k);
      clientConnected := clientConnected - 1;
      st := Close(st, k);
      assert st.peers == old(st).peers[..k] + old(st).peers[k+1..];
      next := Drop(curr, k, old(st).peers);
      j := k;
    }

    /** One read from `curr`; every message that is then complete is handled. */
    method ReadTurn(curr: Client, o: ReadOutcome, env: Env) returns (closed: bool)
      requires Valid() && curr in nodes && 0 <= clientConnected <= INT_MAX
      requires curr.inbuf <= USABLE ==> KernelAnswers(o, USABLE - curr.inbuf)
      requires o.Data? ==> !Received(st, IndexOf(st.peers, curr.serial), o.bytes, env).freed
      modifies this`clients, this`nodes, this`allFds, this`clientId, this`writes, this`st
      modifies nodes`next, nodes`sent, curr`inbuf, curr.buf, curr`username
      ensures Valid() && curr in nodes && (closed <==> !o.Data?)
      ensures st == if closed then old(st) else Received(old(st), IndexOf(old(st).peers, curr.serial), o.bytes, env)
      ensures forall i :: 0 <= i < |nodes| ==> nodes[i] in old(nodes)
    {
      hide Valid, Fill, Named, Drain, Messages, FirstEnd;
      ghost var k := LocatePending(curr);
      var clientClosed := FillClient(curr, o);
      if clientClosed == 0 {
        DrainClient(curr, env);
      }
      closed := clientClosed == -1 || clientClosed == 1;
    }

    lemma LocatePending(curr: Client) returns (k: nat)
      requires Valid() && curr in nodes
      ensures k < |st.peers| && IndexOf(st.peers, curr.serial) == k && st.peers[k].pending == curr.Pending()
      ensures st.peers[k].serial == curr.serial
    {
      k := Locate(curr);
    }

    /** One turn of the client loop of run_server(); returns the client whose turn is next. */
    method ServeClient(curr: Client, r: Round, env: Env) returns (next: Client?, ghost j: nat)
      requires Valid() && curr in nodes && 0 <= clientConnected <= INT_MAX
      requires !Serve(st, curr.serial, r, env).freed
      modifies this`clients, this`nodes, this`allFds, this`clientConnected, this`clientId, this`writes, this`st
      modifies nodes`next, nodes`sent, curr`inbuf, curr.buf, curr`username
      ensures Valid() && st == Serve(old(st), curr.serial, r, env)
      ensures next == At(nodes, j) && Beyond(st.peers, curr.serial, j)
      ensures forall i :: 0 <= i < |nodes| ==> nodes[i] in old(nodes)
    {
      hide Linked, Ascending, Represent, Beyond, Close, Received, Serve, Answer;
      j := Locate(curr);
      TurnIs(st, j, r, env);
      if curr.sockFd !in r.ready {
        BeyondAt(st.peers, j, st.accepted);
        NextIs(j);
        next, j := curr.next, j + 1;
        return;
      }
      var closed := ReadTurn(curr, Answer(r.answers(curr.sockFd), USABLE - curr.inbuf), env);
      if closed {
        CloseFacts(st, j);
        next, j := CloseClient(curr);
      } else {
        j := Locate(curr);
        BeyondAt(st.peers, j, st.accepted);
        NextIs(j);
        next, j := curr.next, j + 1;
      }
    }

    lemma ListStart()
      requires Valid()
      ensures clients == At(nodes, 0)
    {
    }

    lemma ListAt(j: nat)
      requires Valid()
      ensures j < |nodes| <==> j < |st.peers|
      ensures j < |nodes| ==> nodes[j].serial == st.peers[j].serial
      ensures Inv(st) ==> 0 <= clientConnected <= st.accepted
    {
    }

    /** The client loop of run_server(): walks the list while the turns remove nodes from it. */
    method ServeClients(r: Round, env: Env)
      requires Valid() && Inv(st) && st.accepted <= INT_MAX
      requires !ServeAll(st, Serials(st.peers), r, env).freed
      modifies this`clients, this`nodes, this`allFds, this`clientConnected, this`clientId, this`writes, this`st
      modifies nodes, set n | n in nodes :: n.buf
      ensures Valid() && st == ServeAll(old(st), Serials(old(st).peers), r, env) && Inv(st)
      ensures forall i :: 0 <= i < |nodes| ==> nodes[i] in old(nodes)
    {
      hide Valid, Inv, ServeAll, Serve, Serials;
      WalkStart(st, r, env);
      ListStart();
      var curr := clients;
      ghost var j: nat := 0;
      while curr != null
        invariant Valid() && Inv(st) && st.accepted <= INT_MAX
        invariant curr == At(nodes, j) && j <= |st.peers|
        invariant ServeAll(st, Onward(st.peers, j), r, env) == ServeAll(old(st), Serials(old(st).peers), r, env)
        invariant forall i :: 0 <= i < |nodes| ==> nodes[i] in old(nodes)
        decreases |st.peers| - j
      {
        ListAt(j);
        WalkTurn(st, j, r, env);
        ghost var before, k := st, j;
        curr, j := ServeClient(curr, r, env);
        Resume(before, k, j, r, env);
      }
      ListAt(j);
      WalkEnd(st, j, r, env);
    }

    /** One round of the select() loop of run_server(). */
    method SelectRound(r: Round, env: Env)
      requires Valid() && Inv(st) && st.accepted < INT_MAX
      requires Allowed(st, r) && !RunRound(st, r, env).freed
      modifies this, nodes, set n | n in nodes :: n.buf
      ensures Valid() && st == RunRound(old(st), r, env) && Inv(st)
      ensures forall i :: 0 <= i < |nodes| ==> nodes[i] in old(nodes) || (fresh(nodes[i]) && fresh(nodes[i].buf))
    {
      hide Valid, Inv, ServeAll;
      AdmitKeeps(st, r);
      if r.accept != [] {
        AcceptConnection(r.accept[0]);
      }
      ServeClients(r, env);
    }
  }

  /** run_server() from its start through the rounds `rs`. */
  method RunServer(listenFd: int, rs: seq<Round>, env: Env) returns (server: Server)
    requires |rs| <= INT_MAX
    requires AllAllowed(Initial(listenFd), rs, env) && !Run(Initial(listenFd), rs, env).freed
    ensures server.Valid() && server.st == Run(Initial(listenFd), rs, env)
  {
    hide Inv, RunRound, Run, AllAllowed, Allowed, Server.Valid;
    server := new Server(listenFd);
    InitialInv(listenFd);
    var i := 0;
    while i < |rs|
      invariant 0 <= i <= |rs| && server.Valid() && Inv(server.st) && server.st.accepted <= i
      invariant Run(server.st, rs[i..], env) == Run(Initial(listenFd), rs, env)
      invariant AllAllowed(server.st, rs[i..], env)
      invariant fresh(server) && forall k :: 0 <= k < |server.nodes| ==> fresh(server.nodes[k]) && fresh(server.nodes[k].buf)
    {
      assert rs[i..][0] == rs[i] && rs[i..][1..] == rs[i + 1..];
      RunFreedLater(server.st, rs[i..], env);
      RunStep(server.st, rs[i..], env);
      server.SelectRound(rs[i], env);
      i := i + 1;
    }
    assert rs[i..] == [];
    RunEnd(server.st, env);
  }

  lemma RunStep(st: State, rs: seq<Round>, env: Env)
    requires rs != [] && AllAllowed(st, rs, env)
    ensures Allowed(st, rs[0]) && AllAllowed(RunRound(st, rs[0], env), rs[1..], env)
    ensures Run(st, rs, env) == Run(RunRound(st, rs[0], env), rs[1..], env)
  {
  }

  lemma RunEnd(st: State, env: Env)
    ensures Run(st, [], env) == st
  {
  }
}
