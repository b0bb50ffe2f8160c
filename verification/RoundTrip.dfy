/** From the keyboard of one chat client to the screen of another. */
module RoundTrip {
  import opened Text
  import opened Framing
  import opened Socket
  import opened Chat
  import opened ChatInvariant
  import opened ChatTheorems
  import opened ChatWire
  import opened StartClient

  // ---------------------------------------------------------------- one hop

  /** Whatever the keyboard sends arrives at the server piece by piece, however the stream is cut. */
  lemma TypedArrives(text: string, ns: seq<Count>)
    requires Terminated(text) && NUL !in text
    requires Reads(Opened(Encode(TypedPieces(text))), ns).closed
    ensures var c := Reads(Opened(Encode(TypedPieces(text))), ns);
      c.got == TypedPieces(text) && c.pending == "" && c.wire == ""
  {
    var w := Encode(TypedPieces(text));
    TypedDecodes(text);
    ClosedIffFits(w, ns);
    ChunkingIndependence(w, ns);
    assert w[..|w|] == w;
  }

  lemma TypedDecodes(text: string)
    requires Terminated(text) && NUL !in text
    ensures var w := Encode(TypedPieces(text));
      Messages(w) == TypedPieces(text) && Tail(w) == "" && Fits(w)
  {
    TypedPiecesOk(text);
    forall p | p in TypedPieces(text)
      ensures CrlfFree(p) && |p| + |CRLF| <= USABLE
    {
      PieceIsFrame(p);
    }
    DecodeEncode(TypedPieces(text), "");
    assert Encode(TypedPieces(text)) + "" == Encode(TypedPieces(text));
  }

  lemma NameChars(id: nat)
    ensures ' ' !in ClientName(id) && NUL !in ClientName(id)
  {
    DecimalDigits(id);
    var d := Decimal(id);
    assert forall c :: c in d ==> c != ' ' && c != NUL;
    forall c | c in ClientName(id)
      ensures c != ' ' && c != NUL
    {
      assert c in "client" || c in d;
    }
  }

  /** A relayed frame is split back into the sender's name and the message, cut to 1024 bytes. */
  lemma RelayIsShown(id: nat, msg: string)
    ensures Show(RelayText(id, msg)) == StartClient.Shown.Chat(ClientName(id), Take(CStr(msg), 1024))
  {
    var name, body := ClientName(id), Take(CStr(msg), MAX_USER_MSG);
    var t := RelayText(id, msg);
    assert Take(name, MAX_NAME) == name;
    assert t == name + " " + body;
    NameChars(id);
    CStrNulFree(msg);
    assert NUL !in t;
    CStrOfNulFree(t);
    forall i | 0 <= i < |name|
      ensures t[i] != ' '
    {
      assert t[i] == name[i] && name[i] in name;
    }
    SpaceAtIs(t, |name|);
    assert t[..|name|] == name && t[|name| + 1..] == body;
  }

  /** The answer to `\connected` is displayed as it is, and never taken for somebody's message. */
  lemma CountIsRaw(count: int)
    ensures Show(Decimal(count) + "\n") == Raw(Decimal(count) + "\n")
    ensures OnScreen(Show(Decimal(count) + "\n")) == Decimal(count) + "\n"
  {
    var t := Decimal(count) + "\n";
    DecimalDigits(if count < 0 then -count else count);
    var d := Decimal(if count < 0 then -count else count);
    forall c | c in t
      ensures c != ' ' && c != NUL
    {
      assert c in d || c == '-' || c == '\n';
    }
    CStrOfNulFree(t);
    ShowIs(t);
  }

  /** A client that asks `\connected` and is answered sees the number of listed clients and of those a fan-out removed,
      as the next thing on its screen. */
  lemma AnswerIsDisplayed(st: State, s: nat, env: Env)
    requires Inv(st) && IndexOf(st.peers, s) < |st.peers|
    requires Rest(st.peers[IndexOf(st.peers, s)].writes) == "" && Answered(st, env).outcome == Complete
    ensures var i, st' := IndexOf(st.peers, s), AnswerCount(st, s, env);
      Screen(Messages(Sent(st'.peers[i].writes))) ==
      Screen(Messages(Sent(st.peers[i].writes))) + [Decimal(|st.peers| + st.dropped) + "\n"]
  {
    hide Show, OnScreen, Screen, Sent, Rest, Messages, Inv, Decimal, Leaves, WriteOutcome, Framed, AllFramed;
    var i := IndexOf(st.peers, s);
    var p, w := st.peers[i], Answered(st, env);
    ClientHistoryOf(st, p);
    CountedIsFramed(st, env);
    NextArrival(p.writes, w);
    CountIsRaw(st.connected);
    ScreenAppend(Messages(Sent(p.writes)), WriteText(w));
  }

  lemma CountedIsFramed(st: State, env: Env)
    requires Inv(st)
    ensures Framed(Answered(st, env)) && st.connected == |st.peers| + st.dropped
  {
    hide Decimal, Leaves, WriteOutcome, LivesOk, GonesOk, RegistryOk, DescriptorsOk;
    LeavesCarried(Decimal(st.connected) + "\n", st.connected, env(st.clock));
    CountIsClean(|st.peers| + st.dropped);
  }

  /** A completed write behind a clean stream is the next message. */
  lemma NextArrival(ws: seq<Write>, w: Write)
    requires AllFramed(ws) && Framed(w) && w.outcome == Complete && Rest(ws) == ""
    ensures Messages(Sent(ws + [w])) == Messages(Sent(ws)) + [WriteText(w)]
  {
    hide Framed, AllFramed, Messages, Tail, Sent, Rest;
    WireDecodes(ws);
    SentAppend(ws, w);
    DecodeAppend(Sent(ws), w.bytes);
    DecodeOne("", w);
    assert "" + w.bytes == w.bytes && "" + WriteText(w) == WriteText(w);
  }

  lemma ScreenAppend(msgs: seq<string>, m: string)
    ensures Screen(msgs + [m]) == Screen(msgs) + [OnScreen(Show(m))]
  {
    hide OnScreen, Show;
  }

  // ---------------------------------------------------------------- who said what

  /** What a screen shows as said by `name`, in order. */
  function SaidBy(msgs: seq<string>, name: string): seq<string> {
    if msgs == [] then []
    else
      var shown := Show(msgs[|msgs| - 1]);
      SaidBy(msgs[..|msgs| - 1], name) + (if shown.Chat? && shown.name == name then [shown.text] else [])
  }

  /** All pieces but the `\connected` requests. */
  function ChatPieces(pieces: seq<string>): seq<string> {
    if pieces == [] then []
    else (if pieces[0] == "\\connected" then [] else [pieces[0]]) + ChatPieces(pieces[1..])
  }

  /** In a piece there is no NUL: the request is the whole piece. */
  lemma RequestIs(p: string)
    requires NUL !in p
    ensures IsRequest(p) <==> p == "\\connected"
  {
    CStrOfNulFree(p);
    AsksCountIff(p);
  }

  lemma {:induction false} SaidByAppend(a: seq<string>, b: seq<string>, name: string)
    ensures SaidBy(a + b, name) == SaidBy(a, name) + SaidBy(b, name)
    decreases |b|
  {
    if b == [] {
      assert a + b == a;
    } else {
      assert (a + b)[..|a + b| - 1] == a + b[..|b| - 1];
      SaidByAppend(a, b[..|b| - 1], name);
    }
  }

  lemma SaidByOne(msgs: seq<string>, m: string, name: string)
    ensures SaidBy(msgs + [m], name) ==
      SaidBy(msgs, name) + (if Show(m).Chat? && Show(m).name == name then [Show(m).text] else [])
  {
    assert (msgs + [m])[..|msgs|] == msgs;
  }

  lemma NobodySaid(name: string)
    ensures SaidBy([], name) == []
  {
  }

  /** Relayed pieces come out as they went in. */
  lemma {:induction false} RelayedPieces(id: nat, pieces: seq<string>)
    requires forall p :: p in pieces ==> PieceOk(p)
    ensures SaidBy(Relayable(id, pieces), ClientName(id)) == ChatPieces(pieces)
  {
    hide Show, RelayText, CStr, ClientName, SaidBy, IsRequest;
    NobodySaid(ClientName(id));
    if pieces != [] {
      var p, rest := pieces[0], pieces[1..];
      assert PieceOk(p);
      RelayedPieces(id, rest);
      CStrOfNulFree(p);
      RequestIs(p);
      RelayIsShown(id, p);
      SaidByOne([], RelayText(id, p), ClientName(id));
      SaidByAppend([RelayText(id, p)], Relayable(id, rest), ClientName(id));
      assert [] + [RelayText(id, p)] == [RelayText(id, p)];
      assert Take(p, MAX_USER_MSG) == p;
      assert [] + Relayable(id, rest) == Relayable(id, rest);
    }
  }

  /** No relay failed. */
  predicate RelaysComplete(ws: seq<Write>) { NeverBroken(Attempts(ws)) && NoneLost(Attempts(ws)) }

  lemma RelaysCompleteAppend(ws: seq<Write>, w: Write)
    ensures RelaysComplete(ws + [w]) <==> RelaysComplete(ws) && (w.Relayed? ==> w.outcome == Complete)
  {
    hide NeverBroken, NoneLost;
    AttemptsAppend(ws, w);
    NoneLostAppend(Attempts(ws), w);
    assert Attempts(ws) + [] == Attempts(ws);
  }

  lemma CountChars(count: int)
    ensures ' ' !in Decimal(count) + "\n" + CRLF
  {
    DecimalDigits(if count < 0 then -count else count);
    var d := Decimal(if count < 0 then -count else count);
    forall c | c in Decimal(count) + "\n" + CRLF
      ensures c != ' '
    {
      assert c in d || c in "-\n\r";
    }
  }

  /** While only answers to `\connected` fail, what they leave holds no blank. */
  lemma {:induction false} RestHasNoBlank(ws: seq<Write>)
    requires AllFramed(ws) && RelaysComplete(ws)
    ensures ' ' !in Rest(ws)
  {
    if ws != [] {
      hide RelaysComplete, CleanText, Rest, Decimal;
      var front, w := ws[..|ws| - 1], ws[|ws| - 1];
      assert ws == front + [w] && w in ws;
      RelaysCompleteAppend(front, w);
      SentAppend(front, w);
      RestHasNoBlank(front);
      if w.Counted? {
        CountChars(w.count);
        forall c | c in w.bytes
          ensures c in WriteText(w) + CRLF
        {
          assert w.bytes == (WriteText(w) + CRLF)[..|w.bytes|];
        }
      }
    }
  }

  lemma NoBlankIsRaw(msg: string)
    requires ' ' !in msg
    ensures Show(msg).Raw?
  {
    CStrIff(msg, CStr(msg));
    ShowIs(msg);
    var s := CStr(msg);
    assert forall c :: c in s ==> c in msg;
  }

  /** Answers to `\connected`, and what is left of them when they fail, do not disturb what anybody is seen to say. */
  lemma {:induction false} SaidInArrivals(ws: seq<Write>, name: string)
    requires AllFramed(ws) && RelaysComplete(ws)
    ensures SaidBy(Texts(Arrivals(ws)), name) == SaidBy(Heard(ws), name)
  {
    hide Show, SaidBy, Decimal, Rest, Heard, Framed, RelaysComplete;
    if ws == [] {
      assert Texts(Arrivals(ws)) == [] == Heard(ws) by { NothingHeard(); }
    } else {
      var front, w := ws[..|ws| - 1], ws[|ws| - 1];
      assert ws == front + [w] && w in ws;
      RelaysCompleteAppend(front, w);
      SentAppend(front, w);
      HeardAppend(front, w);
      SaidInArrivals(front, name);
      var t := Rest(front) + WriteText(w);
      if w.outcome == Complete {
        TextsAppend(Arrivals(front), Arrival(w, t));
        SaidByOne(Texts(Arrivals(front)), t, name);
        SaidByOne(Heard(front), t, name);
        if w.Counted? {
          RestHasNoBlank(front);
          CountChars(w.count);
          NoBlankIsRaw(t);
          assert Heard(ws) == Heard(front);
        }
      } else {
        assert Arrivals(ws) == Arrivals(front) && Heard(ws) == Heard(front);
      }
    }
  }

  lemma NothingHeard()
    ensures Heard([]) == [] && Arrivals([]) == []
  {
  }

  lemma NoLogTexts()
    ensures LogTexts([]) == []
  {
  }

  lemma LogTextsAppend(slice: seq<Entry>, e: Entry)
    ensures LogTexts(slice + [e]) == LogTexts(slice) + [e.text]
  {
  }

  /** The log shows under a client's name exactly what that client had relayed. */
  lemma {:induction false} SaidInLog(slice: seq<Entry>, p: Peer, named: seq<nat>)
    requires p.id != 0 && p.id <= |named| <= INT_MAX && named[p.id - 1] == p.serial
    requires forall e :: e in slice ==> EntryOk(e, named)
    requires forall e :: e in slice && e.sender == p.serial ==> exists m :: e.text == RelayText(p.id, m)
    ensures SaidBy(LogTexts(slice), ClientName(p.id)) == SaidBy(Spoken(slice, p.serial), ClientName(p.id))
  {
    hide Show, SaidBy, RelayText, LogTexts, ClientName;
    if slice == [] {
      NoLogTexts();
    } else {
      var front, e := slice[..|slice| - 1], slice[|slice| - 1];
      assert slice == front + [e] && e in slice;
      SaidInLog(front, p, named);
      LogTextsAppend(front, e);
      SaidByOne(LogTexts(front), e.text, ClientName(p.id));
      SaidByOne(Spoken(front, p.serial), e.text, ClientName(p.id));
      SpokenAppend(front, e, p.serial);
      assert Spoken(front, p.serial) + [] == Spoken(front, p.serial);
      if e.sender != p.serial {
        var id, m :| 1 <= id <= |named| && named[id - 1] == e.sender && e.text == RelayText(id, m);
        RelayIsShown(id, m);
        DifferentNames(id, p.id);
      }
    }
  }

  lemma DifferentNames(a: nat, b: nat)
    requires a != b && a <= INT_MAX && b <= INT_MAX
    ensures ClientName(a) != ClientName(b)
  {
    if ClientName(a) == ClientName(b) {
      ClientNameFits(a);
      ClientNameFits(b);
      assert ClientName(a)[6..] == Decimal(a) && ClientName(b)[6..] == Decimal(b);
      DecimalInjective(a, b);
    }
  }

  lemma {:induction false} SpokenAppends(a: seq<Entry>, b: seq<Entry>, serial: nat)
    ensures Spoken(a + b, serial) == Spoken(a, serial) + Spoken(b, serial)
    decreases |b|
  {
    if b == [] {
      assert a + b == a;
    } else {
      assert (a + b)[..|a + b| - 1] == a + b[..|b| - 1];
      SpokenAppends(a, b[..|b| - 1], serial);
    }
  }

  lemma {:induction false} SpokenHas(log: seq<Entry>, e: Entry)
    requires e in log
    ensures e.text in Spoken(log, e.sender)
  {
    var n := |log| - 1;
    if log[n] != e {
      SpokenHas(log[..n], e);
    }
  }

  lemma {:induction false} RelayableHas(id: nat, msgs: seq<string>, t: string)
    requires t in Relayable(id, msgs)
    ensures exists m :: t == RelayText(id, m)
  {
    if !IsRequest(msgs[0]) && t == RelayText(id, msgs[0]) {
    } else {
      RelayableHas(id, msgs[1..], t);
    }
  }

  /** If no relay to client `q` failed and none came behind a write that failed halfway, what `q` decodes from the
      bytes it was sent shows, under the name of `p`, exactly what `p` said since `q` came. */
  lemma SaidToPeer(st: State, p: Peer, left: nat, q: Peer)
    requires Inv(st) && |st.named| <= INT_MAX
    requires Client(st, p, left) && p.id != 0 && q in st.peers
    requires NoneLost(Attempts(q.writes)) && Intact(q.writes)
    ensures q.joined <= |st.log|
    ensures SaidBy(Messages(Sent(q.writes)), ClientName(p.id)) ==
            SaidBy(Spoken(st.log[q.joined..], p.serial), ClientName(p.id))
  {
    hide Inv, SaidBy, WriteTexts, Attempts, LogTexts, EntryOk, Spoken, ClientName, SpokeOk, RelayText, Mirrors;
    hide Intact, Arrivals, Heard, AllFramed, NoneLost;
    ClientHistory(st, p, left);
    ClientHistory(st, q, |st.log|);
    NamedAs(st, p, left);
    var slice := st.log[q.joined..];
    assert st.log[q.joined..|st.log|] == slice;
    WritesFramed(q, |st.log|, st.log, st.accepted);
    WireDecodes(q.writes);
    StillWhole(st, q);
    SaidInArrivals(q.writes, ClientName(p.id));
    HeardAll(q.writes);
    MirroredTexts(Attempts(q.writes), slice);
    SenderTexts(st, p, left);
    SaidInLog(slice, p, st.named);
  }

  /** No relay broke the connection of a client that is still there. */
  lemma StillWhole(st: State, q: Peer)
    requires Inv(st) && q in st.peers
    ensures NeverBroken(Attempts(q.writes))
  {
  }

  lemma MirroredTexts(attempts: seq<Write>, slice: seq<Entry>)
    requires Mirrors(attempts, slice)
    ensures WriteTexts(attempts) == LogTexts(slice)
  {
  }

  lemma NamedAs(st: State, p: Peer, left: nat)
    requires Inv(st) && Client(st, p, left) && p.id != 0
    ensures p.id <= |st.named| && st.named[p.id - 1] == p.serial
  {
    ClientHistory(st, p, left);
  }

  lemma SenderTexts(st: State, p: Peer, left: nat)
    requires Inv(st) && Client(st, p, left)
    ensures forall e :: e in st.log ==> EntryOk(e, st.named)
    ensures forall e :: e in st.log && e.sender == p.serial ==> exists m :: e.text == RelayText(p.id, m)
  {
    hide EntryOk, LivesOk, GonesOk;
    ClientHistory(st, p, left);
    assert Spoken(st.log, p.serial) + Relayable(p.id, []) == Spoken(st.log, p.serial);
    forall e | e in st.log && e.sender == p.serial
      ensures exists m :: e.text == RelayText(p.id, m)
    {
      SpokenHas(st.log, e);
      RelayableHas(p.id, Messages(p.rcvd), e.text);
    }
  }

  /** End to end: in any good run, once the server has read all that was typed at `p`, a client that was there
      before `p` first spoke, that lost no relay, got none behind a write that failed halfway and whose buffer the
      stream fits, shows under the name of `p` exactly the typed pieces in order, however the stream to it is cut into
      reads and whoever else was talking. */
  lemma EndToEnd(listenFd: int, rs: seq<Round>, env: Env, text: string, p: Peer, left: nat, q: Peer, ns: seq<Count>)
    requires GoodRun(listenFd, rs, env)
    requires var st := Final(listenFd, rs, env);
      |st.named| <= INT_MAX && Client(st, p, left) && p.id != 0 && q in st.peers &&
      q.joined <= |st.log| && forall e :: e in st.log[..q.joined] ==> e.sender != p.serial
    requires Terminated(text) && NUL !in text && p.rcvd == Encode(TypedPieces(text))
    requires NoneLost(Attempts(q.writes)) && Intact(q.writes) && ArrivalsFit(q.writes)
    requires Reads(Opened(Sent(q.writes)), ns).closed
    ensures SaidBy(Reads(Opened(Sent(q.writes)), ns).got, ClientName(p.id)) == ChatPieces(TypedPieces(text))
  {
    hide Inv, Final, SaidBy, Spoken, Relayable, ChatPieces, GoodRun, Client, Sent, Reads, NoneLost, Intact, ArrivalsFit;
    var st := Final(listenFd, rs, env);
    FinalInv(listenFd, rs, env);
    ClientHistoryOf(st, q);
    FitsIff(q.writes);
    ClosedIffFits(Sent(q.writes), ns);
    SaidToPeer(st, p, left, q);
    SpokenSince(st.log, q.joined, p.serial);
    SenderFifo(listenFd, rs, env, p, left);
    TypedDecodes(text);
    TypedPiecesOk(text);
    RelayedPieces(p.id, TypedPieces(text));
  }

  lemma ClientHistoryOf(st: State, q: Peer)
    requires Inv(st) && q in st.peers
    ensures AllFramed(q.writes)
  {
    ClientHistory(st, q, |st.log|);
    WritesFramed(q, |st.log|, st.log, st.accepted);
  }

  /** If all writes completed, that is so without further conditions. */
  lemma NothingFailed(listenFd: int, rs: seq<Round>, env: Env, q: Peer)
    requires GoodRun(listenFd, rs, env) && Final(listenFd, rs, env).accepted <= INT_MAX
    requires q in Final(listenFd, rs, env).peers && AllComplete(q.writes)
    ensures NoneLost(Attempts(q.writes)) && Intact(q.writes) && ArrivalsFit(q.writes)
  {
    hide ArrivalsFit, Intact, Fits;
    FrameSizeClosure(listenFd, rs, env, q, |Final(listenFd, rs, env).log|);
    AllCompleteIs(q.writes);
  }

  lemma SpokenSince(log: seq<Entry>, from: nat, serial: nat)
    requires from <= |log| && forall e :: e in log[..from] ==> e.sender != serial
    ensures Spoken(log[from..], serial) == Spoken(log, serial)
  {
    assert log == log[..from] + log[from..];
    SpokenAppends(log[..from], log[from..], serial);
    SpokenByNobody(log[..from], serial);
  }
}
