/** The receive buffer and the write loop of src/socket.c, proved against the frames of Framing. */
module Socket {
  import opened Text
  import opened Framing

  /** What one read() call answers. */
  datatype ReadOutcome = Data(bytes: string) | Eof | Failure

  /** read() returns at least one and at most `request` bytes, or 0, or an error. */
  predicate KernelAnswers(o: ReadOutcome, request: nat) { o.Data? ==> 1 <= |o.bytes| <= request }

  method FindNetworkNewline(buf: array<char>, inbuf: nat) returns (end: int)
    requires inbuf <= buf.Length
    ensures end == FirstEnd(buf[..inbuf])
  {
    var i := 0;
    while i < inbuf - 1
      invariant 0 <= i && (i == 0 || i <= inbuf - 1)
      invariant forall k :: 0 <= k < i ==> !CrlfAt(buf[..inbuf], k)
    {
      if buf[i] == '\r' && buf[i+1] == '\n' {
        assert CrlfAt(buf[..inbuf], i);
        return i + 2;
      }
      assert !CrlfAt(buf[..inbuf], i);
      i := i + 1;
    }
    return -1;
  }

  /** Appends one read to the buffer; says whether a complete message is now in it. */
  method ReadFromSocket(buf: array<char>, inbuf: nat, o: ReadOutcome) returns (ret: int, n: nat)
    requires buf.Length == BUF_SIZE && inbuf <= USABLE
    requires KernelAnswers(o, USABLE - inbuf)
    modifies buf
    ensures n <= USABLE && buf[..n] == old(buf[..inbuf]) + (if o.Data? then o.bytes else "")
    ensures o.Eof? ==> ret == 1
    ensures o.Failure? ==> ret == -1
    ensures o.Data? ==> ret == if FirstEnd(buf[..n]) != -1 then 0 else 2
  {
    n := inbuf;
    match o {
      case Eof => ret := 1;
      case Failure => ret := -1;
      case Data(bytes) =>
        forall i | 0 <= i < |bytes| { buf[inbuf + i] := bytes[i]; }
        n := inbuf + |bytes|;
        // The size test of the source cannot fire: the read was bounded.
        assert n < BUF_SIZE;
        var end := FindNetworkNewline(buf, n);
        ret := if end != -1 then 0 else 2;
    }
  }

  /** Takes the first complete message out and moves the rest of the buffer to the front. */
  method GetMessage(src: array<char>, inbuf: nat) returns (ret: int, dst: string, n: nat)
    requires inbuf <= src.Length
    modifies src
    ensures n <= inbuf
    ensures FirstEnd(old(src[..inbuf])) == -1 ==> ret == 1 && src[..n] == old(src[..inbuf])
    ensures FirstEnd(old(src[..inbuf])) != -1 ==>
      var e := FirstEnd(old(src[..inbuf]));
      ret == 0 && dst == old(src[..inbuf])[..e-2] && src[..n] == old(src[..inbuf])[e..]
  {
    var newline := FindNetworkNewline(src, inbuf);
    if newline == -1 {
      return 1, "", inbuf;
    }
    dst := src[..newline - 2];
    var remain := inbuf - newline;
    if remain > 0 {
      forall i | 0 <= i < remain { src[i] := src[newline + i]; }
    }
    return 0, dst, remain;
  }

  /** One read followed by draining every complete message: what both ends of a connection do. */
  method ReadAndDrain(buf: array<char>, inbuf: nat, o: ReadOutcome)
    returns (ret: int, msgs: seq<string>, n: nat)
    requires buf.Length == BUF_SIZE && inbuf <= USABLE
    requires KernelAnswers(o, USABLE - inbuf)
    requires CrlfFree(buf[..inbuf])
    modifies buf
    ensures n <= USABLE
    ensures ret == 1 <==> o.Eof?
    ensures ret == -1 <==> o.Failure?
    ensures !o.Data? ==> msgs == [] && buf[..n] == old(buf[..inbuf])
    ensures o.Data? ==> msgs == Messages(old(buf[..inbuf]) + o.bytes) && buf[..n] == Tail(old(buf[..inbuf]) + o.bytes)
  {
    hide Messages, Tail, FirstEnd, CrlfFree;
    ret, n := ReadFromSocket(buf, inbuf, o);
    ghost var all := buf[..n];
    msgs := [];
    if ret != 0 {
      if o.Data? {
        NoMessage(all);
      }
      return;
    }
    while true
      invariant n <= USABLE
      invariant msgs + Messages(buf[..n]) == Messages(all)
      invariant Tail(buf[..n]) == Tail(all)
      decreases n
    {
      ghost var before := buf[..n];
      var r, msg, m := GetMessage(buf, n);
      n := m;
      if r != 0 {
        NoMessage(before);
        break;
      }
      FirstMessage(before);
      assert msgs + ([msg] + Messages(buf[..n])) == msgs + [msg] + Messages(buf[..n]);
      msgs := msgs + [msg];
    }
    assert msgs + [] == msgs;
  }

  // ---------------------------------------------------------------- chunking independence

  /** What one read() hands over at most. */
  type Count = n: int | n >= 1 witness 1

  /** One direction of a connection: `wire` is what the peer has sent and nobody has read yet. */
  datatype Conn = Conn(pending: string, got: seq<string>, wire: string, closed: bool)

  function Opened(wire: string): Conn { Conn("", [], wire, false) }

  /** The kernel hands over `n` bytes, or fewer if fewer were asked for or are there. A read of 0 bytes
      is taken for a closed connection, also when 0 bytes were asked for because the buffer is full. */
  function Handed(c: Conn, n: Count): int { Min(Min(n, USABLE - |c.pending|), |c.wire|) }

  function ReadStep(c: Conn, n: Count): Conn {
    if c.closed then c
    else if Handed(c, n) <= 0 then c.(closed := true)
    else
      var b := c.pending + c.wire[..Handed(c, n)];
      Conn(Tail(b), c.got + Messages(b), c.wire[Handed(c, n)..], false)
  }

  function Reads(c: Conn, ns: seq<Count>): Conn
    decreases |ns|
  {
    if ns == [] then c else Reads(ReadStep(c, ns[0]), ns[1..])
  }

  /** Every frame of the stream fits the buffer, terminator included. */
  predicate Fits(w: string) {
    (forall m :: m in Messages(w) ==> |m| + |CRLF| <= USABLE) && |Tail(w)| <= USABLE
  }

  /** `c` has consumed exactly the prefix `w[..|w| - |c.wire|]`, and nothing of it is lost. */
  ghost predicate Consumed(c: Conn, w: string) {
    |c.wire| <= |w| &&
    var front := w[..|w| - |c.wire|];
    front + c.wire == w && c.got == Messages(front) && c.pending == Tail(front) && Fits(front) &&
    (c.closed ==> c.wire == "" || |c.pending| == USABLE)
  }

  /** An overlong frame shows as soon as a full, CRLF-free buffer has bytes waiting behind it. */
  lemma StuckMeansOverlong(front: string, rest: string)
    requires |Tail(front)| == USABLE && rest != ""
    ensures !Fits(front + rest)
  {
    var p := Tail(front);
    DecodeAppend(front, rest);
    TailCrlfFree(front);
    var e := FirstEnd(p + rest);
    if e == -1 {
      assert Tail(front + rest) == p + rest;
    } else {
      if e - 1 < |p| {
        assert CrlfAt(p, e - 2);
      }
      assert (p + rest)[..e-2] in Messages(p + rest);
      assert (p + rest)[..e-2] in Messages(front + rest);
    }
  }

  lemma {:induction false} MessagesAreShort(s: string)
    ensures forall m :: m in Messages(s) ==> |m| + 2 <= |s|
    decreases |s|
  {
    var e := FirstEnd(s);
    if e != -1 {
      MessagesAreShort(s[e..]);
    }
  }

  lemma ReadStepConsumes(c: Conn, n: Count, w: string)
    requires Consumed(c, w)
    ensures Consumed(ReadStep(c, n), w)
  {
    hide Messages, Tail, CrlfFree;
    var k := Handed(c, n);
    if !c.closed && k > 0 {
      var front, chunk := w[..|w| - |c.wire|], c.wire[..k];
      var d := ReadStep(c, n);
      assert w[..|w| - |d.wire|] == front + chunk;
      DecodeAppend(front, chunk);
      MessagesAreShort(c.pending + chunk);
      TailCrlfFree(c.pending + chunk);
    }
  }

  lemma {:induction false} ReadsConsume(c: Conn, ns: seq<Count>, w: string)
    requires Consumed(c, w)
    ensures Consumed(Reads(c, ns), w)
    decreases |ns|
  {
    if ns != [] {
      ReadStepConsumes(c, ns[0], w);
      ReadsConsume(ReadStep(c, ns[0]), ns[1..], w);
    }
  }

  lemma OpenedConsumes(w: string)
    ensures Consumed(Opened(w), w)
  {
    assert w[..0] == "" && FirstEnd("") == -1;
  }

  lemma FitsTail(w: string)
    ensures Fits(w) ==> |Tail(w)| <= USABLE
  {
  }

  /** However the stream is cut into reads: what was read decodes to exactly its complete messages, in order,
      and the buffer holds exactly the unterminated rest. */
  lemma ChunkingIndependence(w: string, ns: seq<Count>)
    ensures var c := Reads(Opened(w), ns);
      |c.wire| <= |w| &&
      var front := w[..|w| - |c.wire|];
      front + c.wire == w && c.got == Messages(front) && c.pending == Tail(front) &&
      CrlfFree(c.pending) && |c.pending| <= USABLE
  {
    hide Reads, Fits, Messages, Tail, CrlfFree, Opened;
    OpenedConsumes(w);
    ReadsConsume(Opened(w), ns, w);
    FitsTail(w[..|w| - |Reads(Opened(w), ns).wire|]);
    TailCrlfFree(w[..|w| - |Reads(Opened(w), ns).wire|]);
  }

  /** A connection reported closed has lost bytes exactly when some frame of the stream is overlong:
      the condition depends on the stream alone, not on the reads. */
  lemma ClosedIffFits(w: string, ns: seq<Count>)
    requires Reads(Opened(w), ns).closed
    ensures Reads(Opened(w), ns).wire == "" <==> Fits(w)
    ensures Fits(w) ==> Reads(Opened(w), ns).got == Messages(w)
  {
    var c := Reads(Opened(w), ns);
    OpenedConsumes(w);
    ReadsConsume(Opened(w), ns, w);
    var front := w[..|w| - |c.wire|];
    if c.wire == "" {
      assert front == w;
    } else {
      StuckMeansOverlong(front, c.wire);
    }
  }

  /** Any |w| + 1 reads reach the close report, so ClosedIffFits speaks of every long enough run. */
  lemma {:induction false} ReadsClose(c: Conn, ns: seq<Count>)
    requires |c.pending| <= USABLE
    ensures |ns| > |c.wire| || c.closed ==> Reads(c, ns).closed
    decreases |ns|
  {
    if ns != [] {
      var d := ReadStep(c, ns[0]);
      if !c.closed && Handed(c, ns[0]) > 0 {
        TailCrlfFree(c.pending + c.wire[..Handed(c, ns[0])]);
      }
      ReadsClose(d, ns[1..]);
    }
  }

  /** One turn of the loop over a real buffer is one ReadStep. */
  method ReceiveOnce(buf: array<char>, inbuf: nat, got: seq<string>, wire: string, n: Count)
    returns (got': seq<string>, m: nat, wire': string, closed: bool)
    requires buf.Length == BUF_SIZE && inbuf <= USABLE && CrlfFree(buf[..inbuf])
    modifies buf
    ensures m <= USABLE && CrlfFree(buf[..m])
    ensures Conn(buf[..m], got', wire', closed) == ReadStep(Conn(old(buf[..inbuf]), got, wire, false), n)
  {
    hide Messages, Tail, CrlfFree;
    var k := Min(Min(n, USABLE - inbuf), |wire|);
    var o := if k == 0 then Eof else Data(wire[..k]);
    TailCrlfFree(buf[..inbuf] + wire[..k]);
    var ret, msgs;
    ret, msgs, m := ReadAndDrain(buf, inbuf, o);
    closed := ret == 1;
    got', wire' := got + msgs, wire[k..];
  }

  /** The loop over a real buffer computes the connection above. */
  method Receive(wire: string, ns: seq<Count>) returns (got: seq<string>, buf: array<char>, inbuf: nat, closed: bool)
    ensures fresh(buf) && buf.Length == BUF_SIZE && inbuf <= USABLE
    ensures var c := Reads(Opened(wire), ns); got == c.got && closed == c.closed && buf[..inbuf] == c.pending
  {
    buf := new char[BUF_SIZE];
    inbuf, got, closed := 0, [], false;
    var k, rest := 0, wire;
    assert buf[..0] == "";
    while k < |ns| && !closed
      invariant 0 <= k <= |ns|
      invariant inbuf <= USABLE && CrlfFree(buf[..inbuf])
      invariant Reads(Conn(buf[..inbuf], got, rest, closed), ns[k..]) == Reads(Opened(wire), ns)
    {
      got, inbuf, rest, closed := ReceiveOnce(buf, inbuf, got, rest, ns[k]);
      assert ns[k..][1..] == ns[k + 1..];
      k := k + 1;
    }
    ClosedStays(Conn(buf[..inbuf], got, rest, closed), ns[k..]);
  }

  lemma {:induction false} ClosedStays(c: Conn, ns: seq<Count>)
    ensures c.closed || ns == [] ==> Reads(c, ns) == c
    decreases |ns|
  {
    if ns != [] {
      ClosedStays(ReadStep(c, ns[0]), ns[1..]);
    }
  }

  // ---------------------------------------------------------------- writing

  /** How many of `len` bytes leave when the k-th, (k+1)-th, ... write() answer `counts(k)`, `counts(k+1)`, ... */
  function Accepted(len: nat, counts: nat -> int, k: nat): (n: nat)
    ensures n <= len
    decreases len
  {
    if len == 0 || counts(k) <= 0 then 0
    else
      var n := Min(counts(k), len);
      n + Accepted(len - n, counts, k + 1)
  }

  /** What the first `k` write()s answer, added up. */
  function Total(counts: nat -> int, k: nat): int {
    if k == 0 then 0 else Total(counts, k - 1) + counts(k - 1)
  }

  /** The first `k` write()s take something each. */
  predicate AllTake(counts: nat -> int, k: nat) { forall i: nat :: i < k ==> counts(i) >= 1 }

  /** Those `k` write()s take `len` bytes between them. */
  predicate Suffice(counts: nat -> int, len: nat, k: nat) { AllTake(counts, k) && Total(counts, k) >= len }

  /** Write `k` is the first that takes nothing, or fails, and then fewer than `len` bytes have left. */
  predicate StopsAt(counts: nat -> int, len: nat, k: nat) {
    AllTake(counts, k) && counts(k) <= 0 && Total(counts, k) < len
  }

  /** As long as each write() takes something, the bytes accepted are their answers added up. */
  lemma {:induction false} AcceptedAfter(len: nat, counts: nat -> int, k: nat)
    requires AllTake(counts, k) && (k > 0 ==> Total(counts, k - 1) < len)
    ensures Total(counts, k) >= k
    ensures Total(counts, k) <= len ==>
      Accepted(len, counts, 0) == Total(counts, k) + Accepted(len - Total(counts, k), counts, k)
    ensures Total(counts, k) >= len ==> Accepted(len, counts, 0) == len
    decreases k
  {
    if k > 0 {
      assert AllTake(counts, k - 1);
      if k > 1 {
        assert Total(counts, k - 1) == Total(counts, k - 2) + counts(k - 2);
      }
      AcceptedAfter(len, counts, k - 1);
    }
  }

  /** Either some number of write()s that take something each take the whole, or one stops before that. */
  lemma SufficeOrStop(counts: nat -> int, len: nat) returns (k: nat)
    ensures Suffice(counts, len, k) || StopsAt(counts, len, k)
    ensures k > 0 ==> Total(counts, k - 1) < len
  {
    k := 0;
    while counts(k) >= 1 && Total(counts, k) < len
      invariant AllTake(counts, k) && Total(counts, k) >= k && (k > 0 ==> Total(counts, k - 1) < len)
      decreases len - k
    {
      k := k + 1;
    }
  }

  lemma {:induction false} TotalGrows(counts: nat -> int, j: nat, k: nat)
    requires j <= k && AllTake(counts, k)
    ensures Total(counts, j) <= Total(counts, k)
    decreases k
  {
    if j < k {
      assert AllTake(counts, k - 1);
      TotalGrows(counts, j, k - 1);
    }
  }

  /** The whole leaves if and only if some number of write()s, taking something each, take it between them; otherwise
      exactly what was taken before the first write() that took nothing. */
  lemma AcceptedIff(len: nat, counts: nat -> int)
    ensures Accepted(len, counts, 0) == len <==> exists k: nat :: Suffice(counts, len, k)
    ensures forall k: nat :: StopsAt(counts, len, k) ==> Accepted(len, counts, 0) == Total(counts, k)
    ensures Accepted(len, counts, 0) < len ==> exists k: nat :: StopsAt(counts, len, k)
  {
    forall k: nat | StopsAt(counts, len, k)
      ensures Accepted(len, counts, 0) == Total(counts, k)
      ensures forall j: nat :: !Suffice(counts, len, j)
    {
      if k > 0 {
        assert AllTake(counts, k - 1);
        TotalGrows(counts, k - 1, k);
      }
      AcceptedAfter(len, counts, k);
      forall j: nat | AllTake(counts, j)
        ensures Total(counts, j) < len
      {
        assert j <= k;
        TotalGrows(counts, j, k);
      }
    }
    var k := SufficeOrStop(counts, len);
    if Suffice(counts, len, k) {
      AcceptedAfter(len, counts, k);
    }
  }

  /** write()s that each take at least one byte are enough. */
  lemma TakingSuffices(counts: nat -> int, len: nat)
    requires AllTake(counts, len)
    ensures Suffice(counts, len, len)
  {
    var k := 0;
    while k < len
      invariant k <= len && Total(counts, k) >= k
    {
      k := k + 1;
    }
  }

  /** Partial writes are resumed where they stopped: all bytes leave if and only if some number of write()s, taking
      something each, take them between them; otherwise exactly those taken before the first that took nothing. */
  method WriteToSocket(data: string, counts: nat -> int) returns (ret: int, sent: string)
    ensures ret == if sent == data then 0 else -1
    ensures ret == 0 <==> exists k: nat :: Suffice(counts, |data|, k)
    ensures ret != 0 ==> exists k: nat ::
      StopsAt(counts, |data|, k) && 0 <= Total(counts, k) && sent == data[..Total(counts, k)]
    ensures AllTake(counts, |data|) ==> ret == 0
    ensures sent == data[..Accepted(|data|, counts, 0)]
  {
    sent := "";
    var total, k := 0, 0;
    while total < |data|
      invariant 0 <= total <= |data| && sent == data[..total]
      invariant total + Accepted(|data| - total, counts, k) == Accepted(|data|, counts, 0)
    {
      var bytesSent := Min(counts(k), |data| - total);
      if bytesSent <= 0 {
        AcceptedIff(|data|, counts);
        if AllTake(counts, |data|) {
          TakingSuffices(counts, |data|);
        }
        return -1, sent;
      }
      sent := sent + data[total..total + bytesSent];
      total, k := total + bytesSent, k + 1;
    }
    AcceptedIff(|data|, counts);
    return 0, sent;
  }
}
