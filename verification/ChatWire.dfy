/** What a client decodes from the bytes the server's writes left on its connection, when writes may stop halfway. */
module ChatWire {
  import opened Framing
  import opened Socket
  import opened Chat
  import opened ChatInvariant

  // ---------------------------------------------------------------- decoding a history of writes

  /** A write that completed, and the message the client decodes at its end. */
  datatype Arrival = Arrival(write: Write, text: string)

  /** What is on the wire behind the last completed write. */
  function Rest(ws: seq<Write>): string {
    if ws == [] || ws[|ws| - 1].outcome == Complete then "" else Rest(ws[..|ws| - 1]) + ws[|ws| - 1].bytes
  }

  /** Every completed write ends a message, which starts with what failed writes left in front of it. */
  function Arrivals(ws: seq<Write>): seq<Arrival> {
    if ws == [] then []
    else
      var front, w := ws[..|ws| - 1], ws[|ws| - 1];
      Arrivals(front) + (if w.outcome == Complete then [Arrival(w, Rest(front) + WriteText(w))] else [])
  }

  function Texts(arrivals: seq<Arrival>): seq<string> {
    seq(|arrivals|, i requires 0 <= i < |arrivals| => arrivals[i].text)
  }

  /** What a write to a client may be: see WriteOk. */
  predicate Framed(w: Write) { Carried(w) && CleanText(WriteText(w)) }

  predicate CleanText(t: string) { FirstEnd(t) == -1 && t != "" && t[0] != '\n' }

  predicate AllFramed(ws: seq<Write>) { forall w :: w in ws ==> Framed(w) }

  lemma Glue(a: string, b: string)
    requires CrlfFree(a) && CrlfFree(b) && (b != "" ==> b[0] != '\n')
    ensures CrlfFree(a + b)
  {
    forall i
      ensures !CrlfAt(a + b, i)
    {
      assert !CrlfAt(a, i) && !CrlfAt(b, i - |a|);
    }
  }

  /** A write that failed leaves nothing that could end a message. */
  lemma FailedBytes(w: Write)
    requires Framed(w) && w.outcome != Complete
    ensures CrlfFree(w.bytes) && (w.bytes != "" ==> w.bytes[0] != '\n')
  {
    var t, b := WriteText(w), w.bytes;
    forall i
      ensures !CrlfAt(b, i)
    {
      assert !CrlfAt(t, i);
      if 0 <= i < |b| - 1 {
        assert b[i] == (t + CRLF)[i] && b[i+1] == (t + CRLF)[i+1];
      }
    }
  }

  lemma SentAppend(ws: seq<Write>, w: Write)
    ensures Sent(ws + [w]) == Sent(ws) + w.bytes
    ensures Rest(ws + [w]) == if w.outcome == Complete then "" else Rest(ws) + w.bytes
    ensures Arrivals(ws + [w]) ==
      Arrivals(ws) + (if w.outcome == Complete then [Arrival(w, Rest(ws) + WriteText(w))] else [])
  {
    assert (ws + [w])[..|ws|] == ws;
  }

  /** The bytes of one more write, decoded behind what the earlier ones left over. */
  lemma DecodeOne(rest: string, w: Write)
    requires CrlfFree(rest) && Framed(w)
    ensures w.outcome == Complete ==> Messages(rest + w.bytes) == [rest + WriteText(w)] && Tail(rest + w.bytes) == ""
    ensures w.outcome != Complete ==>
      CrlfFree(rest + w.bytes) && Messages(rest + w.bytes) == [] && Tail(rest + w.bytes) == rest + w.bytes
  {
    hide CrlfFree, FirstEnd;
    var t := WriteText(w);
    if w.outcome == Complete {
      CleanIsFree(t);
      Glue(rest, t);
      OneFrame(rest + t);
      assert rest + w.bytes == (rest + t) + CRLF;
    } else {
      FailedBytes(w);
      Glue(rest, w.bytes);
      MessagesOfCrlfFree(rest + w.bytes);
    }
  }

  lemma CleanIsFree(t: string)
    requires CleanText(t)
    ensures CrlfFree(t) && t != "" && t[0] != '\n'
  {
  }

  lemma OneFrame(m: string)
    requires CrlfFree(m)
    ensures Messages(m + CRLF) == [m] && Tail(m + CRLF) == ""
  {
    FirstEndOfFrame(m, "");
    assert m + CRLF + "" == m + CRLF;
    assert FirstEnd("") == -1;
  }

  /** The client decodes exactly the arrivals, and its buffer holds what is left behind the last of them. */
  lemma {:induction false} WireDecodes(ws: seq<Write>)
    requires AllFramed(ws)
    ensures Messages(Sent(ws)) == Texts(Arrivals(ws))
    ensures Tail(Sent(ws)) == Rest(ws) && CrlfFree(Rest(ws))
  {
    hide Framed, CrlfFree, Messages, Tail;
    if ws == [] {
      NothingSent();
      assert Texts(Arrivals(ws)) == [];
    } else {
      hide Sent, Arrivals, Rest, Texts;
      var front, w := ws[..|ws| - 1], ws[|ws| - 1];
      assert ws == front + [w];
      WireDecodes(front);
      SentAppend(front, w);
      DecodeAppend(Sent(front), w.bytes);
      DecodeOne(Rest(front), w);
      NothingSent();
      if w.outcome == Complete {
        TextsAppend(Arrivals(front), Arrival(w, Rest(front) + WriteText(w)));
      } else {
        assert Arrivals(front) + [] == Arrivals(front) && Messages(Sent(front)) + [] == Messages(Sent(front));
      }
    }
  }

  lemma NothingSent()
    ensures Messages("") == [] && Tail("") == "" && CrlfFree("")
  {
    assert FirstEnd("") == -1;
  }

  // ---------------------------------------------------------------- when that is what was meant

  function WriteTexts(ws: seq<Write>): seq<string> { seq(|ws|, i requires 0 <= i < |ws| => WriteText(ws[i])) }

  /** The texts of the completed writes. */
  function CompletedTexts(ws: seq<Write>): seq<string> {
    if ws == [] then []
    else
      var w := ws[|ws| - 1];
      CompletedTexts(ws[..|ws| - 1]) + (if w.outcome == Complete then [WriteText(w)] else [])
  }

  /** A write that failed after some of its bytes had left. */
  predicate LeftOver(w: Write) { w.outcome != Complete && w.bytes != "" }

  predicate NoneCompletes(ws: seq<Write>, from: nat, to: nat)
    requires to <= |ws|
  {
    forall k :: from <= k < to ==> ws[k].outcome != Complete
  }

  /** Before write `n` there is such a write, with no completed one in between. */
  ghost predicate Ragged(ws: seq<Write>, n: nat)
    requires n <= |ws|
  {
    exists i :: 0 <= i < n && LeftOver(ws[i]) && NoneCompletes(ws, i, n)
  }

  /** No write that failed halfway is followed by a completed one. */
  predicate Clean(ws: seq<Write>) {
    forall i, j :: 0 <= i < j < |ws| && LeftOver(ws[i]) ==> ws[j].outcome != Complete
  }

  /** No completed relay is the first completed write behind one that failed halfway. */
  ghost predicate Intact(ws: seq<Write>) {
    forall j :: 0 <= j < |ws| && ws[j].Relayed? && ws[j].outcome == Complete ==> !Ragged(ws, j)
  }

  predicate NoneLost(attempts: seq<Write>) { forall w :: w in attempts ==> w.outcome != Lost }

  lemma RaggedAppend(ws: seq<Write>, w: Write, n: nat)
    requires n <= |ws|
    ensures Ragged(ws + [w], n) <==> Ragged(ws, n)
    ensures Ragged(ws + [w], |ws| + 1) <==> w.outcome != Complete && (Ragged(ws, |ws|) || w.bytes != "")
  {
    var us := ws + [w];
    assert forall i :: 0 <= i <= n ==> (NoneCompletes(us, i, n) <==> NoneCompletes(ws, i, n)) by {
      assert forall k :: 0 <= k < |ws| ==> us[k] == ws[k];
    }
    forall i | 0 <= i <= |ws|
      ensures NoneCompletes(us, i, |ws| + 1) <==> NoneCompletes(ws, i, |ws|) && w.outcome != Complete
    {
      assert us[|ws|] == w && forall k :: 0 <= k < |ws| ==> us[k] == ws[k];
    }
    assert w.outcome != Complete && w.bytes != "" ==> LeftOver(us[|ws|]) && NoneCompletes(us, |ws|, |ws| + 1);
  }

  lemma {:induction false} RestIff(ws: seq<Write>)
    ensures Rest(ws) != "" <==> Ragged(ws, |ws|)
  {
    hide Ragged;
    if ws == [] {
      NothingRagged(ws);
    } else {
      var front, w := ws[..|ws| - 1], ws[|ws| - 1];
      assert ws == front + [w];
      RestIff(front);
      SentAppend(front, w);
      RaggedAppend(front, w, |front|);
    }
  }

  lemma NothingRagged(ws: seq<Write>)
    ensures !Ragged(ws, 0)
  {
  }

  lemma IntactAppend(ws: seq<Write>, w: Write)
    ensures Intact(ws + [w]) <==> Intact(ws) && (w.Relayed? && w.outcome == Complete ==> Rest(ws) == "")
  {
    hide Ragged;
    RestIff(ws);
    forall n | 0 <= n <= |ws|
      ensures Ragged(ws + [w], n) <==> Ragged(ws, n)
    {
      RaggedAppend(ws, w, n);
    }
    assert forall k :: 0 <= k < |ws| ==> (ws + [w])[k] == ws[k];
    assert (ws + [w])[|ws|] == w;
  }

  lemma CleanAppend(ws: seq<Write>, w: Write)
    ensures Clean(ws + [w]) <==> Clean(ws) && (w.outcome == Complete ==> Rest(ws) == "")
  {
    var us := ws + [w];
    RestIff(ws);
    assert forall k :: 0 <= k < |ws| ==> us[k] == ws[k];
    assert us[|ws|] == w;
    if Clean(ws) {
      assert forall i :: 0 <= i < |ws| && LeftOver(ws[i]) ==> NoneCompletes(ws, i, |ws|);
    }
  }

  lemma CompletedAppend(ws: seq<Write>, w: Write)
    ensures CompletedTexts(ws + [w]) == CompletedTexts(ws) + (if w.outcome == Complete then [WriteText(w)] else [])
  {
    assert (ws + [w])[..|ws|] == ws;
  }

  lemma SnocEqual<T>(a: seq<T>, x: T, b: seq<T>, y: T)
    ensures a + [x] == b + [y] <==> a == b && x == y
  {
    if a + [x] == b + [y] {
      assert |a + [x]| == |b + [y]|;
      assert a == (a + [x])[..|a|] && b == (b + [y])[..|b|];
      assert x == (a + [x])[|a|] && y == (b + [y])[|b|];
    }
  }

  lemma TextsAppend(arrivals: seq<Arrival>, a: Arrival)
    ensures Texts(arrivals + [a]) == Texts(arrivals) + [a.text]
  {
  }

  lemma Prefixed(rest: string, t: string)
    ensures rest + t == t <==> rest == ""
  {
    assert |rest + t| == |rest| + |t|;
  }

  lemma {:induction false} ArrivalsIff(ws: seq<Write>)
    ensures |Texts(Arrivals(ws))| == |CompletedTexts(ws)|
    ensures Texts(Arrivals(ws)) == CompletedTexts(ws) <==> Clean(ws)
  {
    if ws != [] {
      hide Clean, Rest;
      var front, w := ws[..|ws| - 1], ws[|ws| - 1];
      assert ws == front + [w];
      ArrivalsIff(front);
      SentAppend(front, w);
      CleanAppend(front, w);
      CompletedAppend(front, w);
      if w.outcome == Complete {
        TextsAppend(Arrivals(front), Arrival(w, Rest(front) + WriteText(w)));
        SnocEqual(Texts(Arrivals(front)), Rest(front) + WriteText(w), CompletedTexts(front), WriteText(w));
        Prefixed(Rest(front), WriteText(w));
      } else {
        assert Arrivals(front) + [] == Arrivals(front) && CompletedTexts(front) + [] == CompletedTexts(front);
      }
    }
  }

  /** A client decodes exactly the texts of the writes that completed if and only if no write that failed halfway
      is followed by a completed one. */
  lemma DecodesIff(ws: seq<Write>)
    requires AllFramed(ws)
    ensures Messages(Sent(ws)) == CompletedTexts(ws) <==> Clean(ws)
  {
    WireDecodes(ws);
    ArrivalsIff(ws);
  }

  // ---------------------------------------------------------------- relayed messages

  /** The decoded messages that end with a relay. */
  function RelaysOf(arrivals: seq<Arrival>): seq<string> {
    if arrivals == [] then []
    else
      var a := arrivals[|arrivals| - 1];
      RelaysOf(arrivals[..|arrivals| - 1]) + (if a.write.Relayed? then [a.text] else [])
  }

  /** What a client decodes from its relays, by WireDecodes. */
  function Heard(ws: seq<Write>): seq<string> { RelaysOf(Arrivals(ws)) }

  lemma HeardAppend(ws: seq<Write>, w: Write)
    ensures Heard(ws + [w]) ==
      Heard(ws) + (if w.Relayed? && w.outcome == Complete then [Rest(ws) + WriteText(w)] else [])
  {
    hide Rest;
    SentAppend(ws, w);
    var a := Arrival(w, Rest(ws) + WriteText(w));
    if w.outcome == Complete {
      assert (Arrivals(ws) + [a])[..|Arrivals(ws)|] == Arrivals(ws);
    } else {
      assert Arrivals(ws) + [] == Arrivals(ws);
    }
  }

  lemma WriteTextsAppend(ws: seq<Write>, w: Write)
    ensures WriteTexts(ws + [w]) == WriteTexts(ws) + [WriteText(w)]
  {
  }

  lemma NoneLostAppend(a: seq<Write>, w: Write)
    ensures NoneLost(a + [w]) <==> NoneLost(a) && w.outcome != Lost
    ensures NeverBroken(a + [w]) <==> NeverBroken(a) && w.outcome != Broken
  {
    assert forall x :: x in a + [w] <==> x in a || x == w;
  }

  /** While no relay broke the connection: as many messages are heard as relays were attempted if none was lost, and
      they are the relayed texts if moreover none came behind a write that failed halfway. */
  lemma {:induction false} HeardAll(ws: seq<Write>)
    requires NeverBroken(Attempts(ws))
    ensures |Heard(ws)| <= |Attempts(ws)|
    ensures |Heard(ws)| == |Attempts(ws)| <==> NoneLost(Attempts(ws))
    ensures Heard(ws) == WriteTexts(Attempts(ws)) <==> NoneLost(Attempts(ws)) && Intact(ws)
  {
    if ws == [] {
      assert Heard(ws) == [] && WriteTexts(Attempts(ws)) == [];
    } else {
      hide Heard, Intact, Rest, NoneLost, NeverBroken, WriteTexts;
      var front, w := ws[..|ws| - 1], ws[|ws| - 1];
      assert ws == front + [w];
      AttemptsAppend(front, w);
      NoneLostAppend(Attempts(front), w);
      HeardAppend(front, w);
      IntactAppend(front, w);
      if w.Relayed? {
        HeardAll(front);
        WriteTextsAppend(Attempts(front), w);
        SnocEqual(Heard(front), Rest(front) + WriteText(w), WriteTexts(Attempts(front)), WriteText(w));
        Prefixed(Rest(front), WriteText(w));
        WriteTextsLength(Attempts(front));
        if w.outcome != Complete {
          assert Heard(ws) == Heard(front);
          LengthsDiffer(Heard(front), WriteTexts(Attempts(front)), WriteText(w));
        }
      } else {
        assert Attempts(ws) == Attempts(front) && Heard(ws) == Heard(front);
        HeardAll(front);
      }
    }
  }

  lemma WriteTextsLength(ws: seq<Write>)
    ensures |WriteTexts(ws)| == |ws|
  {
  }

  lemma LengthsDiffer(a: seq<string>, b: seq<string>, x: string)
    requires |a| <= |b|
    ensures a != b + [x]
  {
    assert |b + [x]| == |b| + 1;
  }

  /** The relays but for a last one that broke the connection. */
  function Survived(attempts: seq<Write>): seq<Write> {
    if attempts != [] && attempts[|attempts| - 1].outcome == Broken then attempts[..|attempts| - 1] else attempts
  }

  lemma {:induction false} HeardSurvived(ws: seq<Write>)
    requires BrokenAtMostLast(Attempts(ws))
    ensures Heard(ws) == WriteTexts(Survived(Attempts(ws))) <==> NoneLost(Attempts(ws)) && Intact(ws)
    ensures NoneLost(Attempts(ws)) ==> |Heard(ws)| == |Survived(Attempts(ws))|
  {
    var a := Attempts(ws);
    if a == [] || a[|a| - 1].outcome != Broken {
      assert NeverBroken(a) by {
        assert a != [] ==> a == a[..|a| - 1] + [a[|a| - 1]];
      }
      HeardAll(ws);
    } else {
      hide Heard, Intact, Rest, NoneLost, NeverBroken, WriteTexts;
      var front, w := ws[..|ws| - 1], ws[|ws| - 1];
      assert ws == front + [w];
      AttemptsAppend(front, w);
      HeardAppend(front, w);
      IntactAppend(front, w);
      if w.Relayed? {
        assert a[..|a| - 1] == Attempts(front);
        assert Heard(ws) == Heard(front);
        NoneLostAppend(Attempts(front), w);
        HeardAll(front);
      } else {
        assert Attempts(ws) == Attempts(front) && Heard(ws) == Heard(front);
        HeardSurvived(front);
      }
    }
  }

  // ---------------------------------------------------------------- the peer's buffer

  lemma FramedFits(ws: seq<Write>)
    requires AllFramed(ws) && Clean(ws) && forall w :: w in ws ==> |WriteText(w)| + |CRLF| <= USABLE
    ensures Fits(Sent(ws)) <==> |Rest(ws)| <= USABLE
  {
    WireDecodes(ws);
    DecodesIff(ws);
    CompletedAreTexts(ws);
  }

  lemma {:induction false} CompletedAreTexts(ws: seq<Write>)
    ensures forall t :: t in CompletedTexts(ws) ==> exists w :: w in ws && t == WriteText(w)
  {
    if ws != [] {
      var front, w := ws[..|ws| - 1], ws[|ws| - 1];
      CompletedAreTexts(front);
      assert ws == front + [w] && w in ws;
      forall t | t in CompletedTexts(ws)
        ensures exists v :: v in ws && t == WriteText(v)
      {
        if t in CompletedTexts(front) {
          var v :| v in front && t == WriteText(v);
          assert v in ws;
        }
      }
    }
  }

  /** No arrival, with what failed writes left in front of it, is longer than a receive buffer, nor is the rest. */
  predicate ArrivalsFit(ws: seq<Write>) {
    |Rest(ws)| <= USABLE && forall i :: 0 <= i < |Arrivals(ws)| ==> |Arrivals(ws)[i].text| + |CRLF| <= USABLE
  }

  /** That is exactly when the stream fits the receive buffer of the client. */
  lemma FitsIff(ws: seq<Write>)
    requires AllFramed(ws)
    ensures Fits(Sent(ws)) <==> ArrivalsFit(ws)
  {
    WireDecodes(ws);
    var ts := Texts(Arrivals(ws));
    assert forall i :: 0 <= i < |ts| ==> ts[i] == Arrivals(ws)[i].text && ts[i] in ts;
  }

  // ---------------------------------------------------------------- when nothing failed

  predicate AllComplete(ws: seq<Write>) { forall w :: w in ws ==> w.outcome == Complete }

  lemma {:induction false} AllCompleteIs(ws: seq<Write>)
    requires AllComplete(ws)
    ensures Clean(ws) && Intact(ws) && NoneLost(Attempts(ws)) && Rest(ws) == ""
    ensures CompletedTexts(ws) == WriteTexts(ws)
  {
    if ws == [] {
      assert WriteTexts(ws) == [];
    } else {
      hide Clean, Intact, Rest, NoneLost, WriteTexts, CompletedTexts;
      var front, w := ws[..|ws| - 1], ws[|ws| - 1];
      assert ws == front + [w] && w in ws;
      AllCompleteIs(front);
      SentAppend(front, w);
      CleanAppend(front, w);
      IntactAppend(front, w);
      AttemptsAppend(front, w);
      NoneLostAppend(Attempts(front), w);
      CompletedAppend(front, w);
      WriteTextsAppend(front, w);
      if !w.Relayed? {
        assert Attempts(ws) == Attempts(front);
      }
    }
  }
}
