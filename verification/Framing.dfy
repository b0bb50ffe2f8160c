/** CRLF framing over a bounded receive buffer: src/socket.c. */
module Framing {
  import opened Text

  const MAX_NAME := 100
  const MAX_USER_MSG := 1024
  const BUF_SIZE := 1 + MAX_NAME + 1 + MAX_USER_MSG + 2 + 1
  /** One byte of the buffer is never filled. */
  const USABLE := BUF_SIZE - 1

  const CRLF := "\r\n"

  // ---------------------------------------------------------------- frames of a byte string

  predicate CrlfAt(s: string, i: int) { 0 <= i && i + 1 < |s| && s[i] == '\r' && s[i+1] == '\n' }

  ghost predicate CrlfFree(s: string) { forall i :: !CrlfAt(s, i) }

  /** One past the '\n' of the first network newline at or after `i`, or -1. */
  function EndFrom(s: string, i: nat): (e: int)
    ensures e == -1 <==> forall k :: i <= k ==> !CrlfAt(s, k)
    ensures e != -1 ==> i + 2 <= e <= |s| && CrlfAt(s, e - 2) && forall k :: i <= k < e - 2 ==> !CrlfAt(s, k)
    decreases |s| - i
  {
    if i + 1 >= |s| then -1 else if CrlfAt(s, i) then i + 2 else EndFrom(s, i + 1)
  }

  function FirstEnd(s: string): int { EndFrom(s, 0) }

  /** The complete CRLF-terminated messages of `s`, without their terminators. */
  function Messages(s: string): seq<string> {
    var e := FirstEnd(s);
    if e == -1 then [] else [s[..e-2]] + Messages(s[e..])
  }

  /** What follows the last complete message of `s`. */
  function Tail(s: string): string {
    var e := FirstEnd(s);
    if e == -1 then s else Tail(s[e..])
  }

  /** The byte stream carrying the messages `ms`. */
  function Encode(ms: seq<string>): string {
    if ms == [] then "" else ms[0] + CRLF + Encode(ms[1..])
  }

  lemma {:induction false} TailCrlfFree(s: string)
    ensures CrlfFree(Tail(s)) && |Tail(s)| <= |s|
    decreases |s|
  {
    var e := FirstEnd(s);
    if e != -1 {
      TailCrlfFree(s[e..]);
    }
  }

  /** The first terminator of a frame is the one that was put there, whatever the body's last byte. */
  lemma FirstEndOfFrame(m: string, rest: string)
    requires CrlfFree(m)
    ensures FirstEnd(m + CRLF + rest) == |m| + 2
    ensures (m + CRLF + rest)[..|m|] == m && (m + CRLF + rest)[|m| + 2..] == rest
  {
    var s := m + CRLF + rest;
    assert CrlfAt(s, |m|);
    forall i | 0 <= i < |m|
      ensures !CrlfAt(s, i)
    {
      assert !CrlfAt(m, i);
    }
  }

  /** Decoding undoes encoding: framing is injective on CRLF-free bodies. */
  lemma {:induction false} DecodeEncode(ms: seq<string>, t: string)
    requires forall m :: m in ms ==> CrlfFree(m)
    requires CrlfFree(t)
    ensures Messages(Encode(ms) + t) == ms
    ensures Tail(Encode(ms) + t) == t
  {
    if ms == [] {
      assert Encode(ms) + t == t;
    } else {
      var rest := Encode(ms[1..]) + t;
      assert Encode(ms) + t == ms[0] + CRLF + rest;
      FirstEndOfFrame(ms[0], rest);
      DecodeEncode(ms[1..], t);
    }
  }

  lemma PrefixCrlfFree(s: string, n: nat)
    requires n <= |s| && forall i :: 0 <= i < n - 1 ==> !CrlfAt(s, i)
    ensures CrlfFree(s[..n])
  {
    forall i
      ensures !CrlfAt(s[..n], i)
    {
      if 0 <= i < n - 1 {
        assert !CrlfAt(s, i);
      }
    }
  }

  lemma EncodeFirst(m: string, ms: seq<string>, t: string)
    ensures Encode([m] + ms) + t == m + CRLF + (Encode(ms) + t)
  {
    assert ([m] + ms)[1..] == ms;
  }

  /** The first message of a string that has one. */
  lemma FirstMessage(s: string)
    requires FirstEnd(s) != -1
    ensures var e := FirstEnd(s);
      && 2 <= e <= |s| && CrlfFree(s[..e-2]) && s == s[..e-2] + CRLF + s[e..]
      && Messages(s) == [s[..e-2]] + Messages(s[e..]) && Tail(s) == Tail(s[e..])
  {
    hide CrlfFree;
    CutAt(s, FirstEnd(s));
    PrefixCrlfFree(s, FirstEnd(s) - 2);
  }

  lemma CutAt(s: string, e: nat)
    requires 2 <= e <= |s| && CrlfAt(s, e - 2)
    ensures s == s[..e-2] + CRLF + s[e..]
  {
    assert s[e-2..e] == CRLF;
    assert s == s[..e-2] + s[e-2..e] + s[e..];
  }

  lemma NoMessage(s: string)
    requires FirstEnd(s) == -1
    ensures Messages(s) == [] && Tail(s) == s && CrlfFree(s)
  {
  }

  /** Encoding undoes decoding, and every decoded body is CRLF-free. */
  lemma {:induction false} EncodeDecode(s: string)
    ensures Encode(Messages(s)) + Tail(s) == s
    ensures forall m :: m in Messages(s) ==> CrlfFree(m)
    decreases |s|
  {
    hide Encode, CrlfFree, Messages, Tail, FirstEnd;
    if FirstEnd(s) == -1 {
      NoMessage(s);
      EncodeEmpty(s);
    } else {
      FirstMessage(s);
      var m, rest := s[..FirstEnd(s) - 2], s[FirstEnd(s)..];
      EncodeDecode(rest);
      EncodeFirst(m, Messages(rest), Tail(rest));
    }
  }

  lemma EncodeEmpty(t: string)
    ensures Encode([]) + t == t
  {
  }

  lemma {:induction false} MessagesOfCrlfFree(s: string)
    requires CrlfFree(s)
    ensures Messages(s) == [] && Tail(s) == s
  {
    assert FirstEnd(s) == -1;
  }

  /** A message that is complete stays the first one when more bytes follow. */
  lemma FirstEndStays(a: string, b: string)
    requires FirstEnd(a) != -1
    ensures FirstEnd(a + b) == FirstEnd(a)
    ensures (a + b)[..FirstEnd(a) - 2] == a[..FirstEnd(a) - 2] && (a + b)[FirstEnd(a)..] == a[FirstEnd(a)..] + b
  {
    var e, s := FirstEnd(a), a + b;
    assert forall i :: i + 1 < |a| ==> CrlfAt(s, i) == CrlfAt(a, i);
    assert CrlfAt(s, e - 2);
  }

  /** Decoding is incremental: only the tail of what came before matters. */
  lemma {:induction false} DecodeAppend(a: string, b: string)
    ensures Messages(a + b) == Messages(a) + Messages(Tail(a) + b)
    ensures Tail(a + b) == Tail(Tail(a) + b)
    decreases |a|
  {
    hide FirstEnd, Messages, Tail, CrlfFree;
    if FirstEnd(a) == -1 {
      NoMessage(a);
      assert [] + Messages(a + b) == Messages(a + b);
    } else {
      FirstMessage(a);
      FirstEndStays(a, b);
      FirstMessage(a + b);
      var m, rest := a[..FirstEnd(a) - 2], a[FirstEnd(a)..];
      DecodeAppend(rest, b);
      Associative([m], Messages(rest), Messages(Tail(a) + b));
    }
  }
}
