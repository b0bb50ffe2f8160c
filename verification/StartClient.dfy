/** What `start-client` and `send` put on the wire, and how `start-client` reads frames (src/builtins.c). */
module StartClient {
  import opened Text
  import opened Framing
  import opened Socket
  import opened Strtok

  /** sizeof io_buf: fgets() stores one byte less and a NUL. */
  const IO_BUF := MAX_USER_MSG + 2

  // ---------------------------------------------------------------- lines and pieces

  /** The position of the first '\n', or |s|. */
  function LineEnd(s: string): (n: nat)
    ensures n <= |s| && (n < |s| ==> s[n] == '\n') && forall i :: 0 <= i < n ==> s[i] != '\n'
  {
    if s == "" || s[0] == '\n' then 0 else 1 + LineEnd(s[1..])
  }

  /** A line in pieces of MAX_USER_MSG bytes, the last one possibly shorter. */
  function Pieces(line: string): seq<string>
    decreases |line|
  {
    if |line| <= MAX_USER_MSG then [line] else [line[..MAX_USER_MSG]] + Pieces(line[MAX_USER_MSG..])
  }

  predicate Terminated(text: string) { text == "" || text[|text| - 1] == '\n' }

  /** The pieces of all lines of `text`. */
  function TypedPieces(text: string): seq<string>
    requires Terminated(text)
    decreases |text|
  {
    if text == "" then []
    else
      var n := LineEnd(text);
      Pieces(text[..n]) + TypedPieces(text[n+1..])
  }

  /** Cutting a line loses nothing and adds nothing; only the last piece may be short, and no piece is empty
      unless the line is. */
  lemma {:induction false} PiecesOfLine(line: string)
    ensures Concat(Pieces(line)) == line && Pieces(line) != []
    ensures forall i :: 0 <= i < |Pieces(line)| - 1 ==> |Pieces(line)[i]| == 1024
    ensures |Pieces(line)[|Pieces(line)| - 1]| <= 1024
    ensures line != "" ==> Pieces(line)[|Pieces(line)| - 1] != ""
    decreases |line|
  {
    if |line| > MAX_USER_MSG {
      PiecesOfLine(line[MAX_USER_MSG..]);
      var first, rest := line[..MAX_USER_MSG], Pieces(line[MAX_USER_MSG..]);
      assert ([first] + rest)[1..] == rest;
    } else {
      assert Concat([line]) == line + Concat([line][1..]);
    }
  }

  predicate PieceOk(p: string) { |p| <= MAX_USER_MSG && NUL !in p && '\n' !in p }

  lemma {:induction false} PiecesOk(line: string)
    requires NUL !in line && '\n' !in line
    ensures forall p :: p in Pieces(line) ==> PieceOk(p)
    decreases |line|
  {
    if |line| > MAX_USER_MSG {
      PiecesOk(line[MAX_USER_MSG..]);
    }
  }

  lemma {:induction false} TypedPiecesOk(text: string)
    requires Terminated(text) && NUL !in text
    ensures forall p :: p in TypedPieces(text) ==> PieceOk(p)
    decreases |text|
  {
    if text != "" {
      PiecesOk(text[..LineEnd(text)]);
      TypedPiecesOk(text[LineEnd(text) + 1..]);
    }
  }

  lemma PieceIsFrame(p: string)
    requires PieceOk(p)
    ensures CrlfFree(p) && |p| + |CRLF| <= USABLE
  {
  }

  // ---------------------------------------------------------------- one turn of the input loop

  /** How many bytes fgets() takes from `rest`: through the first '\n', or as many as fit. */
  function FgetsLength(rest: string): nat {
    var n := LineEnd(rest);
    if n < |rest| && n + 1 <= IO_BUF - 1 then n + 1 else Min(|rest|, IO_BUF - 1)
  }

  /** The piece sent, and how much of the input it uses up: a '\n' is dropped, any other last byte put back. */
  function TypeStep(rest: string): (string, nat)
    requires rest != ""
  {
    var n := FgetsLength(rest);
    (rest[..n-1], if rest[n-1] == '\n' then n else n - 1)
  }

  /** A line that fits leaves in one turn. */
  lemma ShortLineStep(rest: string)
    requires Terminated(rest) && rest != "" && LineEnd(rest) <= MAX_USER_MSG
    ensures TypeStep(rest) == (rest[..LineEnd(rest)], LineEnd(rest) + 1)
    ensures TypedPieces(rest) == [rest[..LineEnd(rest)]] + TypedPieces(rest[LineEnd(rest) + 1..])
  {
  }

  /** A longer line leaves its first piece, and the byte after it is put back. */
  lemma LongLineStep(rest: string)
    requires Terminated(rest) && rest != "" && LineEnd(rest) > MAX_USER_MSG
    ensures TypeStep(rest) == (rest[..MAX_USER_MSG], MAX_USER_MSG)
    ensures Terminated(rest[MAX_USER_MSG..])
  {
    assert rest[MAX_USER_MSG] != '\n';
  }

  lemma LineEndBehind(rest: string, k: nat)
    requires LineEnd(rest) < |rest| && LineEnd(rest) > k
    ensures LineEnd(rest[k..]) == LineEnd(rest) - k
  {
    hide LineEnd;
    var more := rest[k..];
    forall i | 0 <= i < LineEnd(rest) - k
      ensures more[i] != '\n'
    {
      assert more[i] == rest[k + i];
    }
    LineEndIs(more, LineEnd(rest) - k);
  }

  lemma Slices(s: string, k: nat, n: nat)
    requires k <= n <= |s|
    ensures s[..n][..k] == s[..k]
    ensures s[..n][k..] == s[k..][..n - k]
    ensures s[k..][n - k..] == s[n..]
  {
  }

  lemma LineEndInside(text: string)
    requires Terminated(text) && text != ""
    ensures LineEnd(text) < |text| && Terminated(text[LineEnd(text) + 1..])
  {
    hide LineEnd;
    assert text[|text| - 1] == '\n';
  }

  lemma FirstPieces(text: string, n: nat, rest: string)
    requires Terminated(text) && Terminated(rest)
    requires n == LineEnd(text) < |text| && rest == text[n + 1..]
    ensures TypedPieces(text) == Pieces(text[..n]) + TypedPieces(rest)
  {
    hide LineEnd, Pieces;
  }

  lemma FirstLine(text: string)
    requires Terminated(text) && text != ""
    ensures LineEnd(text) < |text| && Terminated(text[LineEnd(text) + 1..])
    ensures TypedPieces(text) == Pieces(text[..LineEnd(text)]) + TypedPieces(text[LineEnd(text) + 1..])
  {
    hide LineEnd, Pieces, TypedPieces, Terminated;
    LineEndInside(text);
    FirstPieces(text, LineEnd(text), text[LineEnd(text) + 1..]);
  }

  lemma LongLinePieces(rest: string)
    requires Terminated(rest) && LineEnd(rest) > MAX_USER_MSG
    ensures Terminated(rest[MAX_USER_MSG..])
    ensures TypedPieces(rest) == [rest[..MAX_USER_MSG]] + TypedPieces(rest[MAX_USER_MSG..])
  {
    hide LineEnd, TypedPieces;
    var n, first, more := LineEnd(rest), rest[..MAX_USER_MSG], rest[MAX_USER_MSG..];
    FirstLine(rest);
    LineEndBehind(rest, MAX_USER_MSG);
    Slices(rest, MAX_USER_MSG, n);
    Slices(rest, MAX_USER_MSG, n + 1);
    FirstLine(more);
    var line, tail := more[..n - MAX_USER_MSG], rest[n+1..];
    assert Pieces(rest[..n]) == [first] + Pieces(line);
    assert ([first] + Pieces(line)) + TypedPieces(tail) == [first] + (Pieces(line) + TypedPieces(tail));
  }

  lemma TypeStepPieces(rest: string)
    requires Terminated(rest) && rest != ""
    ensures var (piece, used) := TypeStep(rest);
      1 <= used <= |rest| && Terminated(rest[used..]) &&
      TypedPieces(rest) == [piece] + TypedPieces(rest[used..])
  {
    hide TypedPieces, TypeStep;
    if LineEnd(rest) <= MAX_USER_MSG {
      ShortLineStep(rest);
    } else {
      LongLineStep(rest);
      LongLinePieces(rest);
    }
  }

  /** What was typed, line by line, each line with the newline that ends it. */
  function Typed(lines: seq<string>): string {
    if lines == [] then "" else lines[0] + "\n" + Typed(lines[1..])
  }

  function AllPieces(lines: seq<string>): seq<string> {
    if lines == [] then [] else Pieces(lines[0]) + AllPieces(lines[1..])
  }

  /** The pieces of a text are those of its lines, empty ones included, in order. */
  lemma {:induction false} PiecesOfLines(lines: seq<string>)
    requires forall line :: line in lines ==> '\n' !in line
    ensures Terminated(Typed(lines)) && TypedPieces(Typed(lines)) == AllPieces(lines)
  {
    hide TypedPieces, Pieces, LineEnd;
    if lines == [] {
      EncodeNothing();
    } else {
      var line, rest := lines[0], Typed(lines[1..]);
      var text := line + "\n" + rest;
      PiecesOfLines(lines[1..]);
      assert forall i :: 0 <= i < |line| ==> line[i] in line;
      LineEndIs(text, |line|);
      assert rest != "" ==> text[|text| - 1] == rest[|rest| - 1];
      FirstLine(text);
      assert text[..|line|] == line && text[|line| + 1..] == rest;
    }
  }

  /** And every text that ends with a newline has such lines. */
  lemma {:induction false} LinesOf(text: string) returns (lines: seq<string>)
    requires Terminated(text)
    ensures Typed(lines) == text && forall line :: line in lines ==> '\n' !in line
    decreases |text|
  {
    hide TypedPieces, Terminated;
    if text == "" {
      return [];
    }
    var n := LineEnd(text);
    FirstLine(text);
    var rest := LinesOf(text[n + 1..]);
    lines := [text[..n]] + rest;
    assert lines[1..] == rest && text == text[..n] + "\n" + text[n + 1..];
  }

  lemma LineEndIs(s: string, n: nat)
    requires n < |s| && s[n] == '\n' && forall i :: 0 <= i < n ==> s[i] != '\n'
    ensures LineEnd(s) == n
  {
  }

  /** `k` turns of the input loop. */
  function TypeSteps(rest: string, k: nat): string
    decreases k
  {
    if k == 0 || rest == "" then rest else TypeSteps(rest[TypeStep(rest).1..], k - 1)
  }

  lemma {:induction false} UnterminatedStays(rest: string, k: nat)
    requires !Terminated(rest)
    ensures !Terminated(TypeSteps(rest, k))
    decreases k
  {
    if k > 0 {
      UnterminatedStays(rest[TypeStep(rest).1..], k - 1);
    }
  }

  lemma {:induction false} TerminatedEnds(rest: string)
    requires Terminated(rest)
    ensures TypeSteps(rest, |TypedPieces(rest)|) == ""
    decreases |rest|
  {
    if rest != "" {
      TypeStepPieces(rest);
      TerminatedEnds(rest[TypeStep(rest).1..]);
    }
  }

  /** The input loop comes to the end of its input exactly when the input ends with a newline: without one,
      the byte put back is read again for ever. */
  lemma InputEndsIff(text: string)
    ensures (exists k :: TypeSteps(text, k) == "") <==> Terminated(text)
  {
    if Terminated(text) {
      TerminatedEnds(text);
    } else {
      forall k: nat
        ensures TypeSteps(text, k) != ""
      {
        UnterminatedStays(text, k);
      }
    }
  }

  method Fgets(stdin: string, pos: nat, buf: array<char>) returns (n: nat)
    requires buf.Length == IO_BUF && pos <= |stdin|
    modifies buf
    ensures n == FgetsLength(stdin[pos..]) && pos + n <= |stdin|
    ensures buf[..n] == stdin[pos..pos + n] && buf[n] == NUL
  {
    ghost var rest := stdin[pos..];
    n := 0;
    var newline := false;
    while n < IO_BUF - 1 && pos + n < |stdin| && !newline
      invariant n <= IO_BUF - 1 && n <= |rest|
      invariant buf[..n] == rest[..n]
      invariant if newline then n > 0 && rest[n-1] == '\n' && '\n' !in rest[..n-1] else '\n' !in rest[..n]
      decreases IO_BUF - n, !newline
    {
      assert rest[n] == stdin[pos + n] && rest[..n + 1] == rest[..n] + [rest[n]];
      buf[n] := stdin[pos + n];
      newline := buf[n] == '\n';
      n := n + 1;
    }
    buf[n] := NUL;
    FgetsTakes(rest, n, newline);
    assert rest[..n] == stdin[pos..pos + n];
  }

  lemma FgetsTakes(rest: string, n: nat, newline: bool)
    requires n <= |rest| && n <= IO_BUF - 1
    requires if newline then n > 0 && rest[n-1] == '\n' && '\n' !in rest[..n-1]
             else '\n' !in rest[..n] && (n == IO_BUF - 1 || n == |rest|)
    ensures n == FgetsLength(rest)
  {
    var k := if newline then n - 1 else n;
    assert forall i :: 0 <= i < k ==> rest[i] == rest[..k][i];
    if newline {
      LineEndIs(rest, n - 1);
    }
  }

  /** One turn: fgets(), the terminator over the last byte, and ungetc() if that was not a newline. */
  method TypeOne(stdin: string, pos: nat, ioBuf: array<char>) returns (frame: string, pos': nat)
    requires pos < |stdin| && ioBuf.Length == IO_BUF
    modifies ioBuf
    ensures frame == TypeStep(stdin[pos..]).0 + CRLF && pos' == pos + TypeStep(stdin[pos..]).1
  {
    ghost var rest := stdin[pos..];
    var msgLen := Fgets(stdin, pos, ioBuf);
    ghost var taken := ioBuf[..msgLen];
    assert taken == rest[..msgLen] && ioBuf[msgLen - 1] == rest[msgLen - 1];
    pos' := pos + msgLen;
    if ioBuf[msgLen - 1] != '\n' {
      pos' := pos' - 1;  // ungetc
    }
    ioBuf[msgLen - 1] := '\r';
    ioBuf[msgLen] := '\n';
    frame := ioBuf[..msgLen + 1];
    assert ioBuf[..msgLen - 1] == taken[..msgLen - 1] == rest[..msgLen - 1];
    assert frame == ioBuf[..msgLen - 1] + CRLF;
  }

  /** The input half of the start-client loop: each line leaves as its pieces, one frame each. */
  method SendTyped(stdin: string) returns (wire: string)
    requires Terminated(stdin) && NUL !in stdin
    ensures wire == Encode(TypedPieces(stdin))
  {
    hide TypedPieces, TypeStep;
    wire := "";
    var pos := 0;
    var ioBuf := new char[IO_BUF];
    assert stdin[0..] == stdin;
    while pos < |stdin|
      invariant 0 <= pos <= |stdin| && Terminated(stdin[pos..])
      invariant wire + Encode(TypedPieces(stdin[pos..])) == Encode(TypedPieces(stdin))
    {
      TypeStepPieces(stdin[pos..]);
      var frame, next := TypeOne(stdin, pos, ioBuf);
      assert stdin[next..] == stdin[pos..][next - pos..];
      wire, pos := wire + frame, next;
    }
    EncodeNothing();
  }

  lemma EncodeNothing()
    ensures TypedPieces("") == [] && Encode([]) == ""
  {
  }

  // ---------------------------------------------------------------- send

  /** The tokens with single spaces between them. */
  function Joined(tokens: seq<string>): string {
    if tokens == [] then "" else if |tokens| == 1 then tokens[0] else Joined(tokens[..|tokens| - 1]) + " " + tokens[|tokens| - 1]
  }

  /** Between any two tokens there is one blank, and nothing else is added. */
  lemma {:induction false} JoinedAppend(a: seq<string>, b: seq<string>)
    requires a != [] && b != []
    ensures Joined(a + b) == Joined(a) + " " + Joined(b)
    decreases |b|
  {
    var front, last := b[..|b| - 1], b[|b| - 1];
    assert (a + b)[..|a + b| - 1] == a + front;
    if front == [] {
      assert a + front == a;
      assert b == [last];
    } else {
      JoinedAppend(a, front);
      var x, y := Joined(a) + " ", Joined(front) + " ";
      assert Joined(b) == y + last;
      Associative(x, y, last);
      Associative(x, Joined(front), " ");
    }
  }

  function Blanks(s: string): nat {
    if s == "" then 0 else Blanks(s[..|s| - 1]) + (if s[|s| - 1] == ' ' then 1 else 0)
  }

  lemma {:induction false} BlanksAppend(a: string, b: string)
    ensures Blanks(a + b) == Blanks(a) + Blanks(b)
    decreases |b|
  {
    if b == "" {
      assert a + b == a;
    } else {
      assert (a + b)[..|a + b| - 1] == a + b[..|b| - 1];
      BlanksAppend(a, b[..|b| - 1]);
    }
  }

  lemma {:induction false} NoBlanks(s: string)
    requires ' ' !in s
    ensures Blanks(s) == 0
  {
    if s != "" {
      NoBlanks(s[..|s| - 1]);
    }
  }

  /** Cut at the blanks, the joined tokens are the tokens again, and there is one blank less than there are tokens. */
  lemma {:induction false} JoinedWords(tokens: seq<string>)
    requires tokens != [] && forall t :: t in tokens ==> t != "" && ' ' !in t
    ensures Words(Joined(tokens), {' '}) == tokens
    ensures Blanks(Joined(tokens)) == |tokens| - 1
    decreases |tokens|
  {
    hide Words, Blanks;
    var front, last := tokens[..|tokens| - 1], tokens[|tokens| - 1];
    assert last in tokens && tokens == front + [last];
    NoBlanks(last);
    if front == [] {
      OneWord(last);
      assert Joined(tokens) == last;
    } else {
      hide Joined;
      assert forall t :: t in front ==> t in tokens;
      JoinedAppend(front, [last]);
      JoinedWords(front);
      var j := Joined(front);
      WordsAppend(j, ' ', last, {' '});
      BlanksAppend(j + " ", last);
      BlanksAppend(j, " ");
      OneBlank();
      assert Joined(tokens) == j + [' '] + last by { JustOne(last); }
    }
  }

  lemma JustOne(token: string)
    ensures Joined([token]) == token
  {
  }

  lemma OneWord(w: string)
    requires w != "" && ' ' !in w
    ensures Words(w, {' '}) == [w]
  {
    WordThen(w, "", {' '});
    assert w + "" == w;
  }

  lemma OneBlank()
    ensures Blanks(" ") == 1
  {
    assert " "[..0] == "";
  }

  lemma TakeAppend(a: string, b: string, n: nat)
    ensures Take(a + b, n) == if |a| >= n then Take(a, n) else a + Take(b, n - |a|)
  {
  }

  lemma WholeMessage(tokens: seq<string>, frame: string)
    requires tokens != [] && frame == Take(Joined(tokens), MAX_USER_MSG) + CRLF
    ensures |frame| >= 2
    ensures |Joined(tokens)| <= MAX_USER_MSG && (forall t :: t in tokens ==> t != "" && ' ' !in t) ==>
      Words(frame[..|frame| - 2], {' '}) == tokens
  {
    hide Words, Joined;
    if |Joined(tokens)| <= MAX_USER_MSG && forall t :: t in tokens ==> t != "" && ' ' !in t {
      JoinedWords(tokens);
      assert frame[..|frame| - 2] == Joined(tokens);
    }
  }

  lemma JoinNext(tokens: seq<string>, i: nat)
    requires i < |tokens|
    ensures Joined(tokens[..i + 1]) == if i == 0 then tokens[i] else Joined(tokens[..i]) + " " + tokens[i]
  {
    assert tokens[..i + 1][..i] == tokens[..i];
  }

  lemma JoinedNothing()
    ensures Joined([]) == ""
  {
  }

  /** `send` writes one frame: the first 1024 bytes of its tokens with single blanks in between. If none had to be cut
      off, the receiver can cut the message at its blanks and has the tokens. */
  method SendMessage(tokens: seq<string>) returns (frame: string)
    requires tokens != []
    ensures frame == Take(Joined(tokens), 1024) + CRLF
    ensures |Joined(tokens)| <= 1024 && (forall t :: t in tokens ==> t != "" && ' ' !in t) ==>
      |frame| >= 2 && Words(frame[..|frame| - 2], {' '}) == tokens
  {
    hide Words, Joined;
    var left := MAX_USER_MSG;
    var message := "";
    var i := 0;
    JoinedNothing();
    while i < |tokens|
      invariant 0 <= i <= |tokens| && left == MAX_USER_MSG - |message| && 0 <= left
      invariant message == Take(Joined(tokens[..i]), MAX_USER_MSG)
    {
      if i > 0 && left > 0 {
        message := message + Take(" ", left);
        left := left - 1;
      }
      if left > 0 {
        var tokenLen := |tokens[i]|;
        var appendLen := if tokenLen < left then tokenLen else left;
        message := message + tokens[i][..appendLen];
        left := left - appendLen;
      }
      JoinNext(tokens, i);
      if i > 0 {
        TakeAppend(Joined(tokens[..i]), " ", MAX_USER_MSG);
        TakeAppend(Joined(tokens[..i]) + " ", tokens[i], MAX_USER_MSG);
      }
      i := i + 1;
    }
    assert tokens[..i] == tokens;
    frame := message + CRLF;
    WholeMessage(tokens, frame);
  }

  lemma {:induction false} JoinedHasNoNewline(tokens: seq<string>)
    requires forall t :: t in tokens ==> '\n' !in t
    ensures '\n' !in Joined(tokens)
  {
    if |tokens| > 1 {
      JoinedHasNoNewline(tokens[..|tokens| - 1]);
    }
  }

  /** The frame of `send` fits the server's buffer and is decoded as one message. */
  lemma SendIsOneFrame(tokens: seq<string>)
    requires tokens != [] && forall t :: t in tokens ==> '\n' !in t
    ensures var m := Take(Joined(tokens), MAX_USER_MSG);
      Messages(m + CRLF) == [m] && Tail(m + CRLF) == "" && Fits(m + CRLF)
  {
    var m := Take(Joined(tokens), MAX_USER_MSG);
    JoinedHasNoNewline(tokens);
    assert CrlfFree(m) && CrlfFree("");
    DecodeEncode([m], "");
    assert Encode([m]) + "" == m + CRLF;
  }

  // ---------------------------------------------------------------- reading frames

  datatype Shown = Chat(name: string, text: string) | Raw(text: string)

  function SpaceAt(s: string): (n: nat)
    ensures n <= |s| && (n < |s| ==> s[n] == ' ') && forall i :: 0 <= i < n ==> s[i] != ' '
  {
    if s == "" || s[0] == ' ' then 0 else 1 + SpaceAt(s[1..])
  }

  /** A message is split at its first space, if it has one. */
  function Show(msg: string): Shown {
    var s := CStr(msg);
    var n := SpaceAt(s);
    if n < |s| then Chat(s[..n], s[n+1..]) else Raw(s)
  }

  function ShowAll(msgs: seq<string>): seq<Shown> { seq(|msgs|, i requires 0 <= i < |msgs| => Show(msgs[i])) }

  lemma SpaceAtIs(s: string, n: nat)
    requires n < |s| && s[n] == ' ' && forall i :: 0 <= i < n ==> s[i] != ' '
    ensures SpaceAt(s) == n
  {
  }

  /** A message is shown whole: as it is if it holds no blank, otherwise cut at the first one. */
  lemma ShowIs(msg: string)
    ensures ' ' !in CStr(msg) ==> Show(msg) == Raw(CStr(msg))
    ensures ' ' in CStr(msg) ==>
      Show(msg).Chat? && ' ' !in Show(msg).name && Show(msg).name + " " + Show(msg).text == CStr(msg)
  {
    var s := CStr(msg);
    var n := SpaceAt(s);
    if n < |s| {
      assert s[n] in s && s == s[..n] + " " + s[n+1..];
      forall c | c in s[..n]
        ensures c != ' '
      {
      }
    }
  }

  /** What is displayed. */
  function OnScreen(shown: Shown): string {
    match shown
    case Chat(name, text) => name + ": " + text + "\n"
    case Raw(text) => text
  }

  /** The displayed line fits the buffer it is made in. */
  lemma ScreenFits(msg: string)
    requires |msg| + |CRLF| <= USABLE
    ensures |OnScreen(Show(msg))| < BUF_SIZE
  {
    ShowIs(msg);
    CStrIff(msg, CStr(msg));
  }

  function Screen(msgs: seq<string>): seq<string> {
    seq(|msgs|, i requires 0 <= i < |msgs| => OnScreen(Show(msgs[i])))
  }

  /** The output half of the start-client loop, for one read that delivers data. */
  method ReceiveShown(buf: array<char>, inbuf: nat, o: ReadOutcome)
    returns (shown: seq<Shown>, screen: seq<string>, n: nat)
    requires buf.Length == BUF_SIZE && inbuf <= USABLE && o.Data?
    requires KernelAnswers(o, USABLE - inbuf) && CrlfFree(buf[..inbuf])
    modifies buf
    ensures n <= USABLE && buf[..n] == Tail(old(buf[..inbuf]) + o.bytes)
    ensures shown == ShowAll(Messages(old(buf[..inbuf]) + o.bytes))
    ensures screen == Screen(Messages(old(buf[..inbuf]) + o.bytes))
  {
    hide Show, OnScreen, Messages, Tail, CrlfFree;
    var ret, msgs;
    ret, msgs, n := ReadAndDrain(buf, inbuf, o);
    shown, screen := [], [];
    for i := 0 to |msgs|
      invariant shown == ShowAll(msgs[..i]) && screen == Screen(msgs[..i])
    {
      assert msgs[..i + 1] == msgs[..i] + [msgs[i]];
      var split := Show(msgs[i]);
      shown := shown + [split];
      screen := screen + [OnScreen(split)];
    }
    assert msgs[..|msgs|] == msgs;
  }
}
