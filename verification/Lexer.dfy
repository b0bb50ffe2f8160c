/** From the input line to tokens: the padding of '|' in the main loop of src/mysh.c and tokenize_input() of
    src/io_helpers.c. */
module Lexer {
  import opened Text
  import opened Strtok

  const DELIMITERS := {' ', '\t', '\n'}
  const BAR := '|'

  // ---------------------------------------------------------------- the declarative form

  /** The tokens of a line: its maximal runs without whitespace and bars, and every bar by itself; see LexIff. */
  function Lex(s: string): seq<string>
    decreases |s|
  {
    if s == "" then []
    else if s[0] in DELIMITERS then Lex(s[1..])
    else if s[0] == BAR then [[BAR]] + Lex(s[1..])
    else var k := RunLength(s, DELIMITERS + {BAR}); [s[..k]] + Lex(s[k..])
  }

  predicate IsWord(t: string) { t != "" && NoneIn(t, {' ', '\t', '\n', '|'}) }

  /** Tokens are bars and words; between two words there is whitespace, elsewhere there may be. */
  predicate Separated(tokens: seq<string>, seps: seq<string>) {
    && |seps| == |tokens| + 1
    && (forall i :: 0 <= i < |tokens| ==> tokens[i] == "|" || IsWord(tokens[i]))
    && (forall i :: 0 <= i <= |tokens| ==> AllIn(seps[i], {' ', '\t', '\n'}))
    && (forall i :: 0 < i < |tokens| && IsWord(tokens[i-1]) && IsWord(tokens[i]) ==> seps[i] != "")
  }

  /** `s` is `tokens` with whitespace around them. */
  ghost predicate LexSplits(s: string, tokens: seq<string>) {
    exists seps :: Separated(tokens, seps) && s == Spread(tokens, seps)
  }

  lemma {:induction false} SpaceThen(sep: string, rest: string)
    requires AllIn(sep, DELIMITERS)
    ensures Lex(sep + rest) == Lex(rest)
  {
    if sep == "" {
      assert sep + rest == rest;
    } else {
      assert (sep + rest)[1..] == sep[1..] + rest;
      SpaceThen(sep[1..], rest);
    }
  }

  lemma TokenThen(t: string, rest: string)
    requires t == [BAR] || (IsWord(t) && (rest == "" || rest[0] in DELIMITERS + {BAR}))
    ensures Lex(t + rest) == [t] + Lex(rest)
  {
    if t == [BAR] {
      assert (t + rest)[1..] == rest;
    } else {
      RunThen(t, rest, DELIMITERS + {BAR});
      assert t[0] in t && (t + rest)[..|t|] == t && (t + rest)[|t|..] == rest;
    }
  }

  /** What follows a word starts with whitespace or a bar. */
  lemma SpreadStarts(tokens: seq<string>, seps: seq<string>)
    requires Separated(tokens, seps) && tokens != [] && (IsWord(tokens[0]) ==> seps[0] != "")
    ensures Spread(tokens, seps)[0] in DELIMITERS + {BAR}
  {
    var rest := Spread(tokens[1..], seps[1..]);
    assert Spread(tokens, seps) == seps[0] + tokens[0] + rest;
    hide Spread, IsWord;
    if seps[0] != "" {
      assert Spread(tokens, seps)[0] == seps[0][0] && seps[0][0] in seps[0];
    } else {
      assert tokens[0] == "|" && seps[0] + tokens[0] + rest == "|" + rest;
    }
  }

  lemma {:induction false} LexOfSpread(tokens: seq<string>, seps: seq<string>)
    requires Separated(tokens, seps)
    ensures Lex(Spread(tokens, seps)) == tokens
  {
    hide Lex;
    if tokens == [] {
      SpaceThen(seps[0], "");
      LexNothing();
      assert seps[0] + "" == seps[0];
    } else {
      var rest := Spread(tokens[1..], seps[1..]);
      LexOfSpread(tokens[1..], seps[1..]);
      if IsWord(tokens[0]) {
        if tokens[1..] != [] {
          SpreadStarts(tokens[1..], seps[1..]);
        } else {
          assert rest == seps[1];
        }
      }
      TokenThen(tokens[0], rest);
      SpaceThen(seps[0], tokens[0] + rest);
      assert Spread(tokens, seps) == seps[0] + (tokens[0] + rest);
    }
  }

  lemma LexNothing()
    ensures Lex("") == []
  {
  }

  lemma PutToken(t: string, tokens: seq<string>, seps: seq<string>)
    requires Separated(tokens, seps) && (t == [BAR] || IsWord(t))
    requires IsWord(t) && tokens != [] && IsWord(tokens[0]) ==> seps[0] != ""
    ensures Separated([t] + tokens, [""] + seps)
    ensures Spread([t] + tokens, [""] + seps) == t + Spread(tokens, seps)
  {
    assert ([t] + tokens)[1..] == tokens && ([""] + seps)[1..] == seps;
    assert "" + t == t;
  }

  lemma PutSpace(c: char, tokens: seq<string>, seps: seq<string>)
    requires Separated(tokens, seps) && c in DELIMITERS
    ensures Separated(tokens, [[c] + seps[0]] + seps[1..])
    ensures Spread(tokens, [[c] + seps[0]] + seps[1..]) == [c] + Spread(tokens, seps)
  {
    var more := [[c] + seps[0]] + seps[1..];
    assert more[1..] == seps[1..];
    if tokens != [] {
      var rest := Spread(tokens[1..], seps[1..]);
      assert ([c] + seps[0]) + tokens[0] + rest == [c] + (seps[0] + tokens[0] + rest);
    }
  }

  lemma {:induction false} SpreadOfLex(s: string) returns (seps: seq<string>)
    ensures Separated(Lex(s), seps) && Spread(Lex(s), seps) == s
    ensures s != "" && s[0] in DELIMITERS ==> seps[0] != ""
    ensures s != "" && s[0] == BAR ==> Lex(s) != [] && Lex(s)[0] == [BAR]
    ensures s == "" ==> Lex(s) == []
    decreases |s|
  {
    hide Separated, Spread, IsWord;
    if s == "" {
      NothingSeparated();
      return [""];
    }
    if s[0] in DELIMITERS {
      seps := SpreadOfLex(s[1..]);
      SeparatedLength(Lex(s), seps);
      PutSpace(s[0], Lex(s), seps);
      assert s == [s[0]] + s[1..];
      seps := [[s[0]] + seps[0]] + seps[1..];
    } else {
      var k := if s[0] == BAR then 1 else RunLength(s, DELIMITERS + {BAR});
      var t, rest := s[..k], s[k..];
      assert s == t + rest;
      seps := SpreadOfLex(rest);
      SeparatedLength(Lex(rest), seps);
      BarIsNoWord();
      if s[0] == BAR {
        assert t == [BAR];
      } else {
        RunIsWord(s, k);
      }
      PutToken(t, Lex(rest), seps);
      seps := [""] + seps;
    }
  }

  lemma NothingSeparated()
    ensures Separated([], [""]) && Spread([], [""]) == ""
  {
  }

  lemma SeparatedLength(tokens: seq<string>, seps: seq<string>)
    requires Separated(tokens, seps)
    ensures |seps| == |tokens| + 1
  {
  }

  lemma BarIsNoWord()
    ensures !IsWord([BAR])
  {
    assert [BAR][0] in [BAR];
  }

  lemma RunIsWord(s: string, k: nat)
    requires k == RunLength(s, DELIMITERS + {BAR}) > 0
    ensures IsWord(s[..k])
  {
  }

  /** A list is the tokens of a line exactly when the line is that list with whitespace around the tokens. */
  lemma LexIff(s: string, tokens: seq<string>)
    ensures tokens == Lex(s) <==> LexSplits(s, tokens)
  {
    if tokens == Lex(s) {
      var seps := SpreadOfLex(s);
    }
    if LexSplits(s, tokens) {
      var seps :| Separated(tokens, seps) && s == Spread(tokens, seps);
      LexOfSpread(tokens, seps);
    }
  }

  /** Putting the tokens together again loses the whitespace and nothing else. */
  lemma {:induction false} LexConcat(s: string)
    ensures Concat(Lex(s)) == Strip(s, {' ', '\t', '\n'})
    decreases |s|
  {
    if s != "" {
      if s[0] in DELIMITERS {
        LexConcat(s[1..]);
      } else if s[0] == BAR {
        LexConcat(s[1..]);
        assert ([[BAR]] + Lex(s[1..]))[1..] == Lex(s[1..]);
      } else {
        var k := RunLength(s, DELIMITERS + {BAR});
        LexConcat(s[k..]);
        StripRun(s, k);
        assert ([s[..k]] + Lex(s[k..]))[1..] == Lex(s[k..]);
      }
    }
  }

  lemma {:induction false} StripRun(s: string, k: nat)
    requires k <= |s| && forall i :: 0 <= i < k ==> s[i] !in DELIMITERS
    ensures Strip(s, DELIMITERS) == s[..k] + Strip(s[k..], DELIMITERS)
    decreases k
  {
    if k == 0 {
      assert s[0..] == s;
    } else {
      StripRun(s[1..], k - 1);
      assert s[1..][k - 1..] == s[k..] && [s[0]] + s[1..][..k - 1] == s[..k];
    }
  }

  // ---------------------------------------------------------------- padding

  function Bars(s: string): nat { if s == "" then 0 else (if s[0] == BAR then 1 else 0) + Bars(s[1..]) }

  /** `s` with a blank on both sides of every bar. */
  function Padded(s: string): string {
    if s == "" then "" else (if s[0] == BAR then [' ', BAR, ' '] else [s[0]]) + Padded(s[1..])
  }

  lemma {:induction false} PaddedLength(s: string)
    ensures |Padded(s)| == |s| + 2 * Bars(s)
  {
    if s != "" {
      PaddedLength(s[1..]);
    }
  }

  lemma {:induction false} PaddedRun(s: string, k: nat)
    requires k <= |s| && BAR !in s[..k]
    ensures Padded(s) == s[..k] + Padded(s[k..])
    decreases k
  {
    if k == 0 {
      assert s[0..] == s;
    } else {
      assert s[0] == s[..k][0] && s[1..][..k - 1] == s[..k][1..];
      PaddedRun(s[1..], k - 1);
      assert s[1..][k - 1..] == s[k..] && [s[0]] + s[1..][..k - 1] == s[..k];
    }
  }

  lemma PaddedStart(s: string)
    requires s == "" || s[0] in DELIMITERS + {BAR}
    ensures Padded(s) == "" || Padded(s)[0] in DELIMITERS
  {
  }

  lemma PaddedHead(s: string)
    requires s != ""
    ensures s[0] == BAR ==> Padded(s) == " " + ([BAR] + (" " + Padded(s[1..])))
    ensures s[0] != BAR ==> Padded(s) == [s[0]] + Padded(s[1..])
  {
  }

  /** A padded line has the words the line has tokens. */
  lemma {:induction false} PadThenWords(s: string)
    ensures Words(Padded(s), {' ', '\t', '\n'}) == Lex(s)
    decreases |s|
  {
    if s != "" {
      hide Words, Padded;
      PaddedHead(s);
      if s[0] in DELIMITERS {
        PadThenWords(s[1..]);
        DelimsThen([s[0]], Padded(s[1..]), DELIMITERS);
      } else if s[0] == BAR {
        PadThenWords(s[1..]);
        DelimsThen(" ", [BAR] + (" " + Padded(s[1..])), DELIMITERS);
        WordThen([BAR], " " + Padded(s[1..]), DELIMITERS);
        DelimsThen(" ", Padded(s[1..]), DELIMITERS);
      } else {
        var k := RunLength(s, DELIMITERS + {BAR});
        PadThenWords(s[k..]);
        PaddedRun(s, k);
        PaddedStart(s[k..]);
        WordThen(s[..k], Padded(s[k..]), DELIMITERS);
      }
    }
  }

  /** Padding adds no token and moves none: it may be done again and again. */
  lemma {:induction false} PadAgain(s: string)
    ensures Lex(Padded(s)) == Lex(s)
    decreases |s|
  {
    if s != "" {
      hide Padded;
      PaddedHead(s);
      if s[0] in DELIMITERS {
        PadAgain(s[1..]);
        SpaceThen([s[0]], Padded(s[1..]));
      } else if s[0] == BAR {
        PadAgain(s[1..]);
        SpaceThen(" ", [BAR] + (" " + Padded(s[1..])));
        TokenThen([BAR], " " + Padded(s[1..]));
        SpaceThen(" ", Padded(s[1..]));
      } else {
        var k := RunLength(s, DELIMITERS + {BAR});
        PadAgain(s[k..]);
        PaddedRun(s, k);
        PaddedStart(s[k..]);
        RunIsWord(s, k);
        TokenThen(s[..k], Padded(s[k..]));
      }
    }
  }

  lemma {:induction false} PaddedSame(s: string)
    requires BAR !in s
    ensures Padded(s) == s
  {
    assert s[..|s|] == s;
    PaddedRun(s, |s|);
    assert s[|s|..] == "" && s + "" == s;
  }

  /** Padded twice, cut at whitespace: still the tokens of the line. */
  lemma PaddingIsIdempotent(s: string)
    ensures Words(Padded(Padded(s)), DELIMITERS) == Words(Padded(s), DELIMITERS)
  {
    PadThenWords(Padded(s));
    PadAgain(s);
    PadThenWords(s);
  }

  // ---------------------------------------------------------------- the loops

  lemma {:induction false} PaddedSplit(s: string, i: nat)
    requires i <= |s|
    ensures Padded(s) == Padded(s[..i]) + Padded(s[i..])
    decreases i
  {
    if i == 0 {
      assert s[0..] == s && s[..0] == "";
    } else {
      PaddedSplit(s[1..], i - 1);
      assert s[1..][i - 1..] == s[i..] && s[..i][1..] == s[1..][..i - 1];
      PadOne(s, s[..i], Padded(s[i..]));
    }
  }

  lemma PadOne(s: string, front: string, rest: string)
    requires s != "" && front != "" && s[0] == front[0] && Padded(s[1..]) == Padded(front[1..]) + rest
    ensures Padded(s) == Padded(front) + rest
  {
    var one := if s[0] == BAR then [' ', BAR, ' '] else [s[0]];
    assert one + (Padded(front[1..]) + rest) == (one + Padded(front[1..])) + rest;
  }

  lemma PaddedNext(s: string, i: nat)
    requires i < |s|
    ensures Padded(s[..i + 1]) == Padded(s[..i]) + (if s[i] == BAR then [' ', BAR, ' '] else [s[i]])
    ensures |Padded(s[..i + 1])| <= |Padded(s)|
  {
    PaddedSplit(s, i + 1);
    PaddedSplit(s[..i + 1], i);
    assert s[..i + 1][..i] == s[..i] && s[..i + 1][i..] == [s[i]];
    assert Padded([s[i]]) == if s[i] == BAR then [' ', BAR, ' '] else [s[i]];
  }

  /** The padding loop; `ok` is false where the source writes past the end of temp_buffer. */
  method Pad(input: array<char>, temp: array<char>, ghost text: string) returns (ok: bool)
    requires NUL !in text && StringAt(input, 0, text) && input != temp && temp.Length == 2 * MAX_STR_LEN + 1
    modifies temp
    ensures ok <==> |text| + 2 * Bars(text) <= 2 * MAX_STR_LEN
    ensures ok ==> StringAt(temp, 0, Padded(text))
  {
    hide Padded, Bars;
    PaddedLength(text);
    assert text[..0] == "";
    PaddedNothing();
    var i, j := 0, 0;
    while input[i] != NUL
      invariant 0 <= i <= |text| && j == |Padded(text[..i])| <= |Padded(text)| && j <= 2 * MAX_STR_LEN
      invariant forall k :: 0 <= k < j ==> temp[k] == Padded(text[..i])[k]
      decreases |text| - i
    {
      PaddedNext(text, i);
      if j + (if input[i] == BAR then 3 else 1) > 2 * MAX_STR_LEN {
        return false;
      }
      if input[i] == BAR {
        temp[j], temp[j + 1], temp[j + 2] := ' ', BAR, ' ';
        j := j + 3;
      } else {
        temp[j] := input[i];
        j := j + 1;
      }
      i := i + 1;
    }
    EndOfString(input, 0, text, i);
    assert text[..i] == text;
    temp[j] := NUL;
    ok := true;
  }

  lemma PaddedNothing()
    ensures Padded("") == ""
  {
  }

  /** The array of token pointers holds `words`, then NULL. */
  ghost predicate TokensAre(buf: array<char>, tokens: array<Option<nat>>, words: seq<string>)
    reads buf, tokens
  {
    && |words| < tokens.Length && tokens[|words|].None?
    && forall t :: 0 <= t < |words| ==> tokens[t].Some? && StringAt(buf, tokens[t].value, words[t])
  }

  /** tokenize_input(); `ok` is false where the source writes past the end of the token array. */
  method TokenizeInput(buf: array<char>, tokens: array<Option<nat>>, ghost text: string) returns (ok: bool, count: nat)
    requires NUL !in text && StringAt(buf, 0, text)
    modifies buf, tokens
    ensures var words := Words(text, {' ', '\t', '\n'});
      (ok <==> |words| < tokens.Length) && (ok ==> count == |words| && TokensAre(buf, tokens, words))
  {
    hide Words, StringAt;
    ghost var words := Words(text, DELIMITERS);
    var scanner := new Scanner(buf, text);
    assert text[0..] == text;
    var curr := scanner.Next(text, DELIMITERS);
    count := 0;
    while curr.Some?
      invariant fresh(scanner) && scanner.buf == buf && scanner.Valid(text)
      invariant count <= |words| && count < tokens.Length + 1
      invariant curr.None? <==> count == |words|
      invariant curr.Some? ==> StringAt(buf, curr.value, words[count]) && curr.value + |words[count]| <= scanner.save
      invariant curr.Some? ==> words[count + 1..] == Words(text[scanner.save..], DELIMITERS)
      invariant forall t :: 0 <= t < count ==>
        tokens[t].Some? && tokens[t].value + |words[t]| <= scanner.save && StringAt(buf, tokens[t].value, words[t])
      decreases |words| - count
    {
      if count == tokens.Length {
        return false, count;
      }
      tokens[count] := curr;
      count := count + 1;
      curr := scanner.Next(text, DELIMITERS);
    }
    if count == tokens.Length {
      return false, count;
    }
    tokens[count] := None;
    ok := true;
  }

  /** From the input line to the token array, as the main loop does it: with a bar, by way of temp_buffer. `ok` is
      false when a buffer does not suffice. */
  method LexLine(input: array<char>, temp: array<char>, tokens: array<Option<nat>>, ghost text: string)
    returns (ok: bool, padded: bool, count: nat)
    requires NUL !in text && StringAt(input, 0, text) && input != temp && temp.Length == 2 * MAX_STR_LEN + 1
    modifies input, temp, tokens
    ensures padded <==> BAR in text
    ensures ok <==> |Lex(text)| < tokens.Length && (padded ==> |text| + 2 * Bars(text) <= 2 * MAX_STR_LEN)
    ensures ok ==> count == |Lex(text)| && TokensAre(if padded then temp else input, tokens, Lex(text))
  {
    hide Words, Lex, Padded, Bars;
    padded := HasBar(input, text);
    PadThenWords(text);
    if padded {
      ok := Pad(input, temp, text);
      if !ok {
        return false, padded, 0;
      }
      PaddedNulFree(text);
      ok, count := TokenizeInput(temp, tokens, Padded(text));
    } else {
      PaddedSame(text);
      ok, count := TokenizeInput(input, tokens, text);
    }
  }

  /** strchr(input, '|') != NULL. */
  method HasBar(input: array<char>, ghost text: string) returns (found: bool)
    requires NUL !in text && StringAt(input, 0, text)
    ensures found <==> BAR in text
  {
    var i := 0;
    while input[i] != NUL && input[i] != BAR
      invariant 0 <= i <= |text| && BAR !in text[..i]
      decreases |text| - i
    {
      i := i + 1;
    }
    EndOfString(input, 0, text, i);
    assert i == |text| ==> text[..i] == text;
    found := input[i] == BAR;
  }

  lemma {:induction false} PaddedNulFree(s: string)
    requires NUL !in s
    ensures NUL !in Padded(s)
  {
    if s != "" {
      PaddedNulFree(s[1..]);
    }
  }
}
