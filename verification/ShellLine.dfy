/** One input line on its way through the main loop of src/mysh.c: lexed, its variables expanded, cut into commands. */
module ShellLine {
  import opened Text
  import opened Strtok
  import opened Lexer
  import Parser = PipelineParse
  import opened Variables
  import opened Expander

  // ---------------------------------------------------------------- lexing and parsing

  /** The parts of a line between its bars. */
  function Segments(line: string): (segs: seq<string>)
    ensures segs != []
  {
    if line == "" then [""]
    else
      var segs := Segments(line[1..]);
      if line[0] == Lexer.BAR then [""] + segs else [[line[0]] + segs[0]] + segs[1..]
  }

  function LexAll(segs: seq<string>): (rows: seq<seq<string>>)
    ensures |rows| == |segs|
  {
    seq(|segs|, i requires 0 <= i < |segs| => Lex(segs[i]))
  }

  lemma {:induction false} LexBar(a: string, b: string)
    ensures Lex(a + "|" + b) == Lex(a) + [Parser.BAR] + Lex(b)
    decreases |a|
  {
    hide Lex;
    if a == "" {
      TokenThen("|", b);
      LexNothing();
      assert a + "|" + b == "|" + b;
    } else {
      LexHead(a);
      var k := if a[0] in DELIMITERS || a[0] == Lexer.BAR then 1 else RunLength(a, DELIMITERS + {Lexer.BAR});
      var t, rest := a[..k], a[k..];
      LexBar(rest, b);
      assert a + "|" + b == t + (rest + "|" + b);
      if a[0] in DELIMITERS {
        SpaceThen(t, rest + "|" + b);
      } else {
        if a[0] != Lexer.BAR {
          RunIsWord(a, k);
        }
        TokenThen(t, rest + "|" + b);
      }
    }
  }

  lemma LexHead(a: string)
    requires a != ""
    ensures a[0] in DELIMITERS ==> Lex(a) == Lex(a[1..])
    ensures a[0] == Lexer.BAR ==> Lex(a) == ["|"] + Lex(a[1..])
    ensures a[0] !in DELIMITERS + {Lexer.BAR} ==>
      var k := RunLength(a, DELIMITERS + {Lexer.BAR}); k > 0 && Lex(a) == [a[..k]] + Lex(a[k..])
  {
  }

  lemma {:induction false} LexNoBar(g: string)
    requires Lexer.BAR !in g
    ensures Parser.BAR !in Lex(g)
    decreases |g|
  {
    if g != "" {
      hide Lex;
      LexHead(g);
      var k := if g[0] in DELIMITERS then 1 else RunLength(g, DELIMITERS + {Lexer.BAR});
      LexNoBar(g[k..]);
      if g[0] !in DELIMITERS {
        assert g[..k][0] == g[0] != Lexer.BAR;
      }
    } else {
      LexNothing();
    }
  }

  /** The first segment ends at the first bar. */
  lemma {:induction false} FirstSegment(a: string, b: string)
    requires Lexer.BAR !in a
    ensures Segments(a + "|" + b) == [a] + Segments(b)
    ensures Segments(a) == [a]
    decreases |a|
  {
    if a == "" {
      assert a + "|" + b == "|" + b;
    } else {
      FirstSegment(a[1..], b);
      assert (a + "|" + b)[1..] == a[1..] + "|" + b;
      assert a == [a[0]] + a[1..] && ([a[1..]] + Segments(b))[1..] == Segments(b) && [a[1..]][1..] == [];
    }
  }

  lemma {:induction false} JoinCons(row: seq<string>, rows: seq<seq<string>>)
    requires rows != []
    ensures Parser.JoinBar([row] + rows) == row + [Parser.BAR] + Parser.JoinBar(rows)
    decreases |rows|
  {
    var front, last := rows[..|rows| - 1], rows[|rows| - 1];
    assert ([row] + rows)[..|rows|] == [row] + front;
    if front == [] {
      assert rows == [last];
    } else {
      JoinCons(row, front);
      var j := Parser.JoinBar(front);
      assert row + [Parser.BAR] + (j + [Parser.BAR] + last) == (row + [Parser.BAR] + j) + [Parser.BAR] + last;
    }
  }

  /** The tokens of a line are the tokens of its segments, joined with bars. */
  lemma {:induction false} LexOfSegments(line: string)
    ensures Lex(line) == Parser.JoinBar(LexAll(Segments(line)))
    ensures forall row :: row in LexAll(Segments(line)) ==> Parser.BAR !in row
    ensures |Segments(line)| == 1 <==> Lexer.BAR !in line
    decreases |line|
  {
    hide Lex, Segments, Parser.JoinBar;
    var k := RunLength(line, {Lexer.BAR});
    var a := line[..k];
    LexNoBar(a);
    if k == |line| {
      assert a == line;
      FirstSegment(a, "");
      assert LexAll([a]) == [Lex(a)];
      JoinSingle(Lex(a));
    } else {
      var b := line[k + 1..];
      assert line == a + "|" + b;
      FirstSegment(a, b);
      LexBar(a, b);
      LexOfSegments(b);
      assert LexAll([a] + Segments(b)) == [Lex(a)] + LexAll(Segments(b));
      JoinCons(Lex(a), LexAll(Segments(b)));
    }
  }

  lemma JoinSingle(row: seq<string>)
    ensures Parser.JoinBar([row]) == row
  {
  }

  lemma BarInJoin(rows: seq<seq<string>>)
    requires |rows| >= 2
    ensures Parser.BAR in Parser.JoinBar(rows)
  {
  }

  /** Lexing a line and cutting its tokens at the bars gives, for a line without bars, one simple command; otherwise
      the tokens of every segment between the bars, unless a segment holds nothing but whitespace. */
  lemma CommandsOfLine(line: string)
    ensures var rows := LexAll(Segments(line));
      Parser.Parse(Lex(line)) == if '|' !in line then Parser.Simple
                                 else if forall i :: 0 <= i < |rows| ==> rows[i] != [] then Parser.Commands(rows)
                                 else Parser.Rejected
  {
    hide Lex, Segments, Parser.SplitBar, Parser.JoinBar, Parser.WellFormed;
    var rows := LexAll(Segments(line));
    LexOfSegments(line);
    Parser.SplitOfJoin(rows);
    Parser.WellFormedIff(Lex(line));
    if |rows| == 1 {
      assert rows == [rows[0]];
      JoinSingle(rows[0]);
      assert rows[0] in rows;
    } else {
      BarInJoin(rows);
    }
  }

  // ---------------------------------------------------------------- expanding the tokens

  /** A token after the main loop's expansion. */
  function Expanded(bs: seq<Binding>, token: string): string {
    if '$' in token then Take(Expansion(bs, token), MAX_STR_LEN) else token
  }

  /** Expanding the token writes past a buffer of expand_variables(). */
  ghost predicate TokenFails(bs: seq<Binding>, token: string) {
    '$' in token && Fails(bs, token)
  }

  /** The expansion loop; `ok` is false where expand_variables() writes past the end of its buffer. */
  method ExpandTokens(tokens: array<string>, count: nat, store: Store) returns (ok: bool)
    requires store.Valid() && ValuesFit(store.Bindings())
    requires count <= tokens.Length
    modifies tokens
    ensures ok <==> forall i :: 0 <= i < count ==> '$' in old(tokens[i]) ==> !Fails(store.Bindings(), old(tokens[i]))
    ensures ok ==> forall i :: 0 <= i < count ==>
      tokens[i] == if '$' in old(tokens[i]) then Take(Expansion(store.Bindings(), old(tokens[i])), 128) else old(tokens[i])
    ensures forall i :: count <= i < tokens.Length ==> tokens[i] == old(tokens[i])
  {
    hide Fails, Expansion;
    var i := 0;
    while i < count
      invariant 0 <= i <= count
      invariant forall k :: 0 <= k < i ==> !TokenFails(store.Bindings(), old(tokens[k]))
      invariant forall k :: 0 <= k < i ==> tokens[k] == Expanded(store.Bindings(), old(tokens[k]))
      invariant forall k :: i <= k < tokens.Length ==> tokens[k] == old(tokens[k])
    {
      if '$' in tokens[i] {
        var expanded := ExpandVariables(tokens[i], store);
        if expanded.None? {
          assert TokenFails(store.Bindings(), old(tokens[i]));
          return false;
        }
        tokens[i] := expanded.value;
      }
      i := i + 1;
    }
    ok := true;
  }

  /** For the tokens of an input line, which has at most 128 bytes, leaving out those without a '$' makes no difference. */
  lemma ExpandedIs(bs: seq<Binding>, token: string)
    requires |token| <= 128
    ensures Expanded(bs, token) == Take(Expansion(bs, token), 128)
  {
    hide Expansion, Split;
    if '$' !in token {
      NoDollar(bs, token);
    }
  }

  /** A token that the main loop has expanded comes out of the expansion in echo as it went in: with '$'-free values
      the two expansions are one. The second one is safe if and only if the token is shorter than the buffer for names
      or still holds a '$'. */
  lemma EchoSeesOneExpansion(bs: seq<Binding>, token: string)
    requires |token| <= 128 && forall b :: b in bs ==> '$' !in b.value
    ensures var e := Expanded(bs, token);
      Take(Expansion(bs, e), 128) == e && (!Fails(bs, e) <==> |e| < 128 || '$' in e)
  {
    hide Fails, Expansion, PiecesOf, Split;
    if '$' in token {
      ExpandTwice(bs, token);
    } else {
      ExpandPlain(bs, token);
    }
  }
}
