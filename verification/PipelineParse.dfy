/** Cutting a token list into the commands of a pipeline: execute_command() and the first half of
    execute_pipeline() in src/commands.c. */
module PipelineParse {
  import opened Text

  const BAR := "|"
  const ROW := 128

  // ---------------------------------------------------------------- the declarative form

  /** The token lists between the bars. */
  function SplitBar(ts: seq<string>): (rows: seq<seq<string>>)
    ensures rows != []
  {
    if ts == [] then [[]]
    else
      var rows, t := SplitBar(ts[..|ts| - 1]), ts[|ts| - 1];
      if t == BAR then rows + [[]] else rows[..|rows| - 1] + [rows[|rows| - 1] + [t]]
  }

  function JoinBar(rows: seq<seq<string>>): seq<string>
    requires rows != []
  {
    if |rows| == 1 then rows[0] else JoinBar(rows[..|rows| - 1]) + [BAR] + rows[|rows| - 1]
  }

  predicate BarsAt(ts: seq<string>, i: int) { 0 <= i && i + 1 < |ts| && ts[i] == BAR && ts[i+1] == BAR }

  ghost predicate NoneAdjacent(ts: seq<string>) { forall i :: !BarsAt(ts, i) }

  /** No bar leads, trails or follows another. */
  ghost predicate WellFormed(ts: seq<string>) {
    ts != [] && ts[0] != BAR && ts[|ts| - 1] != BAR && NoneAdjacent(ts)
  }

  lemma AdjacentAppend(ts: seq<string>, t: string)
    ensures NoneAdjacent(ts + [t]) <==> NoneAdjacent(ts) && !(ts != [] && ts[|ts| - 1] == BAR && t == BAR)
  {
    var us := ts + [t];
    assert forall i :: BarsAt(ts, i) ==> BarsAt(us, i);
    assert forall i :: BarsAt(us, i) && i != |ts| - 1 ==> BarsAt(ts, i);
    assert ts != [] ==> (BarsAt(us, |ts| - 1) <==> ts[|ts| - 1] == BAR && t == BAR);
  }

  lemma SplitAppend(ts: seq<string>, t: string)
    ensures var rows := SplitBar(ts);
      SplitBar(ts + [t]) == if t == BAR then rows + [[]] else rows[..|rows| - 1] + [rows[|rows| - 1] + [t]]
  {
    assert (ts + [t])[..|ts|] == ts;
  }

  lemma JoinNewRow(rows: seq<seq<string>>)
    requires rows != []
    ensures JoinBar(rows + [[]]) == JoinBar(rows) + [BAR]
  {
    assert (rows + [[]])[..|rows|] == rows;
    assert JoinBar(rows) + [BAR] + [] == JoinBar(rows) + [BAR];
  }

  lemma JoinLongerRow(init: seq<seq<string>>, last: seq<string>, t: string)
    ensures JoinBar(init + [last + [t]]) == JoinBar(init + [last]) + [t]
  {
    var a, b := init + [last], init + [last + [t]];
    assert a[..|init|] == init && b[..|init|] == init;
    if init != [] {
      var j := JoinBar(init) + [BAR];
      assert JoinBar(a) == j + last && JoinBar(b) == j + (last + [t]);
      assert j + (last + [t]) == (j + last) + [t];
    }
  }

  lemma BarFree(rows: seq<seq<string>>, t: string)
    requires rows != [] && (forall row :: row in rows ==> BAR !in row) && t != BAR
    ensures forall row :: row in rows[..|rows| - 1] + [rows[|rows| - 1] + [t]] ==> BAR !in row
  {
    forall row | row in rows[..|rows| - 1] + [rows[|rows| - 1] + [t]]
      ensures BAR !in row
    {
      assert row in rows || row == rows[|rows| - 1] + [t];
      assert rows[|rows| - 1] in rows;
    }
  }

  /** Joining the commands with bars gives the token list back, and no command holds a bar. */
  lemma {:induction false} JoinOfSplit(ts: seq<string>)
    ensures JoinBar(SplitBar(ts)) == ts
    ensures forall row :: row in SplitBar(ts) ==> BAR !in row
  {
    hide JoinBar;
    if ts == [] {
      JoinOne();
    } else {
      var front, t := ts[..|ts| - 1], ts[|ts| - 1];
      JoinOfSplit(front);
      var rows := SplitBar(front);
      assert ts == front + [t] && rows == rows[..|rows| - 1] + [rows[|rows| - 1]];
      if t == BAR {
        JoinNewRow(rows);
      } else {
        JoinLongerRow(rows[..|rows| - 1], rows[|rows| - 1], t);
        BarFree(rows, t);
      }
    }
  }

  /** Tokens that are no bars go to the last command. */
  lemma {:induction false} SplitTail(ts: seq<string>, more: seq<string>)
    requires BAR !in more
    ensures var rows := SplitBar(ts); SplitBar(ts + more) == rows[..|rows| - 1] + [rows[|rows| - 1] + more]
    decreases |more|
  {
    hide SplitBar;
    var rows := SplitBar(ts);
    var init, last := rows[..|rows| - 1], rows[|rows| - 1];
    if more == [] {
      assert ts + more == ts && last + more == last && rows == init + [last];
    } else {
      var front, t := more[..|more| - 1], more[|more| - 1];
      SplitTail(ts, front);
      assert ts + more == (ts + front) + [t] && t in more;
      SplitAppend(ts + front, t);
      assert (init + [last + front])[..|init|] == init;
      assert last + front + [t] == last + more;
    }
  }

  /** Commands without bars come back from the token list that joins them. */
  lemma {:induction false} SplitOfJoin(rows: seq<seq<string>>)
    requires rows != [] && forall row :: row in rows ==> BAR !in row
    ensures SplitBar(JoinBar(rows)) == rows
    decreases |rows|
  {
    hide SplitBar;
    var front, last := rows[..|rows| - 1], rows[|rows| - 1];
    if front == [] {
      NothingAdjacent();
      SplitTail([], last);
      assert [] + last == last && rows == [last];
    } else {
      SplitOfJoin(front);
      SplitAppend(JoinBar(front), BAR);
      SplitTail(JoinBar(front) + [BAR], last);
      assert front + [[] + last] == rows;
    }
  }

  lemma JoinOne()
    ensures JoinBar([[]]) == []
  {
  }

  /** The last command of a prefix is empty exactly when the prefix is, or ends with a bar. */
  lemma LastRow(ts: seq<string>)
    ensures var rows := SplitBar(ts); rows[|rows| - 1] == [] <==> ts == [] || ts[|ts| - 1] == BAR
    ensures ts != [] && ts[|ts| - 1] == BAR ==> |SplitBar(ts)| >= 2
  {
  }

  predicate NoEmptyRow(rows: seq<seq<string>>) { forall i :: 0 <= i < |rows| ==> rows[i] != [] }

  lemma NoEmptyAppend(rows: seq<seq<string>>, row: seq<string>)
    ensures NoEmptyRow(rows + [row]) <==> NoEmptyRow(rows) && row != []
  {
    assert forall i :: 0 <= i < |rows| ==> (rows + [row])[i] == rows[i];
    assert (rows + [row])[|rows|] == row;
  }

  /** The finished commands are non-empty exactly when no bar leads or follows another. */
  lemma {:induction false} FinishedRows(ts: seq<string>)
    ensures var rows := SplitBar(ts);
      NoEmptyRow(rows[..|rows| - 1]) <==> (ts == [] || ts[0] != BAR) && NoneAdjacent(ts)
  {
    hide NoEmptyRow, NoneAdjacent, SplitBar;
    if ts == [] {
      NothingFinished();
      NothingAdjacent();
      assert SplitBar(ts)[..0] == [];
    } else {
      var front, t := ts[..|ts| - 1], ts[|ts| - 1];
      FinishedRows(front);
      LastRow(front);
      assert ts == front + [t];
      SplitAppend(front, t);
      AdjacentAppend(front, t);
      var rows := SplitBar(front);
      var init, last := rows[..|rows| - 1], rows[|rows| - 1];
      NoEmptyAppend(init, last);
      assert rows == init + [last];
      assert SplitBar(ts)[..|SplitBar(ts)| - 1] == if t == BAR then rows else init;
    }
  }

  lemma NothingFinished()
    ensures NoEmptyRow([]) && NoneAdjacent([])
  {
  }

  /** A token list is well-formed exactly when every command between its bars is non-empty. */
  lemma WellFormedIff(ts: seq<string>)
    ensures WellFormed(ts) <==> NoEmptyRow(SplitBar(ts))
  {
    hide NoEmptyRow, NoneAdjacent, SplitBar;
    FinishedRows(ts);
    LastRow(ts);
    var rows := SplitBar(ts);
    NoEmptyAppend(rows[..|rows| - 1], rows[|rows| - 1]);
    assert rows == rows[..|rows| - 1] + [rows[|rows| - 1]];
  }

  // ---------------------------------------------------------------- counting

  /** Bars that do not follow a bar: what execute_command() counts. */
  function PipeRuns(ts: seq<string>): (n: nat)
    ensures n <= |ts|
  {
    if ts == [] then 0
    else PipeRuns(ts[..|ts| - 1]) + (if ts[|ts| - 1] == BAR && (|ts| == 1 || ts[|ts| - 2] != BAR) then 1 else 0)
  }

  lemma {:induction false} PipeRunsGrow(ts: seq<string>, i: nat)
    requires i <= |ts|
    ensures PipeRuns(ts[..i]) <= PipeRuns(ts)
    decreases |ts|
  {
    if i < |ts| {
      assert ts[..|ts| - 1][..i] == ts[..i];
      PipeRunsGrow(ts[..|ts| - 1], i);
    } else {
      assert ts[..i] == ts;
    }
  }

  lemma PipeRunsNext(ts: seq<string>, i: nat)
    requires i < |ts|
    ensures PipeRuns(ts[..i + 1]) == PipeRuns(ts[..i]) + (if ts[i] == BAR && (i == 0 || ts[i-1] != BAR) then 1 else 0)
  {
    assert ts[..i + 1][..i] == ts[..i];
  }

  /** The counting loop of execute_command(). */
  method CountPipes(tokens: seq<string>) returns (hasPipe: bool, number: nat)
    ensures hasPipe <==> BAR in tokens
    ensures number == PipeRuns(tokens)
  {
    hide PipeRuns;
    hasPipe, number := false, 0;
    var previousPipe := false;
    var i := 0;
    NoRuns();
    assert tokens[..0] == [];
    while i < |tokens|
      invariant 0 <= i <= |tokens| && number == PipeRuns(tokens[..i])
      invariant hasPipe <==> BAR in tokens[..i]
      invariant previousPipe <==> i > 0 && tokens[i-1] == BAR
    {
      PipeRunsNext(tokens, i);
      assert tokens[..i + 1] == tokens[..i] + [tokens[i]];
      if tokens[i] == BAR {
        if !previousPipe {
          hasPipe, number, previousPipe := true, number + 1, true;
        }
        assert i > 0 && tokens[i-1] == BAR ==> tokens[i-1] in tokens[..i];
      } else {
        previousPipe := false;
      }
      i := i + 1;
    }
    assert tokens[..i] == tokens;
  }

  lemma NoRuns()
    ensures PipeRuns([]) == 0
  {
  }

  // ---------------------------------------------------------------- filling the command matrix

  /** Row `r` starts with the tokens of `row`. */
  ghost predicate StartsRow(m: array2<Option<string>>, r: nat, row: seq<string>)
    reads m
  {
    r < m.Length0 && |row| < m.Length1 && forall c :: 0 <= c < |row| ==> m[r, c] == Some(row[c])
  }

  /** Row `r` holds the command `row` and the NULL behind it. */
  ghost predicate HoldsRow(m: array2<Option<string>>, r: nat, row: seq<string>)
    reads m
  {
    StartsRow(m, r, row) && m[r, |row|] == None
  }

  /** As many commands as `rows` are in the matrix; the last one may still grow. */
  ghost predicate Filled(m: array2<Option<string>>, rows: seq<seq<string>>)
    reads m
  {
    && rows != [] && StartsRow(m, |rows| - 1, rows[|rows| - 1])
    && forall r :: 0 <= r < |rows| - 1 ==> HoldsRow(m, r, rows[r])
  }

  /** Row lengths of a prefix never exceed its length. */
  lemma {:induction false} RowsFit(ts: seq<string>)
    ensures forall r :: 0 <= r < |SplitBar(ts)| ==> |SplitBar(ts)[r]| <= |ts|
  {
    if ts != [] {
      RowsFit(ts[..|ts| - 1]);
    }
  }

  /** While no bar followed another, there is one more command than runs of bars. */
  lemma {:induction false} RowCount(ts: seq<string>)
    requires NoneAdjacent(ts)
    ensures |SplitBar(ts)| == PipeRuns(ts) + 1
  {
    hide NoneAdjacent;
    if ts != [] {
      var front, t := ts[..|ts| - 1], ts[|ts| - 1];
      assert ts == front + [t];
      AdjacentAppend(front, t);
      RowCount(front);
      assert |ts| > 1 ==> front[|front| - 1] == ts[|ts| - 2];
    }
  }

  lemma NothingAdjacent()
    ensures NoneAdjacent([]) && SplitBar([]) == [[]]
  {
  }

  lemma {:induction false} AdjacentPrefix(ts: seq<string>, i: nat)
    requires i <= |ts| && !NoneAdjacent(ts[..i])
    ensures !NoneAdjacent(ts)
  {
    var k :| BarsAt(ts[..i], k);
    assert BarsAt(ts, k);
  }

  /** A bar ends the command in row `r`. */
  method EndRow(m: array2<Option<string>>, r: nat, c: nat, ghost rows: seq<seq<string>>)
    requires Filled(m, rows) && r == |rows| - 1 && c == |rows[r]|
    modifies m
    ensures forall k :: 0 <= k < |rows| ==> HoldsRow(m, k, rows[k])
  {
    m[r, c] := None;
  }

  /** A bar with a command behind it. */
  method NextRow(m: array2<Option<string>>, r: nat, c: nat, ghost rows: seq<seq<string>>)
    requires Filled(m, rows) && r == |rows| - 1 && c == |rows[r]| && |rows| < m.Length0
    modifies m
    ensures Filled(m, rows + [[]])
  {
    EndRow(m, r, c, rows);
  }

  lemma NothingFilled(m: array2<Option<string>>)
    requires m.Length0 > 0 && m.Length1 > 0
    ensures Filled(m, [[]])
  {
  }

  /** Another token of the command in row `r`. */
  method PutToken(m: array2<Option<string>>, r: nat, c: nat, token: string, ghost rows: seq<seq<string>>)
    requires Filled(m, rows) && r == |rows| - 1 && c == |rows[r]| && c + 1 < m.Length1
    modifies m
    ensures Filled(m, rows[..r] + [rows[r] + [token]])
  {
    m[r, c] := Some(token);
  }

  /** The parsing loop of execute_pipeline(). The matrix has one row per counted bar and one more; that no index
      leaves it, also on rejected input, is part of what is verified here. */
  method FillCommands(tokens: seq<string>, pipes: nat) returns (ok: bool, commands: array2<Option<string>>)
    requires pipes == PipeRuns(tokens) && 0 < |tokens| < ROW
    requires tokens[0] != BAR && tokens[|tokens| - 1] != BAR
    ensures fresh(commands) && commands.Length0 == pipes + 1 && commands.Length1 == ROW
    ensures ok <==> WellFormed(tokens)
    ensures ok ==> |SplitBar(tokens)| == pipes + 1
    ensures ok ==> forall r :: 0 <= r <= pipes ==> HoldsRow(commands, r, SplitBar(tokens)[r])
  {
    hide NoneAdjacent, SplitBar, PipeRuns, Filled, HoldsRow, StartsRow;
    commands := new Option<string>[pipes + 1, ROW]((_, _) => None);
    NothingFilled(commands);
    var commandIndex, secondIndex := 0, 0;
    ghost var rows: seq<seq<string>> := [[]];
    var i := 0;
    NothingAdjacent();
    assert tokens[..0] == [];
    while i < |tokens|
      invariant 0 <= i <= |tokens| && NoneAdjacent(tokens[..i]) && rows == SplitBar(tokens[..i])
      invariant commandIndex == |rows| - 1 && secondIndex == |rows[commandIndex]|
      invariant Filled(commands, rows) && commands.Length0 == pipes + 1 && commands.Length1 == ROW && fresh(commands)
    {
      assert tokens[..i + 1] == tokens[..i] + [tokens[i]];
      SplitAppend(tokens[..i], tokens[i]);
      AdjacentAppend(tokens[..i], tokens[i]);
      LastRow(tokens[..i]);
      RowsFit(tokens[..i]);
      if tokens[i] == BAR {
        if commandIndex != 0 && secondIndex == 0 {
          AdjacentPrefix(tokens, i + 1);
          return false, commands;
        }
        RowCount(tokens[..i + 1]);
        PipeRunsGrow(tokens, i + 1);
        NextRow(commands, commandIndex, secondIndex, rows);
        commandIndex, secondIndex := commandIndex + 1, 0;
        rows := rows + [[]];
      } else {
        PutToken(commands, commandIndex, secondIndex, tokens[i], rows);
        rows := rows[..commandIndex] + [rows[commandIndex] + [tokens[i]]];
        secondIndex := secondIndex + 1;
      }
      i := i + 1;
    }
    assert tokens[..i] == tokens;
    RowCount(tokens);
    EndRow(commands, commandIndex, secondIndex, rows);
    ok := true;
  }

  datatype Parsed = Simple | Rejected | Commands(rows: seq<seq<string>>)

  /** What execute_command() makes of a token list before anything runs. */
  ghost function Parse(tokens: seq<string>): Parsed {
    if BAR !in tokens then Simple
    else if WellFormed(tokens) then Commands(SplitBar(tokens))
    else Rejected
  }

  /** execute_command() up to the start of the pipeline. */
  method ParseCommand(tokens: seq<string>) returns (result: Parsed)
    requires |tokens| < ROW
    ensures result == Parse(tokens)
  {
    var hasPipe, number := CountPipes(tokens);
    if !hasPipe {
      return Simple;
    }
    if tokens[0] == BAR || tokens[|tokens| - 1] == BAR {
      return Rejected;
    }
    var ok, commands := FillCommands(tokens, number);
    if !ok {
      return Rejected;
    }
    var rows := ReadRows(commands, SplitBar(tokens));
    return Commands(rows);
  }

  method ReadRows(m: array2<Option<string>>, ghost expected: seq<seq<string>>) returns (rows: seq<seq<string>>)
    requires |expected| == m.Length0 && forall r :: 0 <= r < |expected| ==> HoldsRow(m, r, expected[r])
    ensures rows == expected
  {
    rows := [];
    for r := 0 to m.Length0
      invariant rows == expected[..r]
    {
      var row := ReadRow(m, r, expected[r]);
      rows := rows + [row];
    }
  }

  /** The strings of a row up to its NULL: what execv() is given. */
  method ReadRow(m: array2<Option<string>>, r: nat, ghost expected: seq<string>) returns (row: seq<string>)
    requires r < m.Length0 && HoldsRow(m, r, expected)
    ensures row == expected
  {
    row := [];
    var c := 0;
    while m[r, c].Some?
      invariant 0 <= c <= |expected| && row == expected[..c]
      decreases |expected| - c
    {
      row := row + [m[r, c].value];
      c := c + 1;
    }
  }
}
