/** expand_variables() of src/variables.c: a one-pass scan into a bounded buffer against splitting at '$'. */
module Expander {
  import opened Text
  import opened Variables

  /** size_t has 64 bits; `remaining` wraps around. */
  const SIZE_T := 0x1_0000_0000_0000_0000

  // ---------------------------------------------------------------- the declarative form

  /** The segments between the '$' of `s`. */
  function Split(s: string): (r: seq<string>)
    ensures r != []
  {
    if s == "" then [""]
    else
      var r, c := Split(s[..|s| - 1]), s[|s| - 1];
      if c == '$' then r + [""] else r[..|r| - 1] + [r[|r| - 1] + [c]]
  }

  function JoinDollar(segs: seq<string>): string
    requires segs != []
  {
    if |segs| == 1 then segs[0] else JoinDollar(segs[..|segs| - 1]) + "$" + segs[|segs| - 1]
  }

  /** Split is the one way to cut a string at its '$' characters. */
  lemma {:induction false} SplitIsCut(s: string)
    ensures JoinDollar(Split(s)) == s && forall g :: g in Split(s) ==> '$' !in g
  {
    if s != "" {
      var front, c := s[..|s| - 1], s[|s| - 1];
      SplitIsCut(front);
      var r := Split(front);
      assert s == front + [c];
      if c == '$' {
        hide Split;
        assert (r + [""])[..|r|] == r;
        assert JoinDollar(r + [""]) == front + "$" + "" == front + "$";
      } else {
        var r' := r[..|r| - 1] + [r[|r| - 1] + [c]];
        hide Split;
        assert r'[..|r'| - 1] == r[..|r| - 1];
        if |r| > 1 {
          Associative(JoinDollar(r[..|r| - 1]) + "$", r[|r| - 1], [c]);
        }
        forall g | g in r'
          ensures '$' !in g
        {
          assert g in r || g == r[|r| - 1] + [c];
        }
      }
    }
  }

  lemma SplitAppend(s: string, c: char)
    ensures var r := Split(s);
      Split(s + [c]) == if c == '$' then r + [""] else r[..|r| - 1] + [r[|r| - 1] + [c]]
  {
    assert (s + [c])[..|s|] == s;
  }

  lemma {:induction false} SplitOfCut(segs: seq<string>)
    requires segs != [] && forall g :: g in segs ==> '$' !in g
    ensures Split(JoinDollar(segs)) == segs
    decreases |segs|
  {
    hide Split;
    var front, last := segs[..|segs| - 1], segs[|segs| - 1];
    if |segs| == 1 {
      SplitAfter("", last);
      SplitNothing();
      assert "" + last == last;
      assert [""][..0] + ["" + last] == segs;
    } else {
      SplitOfCut(front);
      var s := JoinDollar(front);
      SplitAppend(s, '$');
      SplitAfter(s + "$", last);
      assert "" + last == last && (front + [""])[..|front|] + [last] == segs;
    }
  }

  lemma SplitNothing()
    ensures Split("") == [""]
  {
  }

  lemma {:induction false} SplitAfter(s: string, g: string)
    requires '$' !in g
    ensures var r := Split(s); Split(s + g) == r[..|r| - 1] + [r[|r| - 1] + g]
    decreases |g|
  {
    hide Split;
    var r := Split(s);
    var init, last := r[..|r| - 1], r[|r| - 1];
    if g == "" {
      assert s + g == s && last + g == last && r == init + [last];
    } else {
      var front, c := g[..|g| - 1], g[|g| - 1];
      SplitAfter(s, front);
      SplitAppend(s + front, c);
      assert s + g == s + front + [c];
      assert last + front + [c] == last + g;
      assert (init + [last + front])[..|init|] == init;
    }
  }

  /** What each segment stands for: the text before the first '$', then the values of the names; a '$' at the
      very end stands for itself. */
  function Piece(bs: seq<Binding>, segs: seq<string>, k: nat): string
    requires k < |segs|
  {
    if k == 0 then segs[0]
    else if k == |segs| - 1 && segs[k] == "" then "$"
    else Lookup(bs, segs[k])
  }

  function PiecesOf(bs: seq<Binding>, segs: seq<string>): (r: seq<string>)
    ensures |r| == |segs|
  {
    seq(|segs|, k requires 0 <= k < |segs| => Piece(bs, segs, k))
  }

  function Expansion(bs: seq<Binding>, input: string): string { Concat(PiecesOf(bs, Split(input))) }

  /** "$" and a name, for each of `names`. */
  function Dollars(names: seq<string>): string {
    if names == [] then "" else Dollars(names[..|names| - 1]) + "$" + names[|names| - 1]
  }

  /** The values of `names`, one after the other. */
  function Values(bs: seq<Binding>, names: seq<string>): string {
    if names == [] then "" else Values(bs, names[..|names| - 1]) + Lookup(bs, names[|names| - 1])
  }

  predicate NoneHasDollar(segs: seq<string>) { forall g :: g in segs ==> '$' !in g }

  lemma {:induction false} JoinDollars(x: string, names: seq<string>)
    ensures JoinDollar([x] + names) == x + Dollars(names)
  {
    if names == [] {
      assert [x] + names == [x] && x + "" == x;
    } else {
      var front, last := names[..|names| - 1], names[|names| - 1];
      JoinDollars(x, front);
      assert ([x] + names)[..|names|] == [x] + front;
      assert x + Dollars(front) + "$" + last == x + (Dollars(front) + "$" + last);
    }
  }

  lemma {:induction false} LookupsAre(bs: seq<Binding>, names: seq<string>, pieces: seq<string>)
    requires |pieces| == |names| && forall k :: 0 <= k < |names| ==> pieces[k] == Lookup(bs, names[k])
    ensures Concat(pieces) == Values(bs, names)
  {
    if names != [] {
      var n := |names| - 1;
      LookupsAre(bs, names[..n], pieces[..n]);
      assert pieces == pieces[..n] + [pieces[n]];
      ConcatAppend(pieces[..n], [pieces[n]]);
      ConcatOne(pieces[n]);
    }
  }

  lemma ExpandPieces(bs: seq<Binding>, x: string, names: seq<string>)
    requires names == [] || names[|names| - 1] != ""
    ensures Concat(PiecesOf(bs, [x] + names)) == x + Values(bs, names)
  {
    hide Lookup;
    var segs := [x] + names;
    var pieces := PiecesOf(bs, segs);
    forall k | 0 <= k < |names|
      ensures pieces[1..][k] == Lookup(bs, names[k])
    {
      assert segs[k + 1] == names[k] && pieces[1..][k] == Piece(bs, segs, k + 1);
    }
    LookupsAre(bs, names, pieces[1..]);
    assert pieces[0] == x;
  }

  lemma ExpandPiecesDollar(bs: seq<Binding>, x: string, names: seq<string>)
    ensures Concat(PiecesOf(bs, [x] + names + [""])) == x + Values(bs, names) + "$"
  {
    hide Lookup;
    var segs := [x] + names + [""];
    var pieces := PiecesOf(bs, segs);
    var rest := pieces[1..];
    var middle := rest[..|names|];
    forall k | 0 <= k < |names|
      ensures middle[k] == Lookup(bs, names[k])
    {
      assert segs[k + 1] == names[k] && middle[k] == Piece(bs, segs, k + 1);
    }
    LookupsAre(bs, names, middle);
    assert rest[|names|] == Piece(bs, segs, |names| + 1) == "$";
    assert rest == middle + ["$"];
    ConcatAppend(middle, ["$"]);
    ConcatOne("$");
    assert pieces[0] == x && Concat(pieces) == x + Concat(rest);
    assert x + (Values(bs, names) + "$") == x + Values(bs, names) + "$";
  }

  /** What a text expands to: the part in front of the first '$' stays, each '$' and the name behind it become the value
      of the name, and a '$' at the very end stays. */
  lemma ExpansionIs(bs: seq<Binding>, x: string, names: seq<string>)
    requires '$' !in x && NoneHasDollar(names)
    ensures names == [] || names[|names| - 1] != "" ==> Expansion(bs, x + Dollars(names)) == x + Values(bs, names)
    ensures Expansion(bs, x + Dollars(names) + "$") == x + Values(bs, names) + "$"
  {
    hide Split, Lookup, PiecesOf, Concat;
    JoinDollars(x, names);
    SplitOfCut([x] + names);
    if names == [] || names[|names| - 1] != "" {
      ExpandPieces(bs, x, names);
    }
    SplitAppend(x + Dollars(names), '$');
    ExpandPiecesDollar(bs, x, names);
    assert x + Dollars(names) + ['$'] == x + Dollars(names) + "$";
  }

  lemma ConcatOne(a: string)
    ensures Concat([a]) == a
  {
    assert [a][1..] == [] && a + "" == a;
  }

  /** Some piece is cut for want of room, and something is still to come: `remaining` has then wrapped around,
      and the next append runs past the end of the buffer. A piece that just fits ends the scan in time. */
  predicate Overflows(pieces: seq<string>, room: nat) {
    if pieces == [] || room == 0 then false
    else if |pieces[0]| > room then Concat(pieces[1..]) != ""
    else Overflows(pieces[1..], room - |pieces[0]|)
  }

  /** Piece `j` crosses the end of the room, and some later piece is not empty. */
  ghost predicate Crosses(pieces: seq<string>, room: int, j: nat) {
    j < |pieces| && |Concat(pieces[..j])| < room < |Concat(pieces[..j])| + |pieces[j]| && Concat(pieces[j+1..]) != ""
  }

  lemma CrossesLater(pieces: seq<string>, room: int, j: nat)
    requires pieces != []
    ensures Crosses(pieces, room, j + 1) <==> Crosses(pieces[1..], room - |pieces[0]|, j)
  {
    if j < |pieces| - 1 {
      assert pieces[..j + 1][0] == pieces[0] && pieces[..j + 1][1..] == pieces[1..][..j];
      assert pieces[j + 2..] == pieces[1..][j + 1..];
    }
  }

  /** Overflow happens exactly when some piece crosses the end of the buffer and any later piece is not empty. */
  lemma {:induction false} OverflowsIff(pieces: seq<string>, room: nat)
    ensures Overflows(pieces, room) <==> exists j :: Crosses(pieces, room, j)
  {
    if pieces != [] && room > 0 {
      var p, rest := pieces[0], pieces[1..];
      assert pieces[..0] == [];
      if |p| <= room {
        var left := room - |p|;
        OverflowsIff(rest, left);
        if Overflows(rest, left) {
          var j :| Crosses(rest, left, j);
          CrossesLater(pieces, room, j);
        }
      } else {
        assert Crosses(pieces, room, 0) <==> Concat(rest) != "";
      }
      forall j: nat | Crosses(pieces, room, j) && j > 0
        ensures Crosses(rest, room - |p|, j - 1)
      {
        CrossesLater(pieces, room, j - 1);
      }
    }
  }

  // ---------------------------------------------------------------- the scan

  /** strncat(dst, src, n) on a buffer of MAX_STR_LEN + 1 bytes; None if it writes past the end. */
  function Strncat(dst: string, src: string, n: nat): Option<string> {
    if |dst| + |Take(src, n)| > MAX_STR_LEN then None else Some(dst + Take(src, n))
  }

  /** The first `m` pieces are out: `done` bytes of them, cut to the buffer. */
  ghost predicate Scanned(pieces: seq<string>, m: nat, out: string, remaining: nat) {
    && m <= |pieces|
    && var done := Concat(pieces[..m]);
    && out == Take(done, MAX_STR_LEN) && remaining == (MAX_STR_LEN - |done|) % SIZE_T
    && |done| <= MAX_STR_LEN + INT_MAX
    && (Overflows(pieces, MAX_STR_LEN) <==>
        if |done| > MAX_STR_LEN then Concat(pieces[m..]) != "" else Overflows(pieces[m..], MAX_STR_LEN - |done|))
  }

  lemma ScanStart(pieces: seq<string>)
    ensures Scanned(pieces, 0, "", MAX_STR_LEN)
  {
    assert pieces[..0] == [] && pieces[0..] == pieces;
  }

  lemma ConcatSnoc(pieces: seq<string>, m: nat)
    requires m < |pieces|
    ensures Concat(pieces[..m + 1]) == Concat(pieces[..m]) + pieces[m]
    ensures Concat(pieces[m..]) == pieces[m] + Concat(pieces[m + 1..])
  {
    assert pieces[..m + 1] == pieces[..m] + [pieces[m]];
    ConcatAppend(pieces[..m], [pieces[m]]);
    assert Concat([pieces[m]]) == pieces[m] + Concat([pieces[m]][1..]);
    assert pieces[m..][1..] == pieces[m + 1..];
  }

  lemma Remaining(pieces: seq<string>, m: nat, out: string, remaining: nat)
    requires Scanned(pieces, m, out, remaining)
    ensures var done := |Concat(pieces[..m])|;
      remaining == if done <= MAX_STR_LEN then MAX_STR_LEN - done else SIZE_T + MAX_STR_LEN - done
  {
  }

  /** Once a piece was cut, only empty pieces can be appended without going past the buffer. */
  lemma ScanStepCut(pieces: seq<string>, m: nat, out: string, remaining: nat)
    requires Scanned(pieces, m, out, remaining) && m < |pieces| && |Concat(pieces[..m])| > MAX_STR_LEN
    requires |pieces[m]| <= INT_MAX
    ensures pieces[m] != "" ==> Strncat(out, pieces[m], remaining) == None && Overflows(pieces, MAX_STR_LEN)
    ensures pieces[m] == "" ==>
      Strncat(out, pieces[m], remaining) == Some(out) && Scanned(pieces, m + 1, out, remaining)
  {
    hide Overflows;
    Remaining(pieces, m, out, remaining);
    ConcatSnoc(pieces, m);
    assert |out| == MAX_STR_LEN;
    if pieces[m] == "" {
      assert out + Take("", remaining) == out;
      assert Concat(pieces[..m]) + "" == Concat(pieces[..m]) && "" + Concat(pieces[m+1..]) == Concat(pieces[m+1..]);
    }
  }

  /** While there is room, what is appended is the piece, or as much of it as there is room for. */
  lemma ScanStepRoom(pieces: seq<string>, m: nat, out: string, remaining: nat)
    requires Scanned(pieces, m, out, remaining) && m < |pieces| && |Concat(pieces[..m])| < MAX_STR_LEN
    requires |pieces[m]| <= INT_MAX
    ensures Strncat(out, pieces[m], remaining).Some?
    ensures Scanned(pieces, m + 1, Strncat(out, pieces[m], remaining).value, (remaining - |pieces[m]|) % SIZE_T)
  {
    Remaining(pieces, m, out, remaining);
    ConcatSnoc(pieces, m);
    assert pieces[m..][1..] == pieces[m + 1..];
    var done, p := Concat(pieces[..m]), pieces[m];
    assert out == done;
    assert Take(done + p, MAX_STR_LEN) == done + Take(p, remaining);
  }

  /** A full buffer: nothing that follows matters, and nothing overflows. */
  lemma ScanFull(pieces: seq<string>, m: nat, out: string, remaining: nat)
    requires Scanned(pieces, m, out, remaining) && remaining == 0
    ensures !Overflows(pieces, MAX_STR_LEN) && out == Take(Concat(pieces), MAX_STR_LEN)
    ensures forall src :: Strncat(out, src, 0) == Some(out)
  {
    Remaining(pieces, m, out, remaining);
    assert pieces == pieces[..m] + pieces[m..];
    ConcatAppend(pieces[..m], pieces[m..]);
    forall src: string
      ensures Strncat(out, src, 0) == Some(out)
    {
      assert out + Take(src, 0) == out;
    }
  }

  /** The end of the scan, also when the last append was made with no room left. */
  lemma ScanEnd(pieces: seq<string>, m: nat, out: string, remaining: nat)
    requires Scanned(pieces, m, out, remaining) && m == |pieces|
    ensures !Overflows(pieces, MAX_STR_LEN) && out == Take(Concat(pieces), MAX_STR_LEN)
  {
    assert pieces[..m] == pieces && pieces[m..] == [];
  }

  /** Where the scan stands after `i` bytes: in segment `m`, of which it has read `name`. */
  ghost predicate InSegment(input: string, i: nat, m: nat, name: string) {
    i <= |input| && var r := Split(input[..i]); m == |r| - 1 && name == r[m]
  }

  lemma {:induction false} SplitGrows(input: string, i: nat)
    requires i <= |input|
    ensures var r, s := Split(input[..i]), Split(input);
      |r| <= |s| && r[..|r| - 1] == s[..|r| - 1] && r[|r| - 1] <= s[|r| - 1]
      && (i < |input| && input[i] == '$' ==> |r| < |s| && r[|r| - 1] == s[|r| - 1])
    decreases |input| - i
  {
    if i < |input| {
      assert input[..i + 1] == input[..i] + [input[i]];
      SplitAppend(input[..i], input[i]);
      SplitGrows(input, i + 1);
    } else {
      assert input[..i] == input;
    }
  }

  lemma {:induction false} SegmentsShort(segs: seq<string>)
    requires segs != []
    ensures forall g :: g in segs ==> |g| + |segs| - 1 <= |JoinDollar(segs)|
    decreases |segs|
  {
    if |segs| > 1 {
      SegmentsShort(segs[..|segs| - 1]);
    }
  }

  // ---------------------------------------------------------------- the name buffer

  predicate ValuesFit(bs: seq<Binding>) { forall b :: b in bs ==> |b.value| <= INT_MAX }

  /** The first `j` pieces fill the buffer exactly: the scan ends at the next byte. */
  predicate FullAt(pieces: seq<string>, j: nat)
    requires j <= |pieces|
  {
    |Concat(pieces[..j])| == MAX_STR_LEN
  }

  predicate NotFullBefore(pieces: seq<string>, m: nat)
    requires m <= |pieces|
  {
    forall j :: 0 <= j < m ==> !FullAt(pieces, j)
  }

  /** The scan reaches a segment that does not fit the buffer for names, terminator included. */
  ghost predicate NameOverruns(bs: seq<Binding>, input: string) {
    var segs := Split(input);
    exists k :: 0 <= k < |segs| && |segs[k]| >= MAX_STR_LEN && NotFullBefore(PiecesOf(bs, segs), k) && !FullAt(PiecesOf(bs, segs), k)
  }

  /** expand_variables() writes past the end of one of its buffers. */
  ghost predicate Fails(bs: seq<Binding>, input: string) {
    Overflows(PiecesOf(bs, Split(input)), MAX_STR_LEN) || NameOverruns(bs, input)
  }

  predicate SegmentsFit(segs: seq<string>, m: nat)
    requires m <= |segs|
  {
    forall k :: 0 <= k < m ==> |segs[k]| < MAX_STR_LEN
  }

  lemma NameOverrun(bs: seq<Binding>, input: string, m: nat)
    requires var segs := Split(input);
      m < |segs| && |segs[m]| >= MAX_STR_LEN && NotFullBefore(PiecesOf(bs, segs), m) && !FullAt(PiecesOf(bs, segs), m)
    ensures Fails(bs, input)
  {
  }

  lemma NoOverrun(bs: seq<Binding>, input: string, m: nat)
    requires m <= |Split(input)| && SegmentsFit(Split(input), m)
    requires m < |Split(input)| ==> FullAt(PiecesOf(bs, Split(input)), m)
    ensures !NameOverruns(bs, input)
  {
  }

  /** A token of an input line that is expanded because it holds a '$' always fits the name buffer. */
  lemma ShellTokensFit(bs: seq<Binding>, token: string)
    requires '$' in token && |token| <= MAX_STR_LEN
    ensures forall g :: g in Split(token) ==> |g| < MAX_STR_LEN
    ensures !NameOverruns(bs, token)
  {
    hide Split, PiecesOf;
    SplitIsCut(token);
    SegmentsShort(Split(token));
    forall k | 0 <= k < |Split(token)|
      ensures |Split(token)[k]| < MAX_STR_LEN
    {
      assert Split(token)[k] in Split(token);
    }
    NoOverrun(bs, token, |Split(token)|);
  }

  /** One append of the scan while there is room, or after a piece was cut. */
  lemma Flush(pieces: seq<string>, m: nat, out: string, remaining: nat)
    requires Scanned(pieces, m, out, remaining) && m < |pieces| && remaining >= 1 && |pieces[m]| <= INT_MAX
    ensures Strncat(out, pieces[m], remaining) == None ==> Overflows(pieces, MAX_STR_LEN)
    ensures Strncat(out, pieces[m], remaining).Some? ==>
      Scanned(pieces, m + 1, Strncat(out, pieces[m], remaining).value, (remaining - |pieces[m]|) % SIZE_T)
    ensures pieces[m] == "" ==> Scanned(pieces, m + 1, out, remaining)
  {
    hide Overflows;
    Remaining(pieces, m, out, remaining);
    if |Concat(pieces[..m])| > MAX_STR_LEN {
      ScanStepCut(pieces, m, out, remaining);
    } else {
      ScanStepRoom(pieces, m, out, remaining);
      assert Take("", remaining) == "" && out + "" == out;
    }
  }

  lemma LookupSize(bs: seq<Binding>, key: string)
    requires forall b :: b in bs ==> |b.value| <= INT_MAX
    ensures |Lookup(bs, key)| <= INT_MAX
  {
    if FirstEqual(bs, key) < |bs| {
      assert bs[FirstEqual(bs, key)] in bs;
    }
  }

  /** The piece that ends at the '$' at `i`. */
  lemma PieceEnds(bs: seq<Binding>, input: string, i: nat, m: nat, name: string)
    requires InSegment(input, i, m, name) && i < |input| && input[i] == '$' && ValuesFit(bs) && |name| < MAX_STR_LEN
    ensures var pieces := PiecesOf(bs, Split(input));
      m < |pieces| && pieces[m] == (if m == 0 then name else Lookup(bs, name)) && |pieces[m]| <= INT_MAX
    ensures InSegment(input, i + 1, m + 1, "") && Split(input)[m] == name && m + 1 < |Split(input)|
  {
    hide Split;
    SplitGrows(input, i);
    assert input[..i + 1] == input[..i] + [input[i]];
    SplitAppend(input[..i], input[i]);
    LookupSize(bs, name);
  }

  lemma SegmentGrows(input: string, i: nat, m: nat, name: string)
    requires InSegment(input, i, m, name) && i < |input| && input[i] != '$'
    ensures InSegment(input, i + 1, m, name + [input[i]]) && m < |Split(input)| && |name| + 1 <= |Split(input)[m]|
  {
    assert input[..i + 1] == input[..i] + [input[i]];
    SplitAppend(input[..i], input[i]);
    SplitGrows(input, i + 1);
  }

  lemma LastPiece(bs: seq<Binding>, input: string, m: nat, name: string)
    requires InSegment(input, |input|, m, name) && ValuesFit(bs) && |name| < MAX_STR_LEN
    ensures var pieces := PiecesOf(bs, Split(input));
      m == |pieces| - 1 && |pieces[m]| <= INT_MAX &&
      pieces[m] == if m == 0 then name else if name == "" then "$" else Lookup(bs, name)
    ensures Split(input)[m] == name
  {
    assert input[..|input|] == input;
    LookupSize(bs, name);
  }

  lemma RoomLeft(pieces: seq<string>, m: nat, out: string, remaining: nat)
    requires Scanned(pieces, m, out, remaining)
    ensures FullAt(pieces, m) <==> remaining == 0
  {
    Remaining(pieces, m, out, remaining);
  }

  lemma NotFullNext(pieces: seq<string>, m: nat)
    requires m < |pieces| && NotFullBefore(pieces, m) && !FullAt(pieces, m)
    ensures NotFullBefore(pieces, m + 1)
  {
  }

  /** expand_variables(): None stands for a write past the end of a buffer. */
  method ExpandVariables(input: string, store: Store) returns (r: Option<string>)
    requires store.Valid() && ValuesFit(store.Bindings())
    ensures r == if Fails(store.Bindings(), input) then None
                 else Some(Take(Expansion(store.Bindings(), input), MAX_STR_LEN))
  {
    hide Scanned, InSegment, Overflows, PiecesOf, Piece, Strncat, ValuesFit, Split, Concat, Take, Lookup;
    hide FullAt, NotFullBefore, NameOverruns;
    ghost var bs := store.Bindings();
    ghost var pieces, m := PiecesOf(bs, Split(input)), 0;
    var out, takingVar, varName := "", false, "";
    var remaining: nat := MAX_STR_LEN;
    ScanStart(pieces);
    SegmentStart(input);
    NeverFullYet(pieces);
    var i := 0;
    while i < |input|
      invariant 0 <= i <= |input| && Scanned(pieces, m, out, remaining) && InSegment(input, i, m, varName)
      invariant takingVar <==> m > 0
      invariant varName != "" ==> remaining >= 1
      invariant |varName| < MAX_STR_LEN && m < |pieces| && SegmentsFit(Split(input), m) && NotFullBefore(pieces, m)
    {
      RoomLeft(pieces, m, out, remaining);
      if remaining < 1 {
        ScanFull(pieces, m, out, remaining);
        NoOverrun(bs, input, m);
        return Some(out);
      }
      if input[i] == '$' {
        PieceEnds(bs, input, i, m, varName);
        Flush(pieces, m, out, remaining);
        NotFullNext(pieces, m);
        if takingVar || varName != "" {
          var text := varName;
          if takingVar {
            text := store.FindVal(varName);
          }
          if text != "" {
            var appended := Strncat(out, text, remaining);
            if appended == None {
              return None;
            }
            out, remaining := appended.value, (remaining - |text|) % SIZE_T;
          }
        }
        takingVar, varName, m := true, "", m + 1;
      } else {
        SegmentGrows(input, i, m, varName);
        if |varName| + 1 == MAX_STR_LEN {
          NameOverrun(bs, input, m);
          return None;
        }
        varName := varName + [input[i]];
      }
      i := i + 1;
    }
    LastPiece(bs, input, m, varName);
    NoOverrun(bs, input, m + 1);
    var last := varName;
    if varName != "" {
      if takingVar {
        last := store.FindVal(varName);
      }
    } else if takingVar {
      last := "$";
    }
    if remaining == 0 {
      ScanFull(pieces, m, out, remaining);
    } else {
      Flush(pieces, m, out, remaining);
    }
    r := Strncat(out, last, remaining);
    if r.Some? && remaining > 0 {
      ScanEnd(pieces, m + 1, r.value, (remaining - |last|) % SIZE_T);
    }
  }

  lemma NeverFullYet(pieces: seq<string>)
    ensures NotFullBefore(pieces, 0)
  {
  }

  lemma SegmentStart(input: string)
    ensures InSegment(input, 0, 0, "")
  {
    assert input[..0] == "";
  }

  // ---------------------------------------------------------------- expanding twice

  predicate DollarOnlyLast(s: string) { '$' !in s || (s[|s| - 1] == '$' && '$' !in s[..|s| - 1]) }

  lemma {:induction false} ConcatNoDollar(pieces: seq<string>)
    requires forall p :: p in pieces ==> '$' !in p
    ensures '$' !in Concat(pieces)
  {
    if pieces != [] {
      ConcatNoDollar(pieces[1..]);
    }
  }

  /** With '$'-free values an expansion holds no '$' but possibly a last one. */
  lemma ExpansionShape(bs: seq<Binding>, input: string)
    requires forall b :: b in bs ==> '$' !in b.value
    ensures DollarOnlyLast(Expansion(bs, input))
  {
    var segs := Split(input);
    SplitIsCut(input);
    var pieces := PiecesOf(bs, segs);
    var n := |segs| - 1;
    forall p | p in pieces[..n]
      ensures '$' !in p
    {
      var k :| 0 <= k < n && p == pieces[k];
      PlainPiece(bs, segs, k);
    }
    ConcatNoDollar(pieces[..n]);
    assert pieces == pieces[..n] + [pieces[n]];
    ConcatAppend(pieces[..n], [pieces[n]]);
    assert Concat([pieces[n]]) == pieces[n] + Concat([pieces[n]][1..]);
    if pieces[n] != "$" || n == 0 {
      PlainPiece(bs, segs, n);
    } else {
      var e := Expansion(bs, input);
      assert e[..|e| - 1] == Concat(pieces[..n]);
    }
  }

  lemma PlainPiece(bs: seq<Binding>, segs: seq<string>, k: nat)
    requires forall b :: b in bs ==> '$' !in b.value
    requires forall g :: g in segs ==> '$' !in g
    requires k < |segs| && (k == 0 || k < |segs| - 1 || Piece(bs, segs, k) != "$")
    ensures '$' !in Piece(bs, segs, k)
  {
    assert segs[k] in segs;
    var i := FirstEqual(bs, segs[k]);
    if i < |bs| {
      assert bs[i] in bs;
    }
  }

  lemma NoDollar(bs: seq<Binding>, s: string)
    requires '$' !in s
    ensures Split(s) == [s] && PiecesOf(bs, Split(s)) == [s] && Expansion(bs, s) == s
  {
    SplitOfCut([s]);
    var ps := PiecesOf(bs, Split(s));
    assert ps == [s];
    assert Concat(ps) == s + Concat(ps[1..]);
  }

  lemma TrailingDollar(bs: seq<Binding>, x: string)
    requires '$' !in x
    ensures Split(x + "$") == [x, ""] && PiecesOf(bs, Split(x + "$")) == [x, "$"] && Expansion(bs, x + "$") == x + "$"
  {
    hide Split;
    SplitOfCut([x]);
    SplitAppend(x, '$');
    assert x + ['$'] == x + "$" && [x] + [""] == [x, ""];
    var ps := PiecesOf(bs, [x, ""]);
    assert ps == [x, "$"];
    ConcatPair(x, "$");
  }

  lemma ConcatPair(a: string, b: string)
    ensures Concat([a, b]) == a + b
  {
    assert [a, b][1..] == [b] && [b][1..] == [];
    assert Concat([b]) == b + "";
  }

  lemma {:induction false} ShortPiecesFit(pieces: seq<string>, room: nat)
    requires |Concat(pieces)| <= room
    ensures !Overflows(pieces, room)
  {
    if pieces != [] {
      ShortPiecesFit(pieces[1..], room - |pieces[0]|);
    }
  }

  /** A text whose only '$' is the last byte expands to itself. */
  lemma ExpandPlain(bs: seq<Binding>, s: string)
    requires DollarOnlyLast(s)
    ensures Expansion(bs, s) == s
    ensures |s| <= MAX_STR_LEN ==> (Fails(bs, s) <==> |s| == MAX_STR_LEN && '$' !in s)
  {
    hide Split, PiecesOf, Overflows, Concat, NameOverruns;
    if '$' !in s {
      NoDollar(bs, s);
      if |s| <= MAX_STR_LEN {
        WholeSegment(bs, s);
      }
    } else {
      var x := s[..|s| - 1];
      assert s == x + "$";
      TrailingDollar(bs, x);
      if |s| <= MAX_STR_LEN {
        ShellTokensFit(bs, s);
      }
    }
    if |s| <= MAX_STR_LEN {
      ShortPiecesFit(PiecesOf(bs, Split(s)), MAX_STR_LEN);
    }
  }

  /** A text without '$' is one segment. */
  lemma WholeSegment(bs: seq<Binding>, s: string)
    requires '$' !in s && Split(s) == [s] && PiecesOf(bs, Split(s)) == [s]
    ensures NameOverruns(bs, s) <==> |s| >= MAX_STR_LEN
  {
    hide Split, PiecesOf;
    var pieces := PiecesOf(bs, Split(s));
    assert pieces[..0] == [] && Concat([]) == "";
    if |s| >= MAX_STR_LEN {
      assert NotFullBefore(pieces, 0) && !FullAt(pieces, 0) && |Split(s)[0]| >= MAX_STR_LEN;
    }
  }

  /** Expanding what was expanded changes nothing. With '$'-free values the second expansion writes past the buffer
      for names if and only if the first one filled its own without a '$'. */
  lemma ExpandTwice(bs: seq<Binding>, input: string)
    requires forall b :: b in bs ==> '$' !in b.value
    ensures var e := Take(Expansion(bs, input), MAX_STR_LEN);
      Expansion(bs, e) == e && (Fails(bs, e) <==> |e| == MAX_STR_LEN && '$' !in e)
  {
    hide Fails;
    ExpansionShape(bs, input);
    var full := Expansion(bs, input);
    var e := Take(full, MAX_STR_LEN);
    assert DollarOnlyLast(e) by {
      if e != full && |full| > 0 {
        assert e == full[..|full| - 1][..|e|];
      }
    }
    ExpandPlain(bs, e);
  }

  // ---------------------------------------------------------------- a store and a token that fail

  function Repeated(c: char, n: nat): (s: string)
    ensures |s| == n
  {
    seq(n, _ => c)
  }

  /** One assignment and one token, each far below the limit of a line: the second value crosses the end of the
      buffer and the third is written past it. */
  lemma OverflowExample()
    ensures Fails(Replay([Binding("v", Repeated('a', 100))]), "$v$v$v")
  {
    var a := Repeated('a', 100);
    var bs := Replay([Binding("v", a)]);
    OneBinding("v", a);
    var segs := ["", "v", "v", "v"];
    SplitExample();
    var pieces := PiecesOf(bs, segs);
    assert Lookup(bs, "v") == a;
    assert pieces == ["", a, a, a];
    hide Concat;
    assert pieces[1..] == [a, a, a] && [a, a, a][1..] == [a, a] && [a, a][1..] == [a];
    assert Concat([a]) != "" by { ConcatOne(a); }
    assert Overflows([a, a], 28);
    assert Overflows([a, a, a], 128);
  }

  lemma OneBinding(key: string, value: string)
    ensures Replay([Binding(key, value)]) == [Binding(key, value)]
  {
    var ops := [Binding(key, value)];
    assert ops[..0] == [] && Replay([]) == [];
    assert [Binding(key, value)] + [] == ops;
  }

  lemma SplitExample()
    ensures Split("$v$v$v") == ["", "v", "v", "v"]
  {
    var segs := ["", "v", "v", "v"];
    hide Split;
    assert segs[..3] == ["", "v", "v"] && ["", "v", "v"][..2] == ["", "v"] && ["", "v"][..1] == [""];
    assert JoinDollar([""]) == "";
    assert JoinDollar(["", "v"]) == "" + "$" + "v" == "$v";
    assert JoinDollar(["", "v", "v"]) == "$v" + "$" + "v" == "$v$v";
    assert JoinDollar(segs) == "$v$v" + "$" + "v" == "$v$v$v";
    SplitOfCut(segs);
  }
}
