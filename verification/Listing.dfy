/** bn_ls() and recursive_ls() of src/builtins.c: walking a directory tree by path names, with a depth limit and a
    substring filter. */
module Listing {

  /** A directory tree: opendir() fails on a file. */
  datatype Dir = Unreadable | Readable(entries: seq<Entry>)
  datatype Entry = Entry(name: string, below: Dir)

  /** What parse_ls() found. */
  datatype Info = Info(path: string, recursive: bool, hasDepth: bool, depth: int, hasSubstring: bool, substring: string)

  /** What opendir() and readdir() report for each path. */
  type FileSystem = map<string, seq<string>>

  predicate IsDot(name: string) { name == "." || name == ".." }

  /** The paths under `path` spell out the tree `d`; what "." and ".." lead to does not matter. */
  ghost predicate Mirrors(fs: FileSystem, path: string, d: Dir)
    decreases d
  {
    match d
    case Unreadable => path !in fs
    case Readable(entries) =>
      && path in fs && |fs[path]| == |entries|
      && forall i :: 0 <= i < |entries| ==>
           && fs[path][i] == entries[i].name
           && (entries[i].name != "." && entries[i].name != ".." ==> Mirrors(fs, path + "/" + entries[i].name, entries[i].below))
  }

  // ---------------------------------------------------------------- the declarative form

  datatype Line = Line(level: nat, name: string)

  /** Every entry with its nesting level, each directory right before what is in it. */
  function Lines(d: Dir, level: nat): seq<Line>
    decreases d, 0
  {
    match d
    case Unreadable => []
    case Readable(entries) => LinesOf(entries, level)
  }

  function LinesOf(entries: seq<Entry>, level: nat): seq<Line>
    decreases entries
  {
    if entries == [] then []
    else
      [Line(level, entries[0].name)]
      + (if IsDot(entries[0].name) then [] else Lines(entries[0].below, level + 1))
      + LinesOf(entries[1..], level)
  }

  predicate OccursAt(s: string, sub: string, i: nat) { i + |sub| <= |s| && s[i..i + |sub|] == sub }

  /** strstr(s, sub) != NULL. */
  predicate Contains(s: string, sub: string) { exists i: nat | i <= |s| :: OccursAt(s, sub, i) }

  /** A depth that limits: recursive_ls() counts down to 0, so a negative one never stops it. */
  predicate Limits(info: Info, depth: int) { info.hasDepth && depth >= 0 }

  predicate Passes(name: string, info: Info) { info.hasSubstring ==> Contains(name, info.substring) }

  /** The names of the lines that are not too deep and contain the substring. */
  function Shown(lines: seq<Line>, info: Info, depth: int): seq<string> {
    if lines == [] then []
    else
      (if (Limits(info, depth) ==> lines[0].level <= depth) && Passes(lines[0].name, info) then [lines[0].name] else [])
      + Shown(lines[1..], info, depth)
  }

  lemma {:induction false} ShownAppend(a: seq<Line>, b: seq<Line>, info: Info, depth: int)
    ensures Shown(a + b, info, depth) == Shown(a, info, depth) + Shown(b, info, depth)
  {
    hide Passes, Limits;
    if a == [] {
      assert a + b == b;
    } else {
      assert (a + b)[1..] == a[1..] + b;
      ShownAppend(a[1..], b, info, depth);
    }
  }

  /** What one entry contributes. */
  function LinesAt(e: Entry, level: nat): seq<Line> {
    [Line(level, e.name)] + (if IsDot(e.name) then [] else Lines(e.below, level + 1))
  }

  lemma {:induction false} LinesAppend(entries: seq<Entry>, e: Entry, level: nat)
    ensures LinesOf(entries + [e], level) == LinesOf(entries, level) + LinesAt(e, level)
  {
    hide IsDot;
    if entries == [] {
      assert (entries + [e])[1..] == [];
    } else {
      assert (entries + [e])[1..] == entries[1..] + [e];
      LinesAppend(entries[1..], e, level);
    }
  }

  /** `names` lead from `d` to an entry, and only the last of them may be "." or "..". */
  ghost predicate Leads(d: Dir, names: seq<string>)
    decreases |names|
  {
    names != [] && d.Readable? && exists e :: e in d.entries && Enters(e, names)
  }

  ghost predicate Enters(e: Entry, names: seq<string>)
    requires names != []
    decreases |names|, 0
  {
    e.name == names[0] && (|names| == 1 || (e.name != "." && e.name != ".." && Leads(e.below, names[1..])))
  }

  ghost predicate Found(d: Dir, level: int, name: string) {
    exists names :: Leads(d, names) && |names| == level && names[level - 1] == name
  }

  ghost predicate FoundIn(e: Entry, level: int, name: string) {
    exists names :: names != [] && Enters(e, names) && |names| == level && names[level - 1] == name
  }

  ghost predicate FoundAmong(entries: seq<Entry>, level: int, name: string) {
    exists e :: e in entries && FoundIn(e, level, name)
  }

  lemma FoundAmongFirst(entries: seq<Entry>, level: int, name: string)
    requires entries != []
    ensures FoundAmong(entries, level, name) <==> FoundIn(entries[0], level, name) || FoundAmong(entries[1..], level, name)
  {
    hide FoundIn;
    assert forall x :: x in entries <==> x == entries[0] || x in entries[1..];
  }

  lemma FoundBelow(e: Entry, level: int, name: string)
    ensures FoundIn(e, level, name) <==>
      (level == 1 && e.name == name) || (e.name != "." && e.name != ".." && Found(e.below, level - 1, name))
  {
    if names :| names != [] && Enters(e, names) && |names| == level && names[level - 1] == name {
      if level > 1 {
        assert names[1..][level - 2] == name;
      }
    }
    if level == 1 && e.name == name {
      assert Enters(e, [name]);
    }
    if e.name != "." && e.name != ".." {
      if names :| Leads(e.below, names) && |names| == level - 1 && names[level - 2] == name {
        var more := [e.name] + names;
        assert more[1..] == names && Enters(e, more) && more[level - 1] == name;
      }
    }
  }

  lemma FoundSome(d: Dir, level: int, name: string)
    requires d.Readable?
    ensures Found(d, level, name) <==> FoundAmong(d.entries, level, name)
  {
    if names :| Leads(d, names) && |names| == level && names[level - 1] == name {
      var e :| e in d.entries && Enters(e, names);
      assert FoundIn(e, level, name);
    }
    if e :| e in d.entries && FoundIn(e, level, name) {
      var names :| names != [] && Enters(e, names) && |names| == level && names[level - 1] == name;
      assert Leads(d, names);
    }
  }

  /** The listing has a line for exactly the entries that can be reached by names of which only the last is "." or
      "..", each at the level that is the number of its names. */
  lemma {:induction false} LinesIff(d: Dir, level: nat, l: Line)
    ensures l in Lines(d, level) <==> Found(d, l.level - level + 1, l.name)
    decreases d, 0
  {
    match d {
      case Unreadable =>
      case Readable(entries) =>
        LinesOfIff(entries, level, l);
        FoundSome(d, l.level - level + 1, l.name);
    }
  }

  lemma {:induction false} LinesOfIff(entries: seq<Entry>, level: nat, l: Line)
    ensures l in LinesOf(entries, level) <==> FoundAmong(entries, l.level - level + 1, l.name)
    decreases entries
  {
    if entries != [] {
      hide Found, FoundIn, FoundAmong, LinesOf, Lines;
      var e, rest, k := entries[0], entries[1..], l.level - level + 1;
      LinesOfIff(rest, level, l);
      FoundBelow(e, k, l.name);
      if !IsDot(e.name) {
        LinesIff(e.below, level + 1, l);
      }
      LinesOfFirst(entries, level);
      FoundAmongFirst(entries, k, l.name);
    }
  }

  lemma LinesOfFirst(entries: seq<Entry>, level: nat)
    requires entries != []
    ensures LinesOf(entries, level) == LinesAt(entries[0], level) + LinesOf(entries[1..], level)
  {
  }

  // ---------------------------------------------------------------- levels

  predicate LevelsFrom(lines: seq<Line>, level: nat) { forall i :: 0 <= i < |lines| ==> lines[i].level >= level }

  lemma {:induction false} DeepLevels(d: Dir, level: nat)
    ensures LevelsFrom(Lines(d, level), level)
    decreases d, 0
  {
    if d.Readable? {
      DeepLevelsOf(d.entries, level);
    }
  }

  lemma {:induction false} DeepLevelsOf(entries: seq<Entry>, level: nat)
    ensures LevelsFrom(LinesOf(entries, level), level)
    decreases entries
  {
    if entries != [] {
      if !IsDot(entries[0].name) {
        DeepLevels(entries[0].below, level + 1);
      }
      DeepLevelsOf(entries[1..], level);
    }
  }

  /** The names of the lines at `level`. */
  function NamesAt(lines: seq<Line>, level: nat): seq<string> {
    if lines == [] then [] else (if lines[0].level == level then [lines[0].name] else []) + NamesAt(lines[1..], level)
  }

  lemma {:induction false} NamesAtAppend(a: seq<Line>, b: seq<Line>, level: nat)
    ensures NamesAt(a + b, level) == NamesAt(a, level) + NamesAt(b, level)
  {
    if a == [] {
      assert a + b == b;
    } else {
      hide NamesAt;
      NamesAtFirst(a, level);
      NamesAtFirst(a + b, level);
      assert (a + b)[1..] == a[1..] + b;
      NamesAtAppend(a[1..], b, level);
      var first, more := if a[0].level == level then [a[0].name] else [], NamesAt(a[1..], level);
      assert first + (more + NamesAt(b, level)) == first + more + NamesAt(b, level);
    }
  }

  lemma NamesAtFirst(lines: seq<Line>, level: nat)
    requires lines != []
    ensures NamesAt(lines, level) ==
            (if lines[0].level == level then [lines[0].name] else []) + NamesAt(lines[1..], level)
  {
  }

  lemma {:induction false} NoNamesAbove(lines: seq<Line>, level: nat)
    requires LevelsFrom(lines, level + 1)
    ensures NamesAt(lines, level) == []
  {
    if lines != [] {
      NoNamesAbove(lines[1..], level);
    }
  }

  /** A line is at most one level deeper than the one before it: directories come right before what is in them. */
  predicate Descending(lines: seq<Line>, level: nat) {
    (lines != [] ==> lines[0].level == level) &&
    forall i :: 0 < i < |lines| ==> lines[i].level <= lines[i-1].level + 1
  }

  function EntryNames(entries: seq<Entry>): seq<string> {
    seq(|entries|, i requires 0 <= i < |entries| => entries[i].name)
  }

  /** A directory's own entries are listed in the order in which they are read, each before what is below it. */
  lemma {:induction false} LinesInOrder(d: Dir, level: nat)
    ensures Descending(Lines(d, level), level)
    ensures d.Readable? ==> NamesAt(Lines(d, level), level) == EntryNames(d.entries)
    decreases d, 0
  {
    if d.Readable? {
      LinesOfInOrder(d.entries, level);
    }
  }

  lemma {:induction false} LinesOfInOrder(entries: seq<Entry>, level: nat)
    ensures Descending(LinesOf(entries, level), level)
    ensures NamesAt(LinesOf(entries, level), level) == EntryNames(entries)
    decreases entries
  {
    if entries != [] {
      hide LinesOf, LinesAt, Lines, NamesAt, Descending, LevelsFrom;
      var e, rest := entries[0], entries[1..];
      LinesOfInOrder(rest, level);
      LinesOfFirst(entries, level);
      if !IsDot(e.name) {
        LinesInOrder(e.below, level + 1);
      }
      EntryInOrder(e, level);
      NamesAtAppend(LinesAt(e, level), LinesOf(rest, level), level);
      DescendingGlue(LinesAt(e, level), LinesOf(rest, level), level);
      assert EntryNames(entries) == [e.name] + EntryNames(rest);
    } else {
      assert LinesOf(entries, level) == [];
    }
  }

  lemma EntryInOrder(e: Entry, level: nat)
    requires e.name != "." && e.name != ".." ==> Descending(Lines(e.below, level + 1), level + 1)
    ensures LinesAt(e, level) != [] && LevelsFrom(LinesAt(e, level), level) && Descending(LinesAt(e, level), level)
    ensures NamesAt(LinesAt(e, level), level) == [e.name]
  {
    hide Lines, NamesAt;
    var first, below := [Line(level, e.name)], if IsDot(e.name) then [] else Lines(e.below, level + 1);
    DeepLevels(e.below, level + 1);
    NoNamesAbove(below, level);
    NameOfOne(level, e.name);
    NamesAtAppend(first, below, level);
    assert LinesAt(e, level) == first + below;
  }

  lemma NameOfOne(level: nat, name: string)
    ensures NamesAt([Line(level, name)], level) == [name]
  {
  }

  lemma DescendingGlue(a: seq<Line>, b: seq<Line>, level: nat)
    requires a != [] && Descending(a, level) && Descending(b, level) && LevelsFrom(a, level)
    ensures Descending(a + b, level)
  {
  }

  /** Lines below the limit are not shown. */
  lemma {:induction false} NothingShown(lines: seq<Line>, info: Info, depth: nat)
    requires info.hasDepth && LevelsFrom(lines, depth + 1)
    ensures Shown(lines, info, depth) == []
  {
    if lines != [] {
      NothingShown(lines[1..], info, depth);
    }
  }

  /** Lines and limit moved one level down. */
  predicate OneDeeper(a: seq<Line>, b: seq<Line>) {
    |a| == |b| && forall i :: 0 <= i < |a| ==> b[i] == Line(a[i].level + 1, a[i].name)
  }

  lemma {:induction false} Deeper(d: Dir, level: nat)
    ensures OneDeeper(Lines(d, level), Lines(d, level + 1))
    decreases d, 0
  {
    if d.Readable? {
      DeeperOf(d.entries, level);
    }
  }

  lemma {:induction false} DeeperOf(entries: seq<Entry>, level: nat)
    ensures OneDeeper(LinesOf(entries, level), LinesOf(entries, level + 1))
    decreases entries
  {
    if entries != [] {
      hide OneDeeper, Lines, LinesOf, LinesAt;
      var e, rest := entries[0], entries[1..];
      if !IsDot(e.name) {
        Deeper(e.below, level + 1);
      }
      DeeperOf(rest, level);
      DeeperAt(e, level);
      LinesOfFirst(entries, level);
      LinesOfFirst(entries, level + 1);
      DeeperGlue(LinesAt(e, level), LinesAt(e, level + 1), LinesOf(rest, level), LinesOf(rest, level + 1));
    }
  }

  lemma DeeperAt(e: Entry, level: nat)
    requires e.name != "." && e.name != ".." ==> OneDeeper(Lines(e.below, level + 1), Lines(e.below, level + 2))
    ensures OneDeeper(LinesAt(e, level), LinesAt(e, level + 1))
  {
    hide Lines;
  }

  lemma DeeperGlue(a: seq<Line>, b: seq<Line>, c: seq<Line>, d: seq<Line>)
    requires OneDeeper(a, b) && OneDeeper(c, d)
    ensures OneDeeper(a + c, b + d)
  {
  }

  lemma {:induction false} ShownDeeper(a: seq<Line>, b: seq<Line>, info: Info, depth: int)
    requires OneDeeper(a, b) && (info.hasDepth ==> depth != 0)
    ensures Shown(a, info, depth - 1) == Shown(b, info, depth)
  {
    if a != [] {
      hide Passes;
      ShownDeeper(a[1..], b[1..], info, depth);
    }
  }

  // ---------------------------------------------------------------- the recursion

  /** strstr(). */
  method Strstr(s: string, sub: string) returns (found: bool)
    ensures found <==> Contains(s, sub)
  {
    var i := 0;
    while i + |sub| <= |s|
      invariant forall k: nat :: k < i ==> !OccursAt(s, sub, k)
    {
      if s[i..i + |sub|] == sub {
        assert OccursAt(s, sub, i);
        return true;
      }
      i := i + 1;
    }
    found := false;
  }

  /** recursive_ls(); `out` are the names it displays, one per line. */
  method RecursiveLs(fs: FileSystem, path: string, info: Info, remainDepth: int, ghost d: Dir) returns (out: seq<string>)
    requires Mirrors(fs, path, d)
    ensures out == Shown(Lines(d, 1), info, remainDepth)
    decreases d
  {
    hide Contains, LinesOf, Shown;
    var remain := remainDepth;
    if !info.hasDepth {
      remain := -1;
      NoLimit(Lines(d, 1), info, remainDepth);
    } else if remain == 0 {
      DeepLevels(d, 1);
      NothingShown(Lines(d, 1), info, 0);
      return [];
    }
    if path !in fs {
      NoLines(info, remainDepth);
      return [];
    }
    out := [];
    var names := fs[path];
    ghost var es := d.entries;
    var i := 0;
    NoLines(info, remain);
    assert es[..0] == [];
    while i < |names|
      invariant 0 <= i <= |names|
      invariant out == Shown(LinesOf(es[..i], 1), info, remain)
    {
      var name := names[i];
      assert es[..i + 1] == es[..i] + [es[i]];
      LinesAppend(es[..i], es[i], 1);
      ShownAppend(LinesOf(es[..i], 1), LinesAt(es[i], 1), info, remain);
      ShownEntry(es[i], info, remain);
      ghost var before := out;
      if info.hasSubstring {
        var found := Strstr(name, info.substring);
        if found {
          out := out + [name];
          if !IsDot(name) {
            var below := RecursiveLs(fs, path + "/" + name, info, remain - 1, es[i].below);
            out := out + below;
          }
        } else {
          if !IsDot(name) {
            var below := RecursiveLs(fs, path + "/" + name, info, remain - 1, es[i].below);
            out := out + below;
          }
        }
      } else {
        out := out + [name];
        if !IsDot(name) {
          var below := RecursiveLs(fs, path + "/" + name, info, remain - 1, es[i].below);
          out := out + below;
        }
      }
      assert out == before + Shown(LinesAt(es[i], 1), info, remain);
      i := i + 1;
    }
    assert es[..i] == es;
  }

  lemma NoLines(info: Info, depth: int)
    ensures LinesOf([], 1) == [] && Shown([], info, depth) == []
  {
  }

  lemma {:induction false} NoLimit(lines: seq<Line>, info: Info, depth: int)
    requires !info.hasDepth
    ensures Shown(lines, info, depth) == Shown(lines, info, -1)
  {
    if lines != [] {
      hide Passes;
      NoLimit(lines[1..], info, depth);
    }
  }

  /** What one entry and the directory below it show. */
  lemma ShownEntry(e: Entry, info: Info, depth: int)
    requires info.hasDepth ==> depth != 0
    ensures Shown(LinesAt(e, 1), info, depth) ==
            (if Passes(e.name, info) then [e.name] else [])
            + (if IsDot(e.name) then [] else Shown(Lines(e.below, 1), info, depth - 1))
  {
    hide Passes, IsDot, Lines;
    var first := [Line(1, e.name)];
    var rest := if IsDot(e.name) then [] else Lines(e.below, 2);
    ShownAppend(first, rest, info, depth);
    assert first[1..] == [];
    assert Shown(first, info, depth) == if Passes(e.name, info) then [e.name] else [];
    if !IsDot(e.name) {
      Deeper(e.below, 1);
      ShownDeeper(Lines(e.below, 1), Lines(e.below, 2), info, depth);
    }
  }

  // ---------------------------------------------------------------- without --rec

  /** What bn_ls() displays once its options are parsed; `ok` is its return value. */
  method Ls(fs: FileSystem, info: Info, ghost d: Dir) returns (ok: bool, out: seq<string>)
    requires Mirrors(fs, info.path, d)
    ensures ok <==> (info.recursive || !info.hasDepth) && info.path in fs
    ensures !ok ==> out == []
    ensures ok && info.recursive ==> out == Shown(Lines(d, 1), info, info.depth)
    ensures ok && !info.recursive ==> out == Shown(Lines(d, 1), info.(hasDepth := true), 1)
  {
    hide Contains, Shown, LinesOf;
    if !info.recursive && info.hasDepth {
      return false, [];
    }
    if info.path !in fs {
      return false, [];
    }
    if info.recursive {
      out := RecursiveLs(fs, info.path, info, info.depth, d);
      return true, out;
    }
    out := [];
    var names := fs[info.path];
    ghost var es, shallow := d.entries, info.(hasDepth := true);
    NoLines(shallow, 1);
    assert es[..0] == [];
    var i := 0;
    while i < |names|
      invariant 0 <= i <= |names|
      invariant out == Shown(LinesOf(es[..i], 1), shallow, 1)
    {
      assert es[..i + 1] == es[..i] + [es[i]];
      LinesAppend(es[..i], es[i], 1);
      ShownAppend(LinesOf(es[..i], 1), LinesAt(es[i], 1), shallow, 1);
      ShownEntry(es[i], shallow, 1);
      DeepLevels(es[i].below, 1);
      NothingShown(Lines(es[i].below, 1), shallow, 0);
      if info.hasSubstring {
        var found := Strstr(names[i], info.substring);
        if found {
          out := out + [names[i]];
        }
      } else {
        out := out + [names[i]];
      }
      i := i + 1;
    }
    assert es[..i] == es;
    ok := true;
  }

  // ---------------------------------------------------------------- what the options mean

  /** The names that contain `sub`. */
  function Matching(names: seq<string>, sub: string): seq<string> {
    if names == [] then [] else (if Contains(names[0], sub) then [names[0]] else []) + Matching(names[1..], sub)
  }

  /** --f filters what would be displayed without it: it does not prune directories. */
  lemma {:induction false} FindFilters(lines: seq<Line>, info: Info, depth: int)
    requires info.hasSubstring
    ensures Shown(lines, info, depth) == Matching(Shown(lines, info.(hasSubstring := false), depth), info.substring)
  {
    if lines != [] {
      hide Contains;
      FindFilters(lines[1..], info, depth);
      var rest := Shown(lines[1..], info.(hasSubstring := false), depth);
      assert ([lines[0].name] + rest)[1..] == rest && [] + rest == rest;
    }
  }

  /** The tree cut off below `depth` levels. */
  function Prune(d: Dir, depth: nat): Dir
    decreases d, 0
  {
    if d.Unreadable? || depth == 0 then Unreadable else Readable(PruneAll(d.entries, depth))
  }

  function PruneAll(entries: seq<Entry>, depth: nat): seq<Entry>
    requires depth > 0
    decreases entries
  {
    if entries == [] then []
    else [Entry(entries[0].name, Prune(entries[0].below, depth - 1))] + PruneAll(entries[1..], depth)
  }

  /** --d k lists the tree cut off below k levels, all of it. */
  lemma {:induction false} DepthPrunes(d: Dir, info: Info, depth: nat)
    requires info.hasDepth
    ensures Shown(Lines(d, 1), info, depth) == Shown(Lines(Prune(d, depth), 1), info.(hasDepth := false), -1)
    decreases d, 0
  {
    if depth == 0 {
      DeepLevels(d, 1);
      NothingShown(Lines(d, 1), info, 0);
    } else if d.Readable? {
      DepthPrunesAll(d.entries, info, depth);
    }
  }

  lemma {:induction false} DepthPrunesAll(entries: seq<Entry>, info: Info, depth: nat)
    requires info.hasDepth && depth > 0
    ensures Shown(LinesOf(entries, 1), info, depth) ==
            Shown(LinesOf(PruneAll(entries, depth), 1), info.(hasDepth := false), -1)
    decreases entries
  {
    if entries != [] {
      hide LinesAt, LinesOf, Shown, Prune, PruneAll;
      var e, rest, free := entries[0], entries[1..], info.(hasDepth := false);
      var p, prest := Entry(e.name, Prune(e.below, depth - 1)), PruneAll(rest, depth);
      DepthPrunesAll(rest, info, depth);
      DepthPrunes(e.below, info, depth - 1);
      PruneFirst(entries, depth);
      LinesOfFirst(entries, 1);
      LinesOfFirst([p] + prest, 1);
      assert ([p] + prest)[1..] == prest;
      ShownAppend(LinesAt(e, 1), LinesOf(rest, 1), info, depth);
      ShownAppend(LinesAt(p, 1), LinesOf(prest, 1), free, -1);
      EntryPrunes(e, p, info, depth);
    }
  }

  lemma PruneFirst(entries: seq<Entry>, depth: nat)
    requires entries != [] && depth > 0
    ensures PruneAll(entries, depth) ==
            [Entry(entries[0].name, Prune(entries[0].below, depth - 1))] + PruneAll(entries[1..], depth)
  {
  }

  /** One entry with the directory below it cut off. */
  lemma EntryPrunes(e: Entry, p: Entry, info: Info, depth: nat)
    requires info.hasDepth && depth > 0 && p.name == e.name
    requires Shown(Lines(e.below, 1), info, depth - 1) == Shown(Lines(p.below, 1), info.(hasDepth := false), -1)
    ensures Shown(LinesAt(e, 1), info, depth) == Shown(LinesAt(p, 1), info.(hasDepth := false), -1)
  {
    hide Passes, IsDot, Shown, Lines, LinesAt;
    var free := info.(hasDepth := false);
    NoLimit(Lines(p.below, 1), free, -2);
    ShownEntry(e, info, depth);
    ShownEntry(p, free, -1);
    SamePasses(e.name, info);
  }

  lemma SamePasses(name: string, info: Info)
    ensures Passes(name, info) == Passes(name, info.(hasDepth := false))
  {
  }

  /** How deep entries are nested. */
  function Height(d: Dir): nat
    decreases d, 0
  {
    match d
    case Unreadable => 0
    case Readable(entries) => HeightOf(entries)
  }

  function HeightOf(entries: seq<Entry>): nat
    decreases entries
  {
    if entries == [] then 0
    else
      var here := 1 + (if IsDot(entries[0].name) then 0 else Height(entries[0].below));
      var others := HeightOf(entries[1..]);
      if here < others then others else here
  }

  /** Some line lies deeper than `depth`. */
  ghost predicate Exceeds(lines: seq<Line>, depth: nat) { exists i :: 0 <= i < |lines| && lines[i].level > depth }

  lemma ExceedsAppend(a: seq<Line>, b: seq<Line>, depth: nat)
    ensures Exceeds(a + b, depth) <==> Exceeds(a, depth) || Exceeds(b, depth)
  {
    var c := a + b;
    assert forall i :: 0 <= i < |a| ==> c[i] == a[i];
    assert forall i :: 0 <= i < |b| ==> c[|a| + i] == b[i];
  }

  lemma {:induction false} HeightIsLevel(d: Dir, level: nat, depth: nat)
    ensures Exceeds(Lines(d, level + 1), depth) <==> (Height(d) > 0 && level + Height(d) > depth)
    decreases d, 0
  {
    if d.Readable? {
      HeightIsLevelOf(d.entries, level, depth);
    }
  }

  lemma {:induction false} HeightIsLevelOf(entries: seq<Entry>, level: nat, depth: nat)
    ensures Exceeds(LinesOf(entries, level + 1), depth) <==> (entries != [] && level + HeightOf(entries) > depth)
    ensures entries != [] ==> HeightOf(entries) > 0
    decreases entries
  {
    if entries != [] {
      hide Exceeds, IsDot;
      var e := entries[0];
      var first := [Line(level + 1, e.name)];
      var below := if IsDot(e.name) then [] else Lines(e.below, level + 2);
      HeightIsLevelOf(entries[1..], level, depth);
      ExceedsOne(Line(level + 1, e.name), depth);
      if !IsDot(e.name) {
        HeightIsLevel(e.below, level + 1, depth);
      }
      ExceedsAppend(first, below, depth);
      ExceedsAppend(first + below, LinesOf(entries[1..], level + 1), depth);
    }
  }

  lemma ExceedsOne(l: Line, depth: nat)
    ensures Exceeds([l], depth) <==> l.level > depth
    ensures !Exceeds([], depth)
  {
    assert [l][0] == l;
  }

  /** Every line is shown exactly when none lies too deep. */
  lemma {:induction false} AllShownIff(lines: seq<Line>, info: Info, depth: nat)
    requires info.hasDepth && !info.hasSubstring
    ensures var all := Shown(lines, info.(hasDepth := false), -1);
            && |all| == |lines| && |Shown(lines, info, depth)| <= |lines|
            && (Shown(lines, info, depth) == all <==> !Exceeds(lines, depth))
  {
    if lines == [] {
      assert !Exceeds(lines, depth);
    } else {
      hide Exceeds;
      AllShownIff(lines[1..], info, depth);
      var some, all := Shown(lines[1..], info, depth), Shown(lines[1..], info.(hasDepth := false), -1);
      assert ([lines[0].name] + some)[1..] == some && ([lines[0].name] + all)[1..] == all;
      assert [] + some == some;
      ExceedsOne(lines[0], depth);
      ExceedsAppend(lines[..1], lines[1..], depth);
      assert lines == lines[..1] + lines[1..] && lines[..1] == [lines[0]];
    }
  }

  /** --d k is no limit exactly when k reaches the height of the tree. */
  lemma DepthReachesIff(d: Dir, info: Info, depth: nat)
    requires info.hasDepth && !info.hasSubstring
    ensures Shown(Lines(d, 1), info, depth) == Shown(Lines(d, 1), info.(hasDepth := false), -1) <==> depth >= Height(d)
  {
    hide Shown, Exceeds, Lines, Height;
    HeightIsLevel(d, 0, depth);
    AllShownIff(Lines(d, 1), info, depth);
  }
}
