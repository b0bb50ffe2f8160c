/** The path rewriting of bn_cd() (src/builtins.c) for paths without '$': "..." is two levels up, "...." three. */
module Paths {
  import opened Text
  import opened Strtok

  const SLASH := {'/'}

  // ---------------------------------------------------------------- what the rewriting is for

  /** A file system as path resolution sees it: any directories, any partial step from one to another by a name. */
  datatype FileSystem<!D> = FileSystem(root: D, step: (D, string) -> Option<D>)

  function Walk<D>(fs: FileSystem<D>, from: Option<D>, names: seq<string>): Option<D>
    decreases |names|
  {
    if names == [] || from.None? then from else Walk(fs, fs.step(from.value, names[0]), names[1..])
  }

  function Start<D>(fs: FileSystem<D>, cwd: D, path: string): Option<D> {
    if path == "" then None else if path[0] == '/' then Some(fs.root) else Some(cwd)
  }

  /** chdir(path): walk from the root or the current directory, one component after the other. */
  function Resolve<D>(fs: FileSystem<D>, cwd: D, path: string): Option<D> {
    Walk(fs, Start(fs, cwd, path), Words(path, SLASH))
  }

  /** `levels` times up. */
  function Up<D>(fs: FileSystem<D>, from: Option<D>, levels: nat): Option<D>
    decreases levels
  {
    if levels == 0 || from.None? then from else Up(fs, fs.step(from.value, ".."), levels - 1)
  }

  /** What the user means by one component. */
  function Meant<D>(fs: FileSystem<D>, from: Option<D>, name: string): Option<D> {
    if name == "..." then Up(fs, from, 2)
    else if name == "...." then Up(fs, from, 3)
    else if from.None? then from
    else fs.step(from.value, name)
  }

  /** What the user means by the components of a path. */
  function WalkMeant<D>(fs: FileSystem<D>, from: Option<D>, names: seq<string>): Option<D>
    decreases |names|
  {
    if names == [] then from
    else Meant(fs, WalkMeant(fs, from, names[..|names| - 1]), names[|names| - 1])
  }

  // ---------------------------------------------------------------- the rewritten path

  function Rewritten(name: string): string {
    if name == "..." then "../.." else if name == "...." then "../../.." else name
  }

  function JoinSlash(names: seq<string>): string {
    if names == [] then ""
    else if |names| == 1 then Rewritten(names[0])
    else JoinSlash(names[..|names| - 1]) + "/" + Rewritten(names[|names| - 1])
  }

  function Lead(path: string): string { if path != "" && path[0] == '/' then "/" else "" }

  /** The path bn_cd() rebuilds if its buffer is large enough. */
  function Rebuilt(path: string): string { Lead(path) + JoinSlash(Words(path, SLASH)) }

  /** The components a rewritten component consists of. */
  function Parts(name: string): seq<string> {
    if name == "..." then ["..", ".."] else if name == "...." then ["..", "..", ".."] else [name]
  }

  function AllParts(names: seq<string>): seq<string> {
    if names == [] then [] else AllParts(names[..|names| - 1]) + Parts(names[|names| - 1])
  }

  predicate IsName(n: string) { n != "" && NoneIn(n, SLASH) }

  predicate AreNames(names: seq<string>) { forall i :: 0 <= i < |names| ==> IsName(names[i]) }

  lemma {:induction false} WordsAreNames(s: string)
    ensures AreNames(Words(s, SLASH))
    decreases |s|
  {
    if s != "" {
      WordsAreNames(s[if s[0] in SLASH then 1 else RunLength(s, SLASH)..]);
    }
  }

  lemma DotDot()
    ensures IsName("..")
  {
  }

  /** Behind a slash, a rewritten component is its parts. */
  lemma PartsAppend(s: string, w: string)
    requires IsName(w)
    ensures Words(s + "/" + Rewritten(w), SLASH) == Words(s, SLASH) + Parts(w)
  {
    hide Words;
    DotDot();
    if w == "..." || w == "...." {
      var one := s + "/" + "..";
      var two := one + "/" + "..";
      WordsAppend(s, '/', "..", SLASH);
      WordsAppend(one, '/', "..", SLASH);
      WordsAppend(two, '/', "..", SLASH);
      if w == "..." {
        assert s + "/" + "../.." == two;
      } else {
        assert s + "/" + "../../.." == two + "/" + "..";
      }
    } else {
      WordsAppend(s, '/', w, SLASH);
    }
  }

  lemma JustSlash(s: string)
    ensures Words("/" + s, SLASH) == Words(s, SLASH)
  {
    DelimsThen("/", s, SLASH);
  }

  /** The components of the joined path are the parts of the components joined. */
  lemma {:induction false} WordsOfJoin(names: seq<string>)
    requires AreNames(names)
    ensures Words(JoinSlash(names), SLASH) == AllParts(names)
  {
    hide Words, Rewritten, Parts;
    if |names| == 1 {
      PartsAppend("", names[0]);
      NoneLeft("", 0, SLASH);
      JustSlash(Rewritten(names[0]));
      assert "" + "/" + Rewritten(names[0]) == "/" + Rewritten(names[0]) && ""[0..] == "";
      assert AllParts(names[..0]) == [];
    } else if names != [] {
      WordsOfJoin(names[..|names| - 1]);
      PartsAppend(JoinSlash(names[..|names| - 1]), names[|names| - 1]);
    } else {
      NoneLeft("", 0, SLASH);
    }
  }

  lemma WordsOfRebuilt(path: string)
    ensures Words(Rebuilt(path), SLASH) == AllParts(Words(path, SLASH))
  {
    hide Words, JoinSlash;
    var names := Words(path, SLASH);
    WordsAreNames(path);
    WordsOfJoin(names);
    JustSlash(JoinSlash(names));
    assert "" + JoinSlash(names) == JoinSlash(names);
  }

  // ---------------------------------------------------------------- resolving it

  lemma {:induction false} WalkAppend<D>(fs: FileSystem<D>, from: Option<D>, a: seq<string>, b: seq<string>)
    ensures Walk(fs, from, a + b) == Walk(fs, Walk(fs, from, a), b)
    decreases |a|
  {
    if a == [] || from.None? {
      assert a == [] ==> a + b == b;
    } else {
      assert (a + b)[1..] == a[1..] + b;
      WalkAppend(fs, fs.step(from.value, a[0]), a[1..], b);
    }
  }

  lemma WalkParts<D>(fs: FileSystem<D>, from: Option<D>, n: string)
    ensures Walk(fs, from, Parts(n)) == Meant(fs, from, n)
  {
    if from.Some? {
      var one := fs.step(from.value, "..");
      assert ["..", ".."][1..] == [".."] && ["..", "..", ".."][1..] == ["..", ".."];
      WalkUp(fs, one);
      if one.Some? {
        WalkUp(fs, fs.step(one.value, ".."));
      }
    }
  }

  lemma WalkUp<D>(fs: FileSystem<D>, from: Option<D>)
    ensures Walk(fs, from, [".."]) == Up(fs, from, 1)
  {
  }

  lemma {:induction false} WalkAllParts<D>(fs: FileSystem<D>, from: Option<D>, names: seq<string>)
    ensures Walk(fs, from, AllParts(names)) == WalkMeant(fs, from, names)
  {
    if names != [] {
      hide Parts, Meant;
      var front, n := names[..|names| - 1], names[|names| - 1];
      WalkAllParts(fs, from, front);
      WalkAppend(fs, from, AllParts(front), Parts(n));
      WalkParts(fs, Walk(fs, from, AllParts(front)), n);
    }
  }

  /** A rebuilt path is absolute, relative or empty when the given one is. */
  lemma RebuiltStart(path: string)
    ensures Rebuilt(path) == "" <==> path == ""
    ensures path != "" ==> (Rebuilt(path)[0] == '/' <==> path[0] == '/')
  {
    if path != "" && path[0] != '/' {
      WordsAreNames(path);
      var names := Words(path, SLASH);
      assert names != [];
      JoinStart(names);
    }
  }

  lemma {:induction false} JoinStart(names: seq<string>)
    requires AreNames(names) && names != []
    ensures JoinSlash(names) != "" && JoinSlash(names)[0] != '/'
  {
    if |names| == 1 {
      assert IsName(names[0]) && names[0][0] in names[0];
    } else {
      JoinStart(names[..|names| - 1]);
    }
  }

  /** From every directory of every file system, the rebuilt path leads where the given one is meant to lead. */
  lemma MeaningPreserved<D>(fs: FileSystem<D>, cwd: D, path: string)
    ensures Resolve(fs, cwd, Rebuilt(path)) == WalkMeant(fs, Start(fs, cwd, path), Words(path, SLASH))
  {
    hide Words, Rebuilt;
    WordsOfRebuilt(path);
    RebuiltStart(path);
    WalkAllParts(fs, Start(fs, cwd, path), Words(path, SLASH));
  }

  // ---------------------------------------------------------------- its shape

  predicate SlashesAt(s: string, i: int) { 0 <= i && i + 1 < |s| && s[i] == '/' && s[i+1] == '/' }

  /** No empty component: slashes come single, and none ends the path unless it is the whole path. */
  ghost predicate Collapsed(s: string) {
    (forall i :: !SlashesAt(s, i)) && (|s| >= 2 ==> s[|s| - 1] != '/')
  }

  lemma RewrittenShape(name: string)
    requires IsName(name)
    ensures var r := Rewritten(name); r != "" && r[0] != '/' && r[|r| - 1] != '/' && forall i :: !SlashesAt(r, i)
  {
    assert name[0] in name && name[|name| - 1] in name;
    forall i
      ensures !SlashesAt(name, i)
    {
      assert 0 <= i < |name| ==> name[i] in name;
    }
  }

  lemma {:induction false} JoinShape(names: seq<string>)
    requires AreNames(names) && names != []
    ensures var s := JoinSlash(names); s != "" && s[0] != '/' && s[|s| - 1] != '/' && forall i :: !SlashesAt(s, i)
  {
    hide Rewritten;
    var front, r := names[..|names| - 1], Rewritten(names[|names| - 1]);
    assert IsName(names[|names| - 1]);
    RewrittenShape(names[|names| - 1]);
    if front != [] {
      JoinShape(front);
      SlashBetween(JoinSlash(front), r);
    }
  }

  lemma SlashBetween(a: string, b: string)
    requires a != "" && b != "" && a[|a| - 1] != '/' && b[0] != '/'
    requires (forall i :: !SlashesAt(a, i)) && (forall i :: !SlashesAt(b, i))
    ensures forall i :: !SlashesAt(a + "/" + b, i)
  {
    var s := a + "/" + b;
    forall i
      ensures !SlashesAt(s, i)
    {
      assert !SlashesAt(a, i) && !SlashesAt(b, i - |a| - 1);
    }
  }

  /** Repeated and trailing slashes are gone from the rebuilt path, and a leading one stays. */
  lemma RebuiltCollapsed(path: string)
    ensures Collapsed(Rebuilt(path))
    ensures Rebuilt(path) != "" && Rebuilt(path)[0] == '/' <==> path != "" && path[0] == '/'
  {
    hide Words, JoinSlash;
    RebuiltStart(path);
    WordsAreNames(path);
    var names := Words(path, SLASH);
    if names == [] {
      JoinNothing();
    } else {
      JoinShape(names);
      var s, r := JoinSlash(names), Rebuilt(path);
      forall i
        ensures !SlashesAt(r, i)
      {
        assert !SlashesAt(s, i) && !SlashesAt(s, i - 1);
      }
    }
  }

  lemma JoinNothing()
    ensures JoinSlash([]) == ""
  {
  }

  // ---------------------------------------------------------------- the loop

  /** The source writes past the end of its buffer: a slash has to go behind 128 bytes. */
  predicate Overruns(path: string) {
    var names := Words(path, SLASH);
    |names| >= 2 && |Lead(path) + JoinSlash(names[..|names| - 1])| >= MAX_STR_LEN
  }

  /** strncat(dst, w, n). */
  method Strncat(dst: array<char>, w: string, n: nat, ghost d: string)
    requires NUL !in d && NUL !in w && StringAt(dst, 0, d) && |d| + Min(|w|, n) < dst.Length
    modifies dst
    ensures StringAt(dst, 0, d + Take(w, n))
  {
    var s := ReadString(dst, 0, d);
    var i := 0;
    while i < |w| && i < n
      invariant 0 <= i <= Min(|w|, n)
      invariant forall k :: 0 <= k < |d| + i ==> dst[k] == (d + w[..i])[k]
    {
      dst[|s| + i] := w[i];
      i := i + 1;
    }
    dst[|s| + i] := NUL;
  }

  /** strncat(final, w, MAX_STR_LEN - strlen(final)). */
  method Append(final: array<char>, w: string, ghost d: string)
    requires NUL !in d && NUL !in w && StringAt(final, 0, d) && |d| <= MAX_STR_LEN < final.Length
    modifies final
    ensures StringAt(final, 0, Take(d + w, MAX_STR_LEN))
  {
    var s := ReadString(final, 0, d);
    Strncat(final, w, MAX_STR_LEN - |s|, d);
    assert d + Take(w, MAX_STR_LEN - |d|) == Take(d + w, MAX_STR_LEN);
  }

  /** strcat(final, "/"), if there is room for it. */
  method AppendSlash(final: array<char>, ghost d: string) returns (fits: bool)
    requires NUL !in d && StringAt(final, 0, d) && |d| <= MAX_STR_LEN < final.Length
    modifies final
    ensures fits <==> |d| < MAX_STR_LEN
    ensures fits ==> StringAt(final, 0, d + "/")
  {
    var s := ReadString(final, 0, d);
    if |s| == MAX_STR_LEN {
      return false;
    }
    Strncat(final, "/", 1, d);
    assert Take("/", 1) == "/";
    fits := true;
  }

  /** The buffer before the loop: a leading slash, or nothing. */
  method Begin(path: array<char>, ghost text: string) returns (final: array<char>)
    requires NUL !in text && StringAt(path, 0, text)
    ensures fresh(final) && final.Length == MAX_STR_LEN + 1 && StringAt(final, 0, Lead(text))
  {
    final := new char[MAX_STR_LEN + 1](_ => NUL);
    EndOfString(path, 0, text, 0);
    if path[0] == '/' {
      var room := AppendSlash(final, "");
      assert "" + "/" == "/";
    }
  }

  /** The path rebuilt from the first `c` components. */
  function Upto(path: string, names: seq<string>, c: nat): string
    requires c <= |names|
  {
    Lead(path) + JoinSlash(names[..c])
  }

  /** What is in the buffer when component `c` is to be appended. */
  function Before(path: string, names: seq<string>, c: nat): string
    requires c <= |names|
  {
    Upto(path, names, c) + (if 0 < c < |names| then "/" else "")
  }

  lemma NextJoin(path: string, names: seq<string>, c: nat)
    requires c < |names|
    ensures Before(path, names, c) + Rewritten(names[c]) == Upto(path, names, c + 1)
  {
    hide Rewritten;
    assert names[..c + 1][..c] == names[..c];
  }

  /** The step of the loop: component `c` goes behind what is there, then a slash if there are more. */
  lemma NextName(path: string, names: seq<string>, c: nat, d: string)
    requires names == Words(path, SLASH) && c < |names| && d == Before(path, names, c)
    requires NUL !in d && NUL !in Rewritten(names[c])
    ensures d + Rewritten(names[c]) == Upto(path, names, c + 1)
    ensures |d| <= MAX_STR_LEN ==> Roomy(path, names, c + 1)
    ensures var t := Take(Upto(path, names, c + 1), MAX_STR_LEN);
      && |t| <= MAX_STR_LEN && NUL !in t && NUL !in t + "/"
      && (c + 1 == |names| ==> t == Take(Rebuilt(path), MAX_STR_LEN))
      && (|t| < MAX_STR_LEN ==> t == Upto(path, names, c + 1))
      && (|t| < MAX_STR_LEN && c + 1 < |names| ==> t + "/" == Before(path, names, c + 1))
      && (|t| == MAX_STR_LEN && c + 1 < |names| ==> Overruns(path))
  {
    hide Words, Rewritten, JoinSlash, Lead;
    NextJoin(path, names, c);
    assert NUL !in d + Rewritten(names[c]);
    if c + 1 == |names| {
      assert names[..c + 1] == names;
    } else {
      AllButLast(names, c + 1);
    }
  }

  /** So far no slash had to go behind a full buffer. */
  predicate Roomy(path: string, names: seq<string>, c: nat)
    requires c <= |names|
  {
    c >= 2 ==> |Upto(path, names, c - 1)| < MAX_STR_LEN
  }

  lemma RoomyAtEnd(path: string, names: seq<string>)
    requires names == Words(path, SLASH)
    ensures Roomy(path, names, |names|) <==> !Overruns(path)
  {
  }

  lemma LoopStart(path: string, names: seq<string>)
    requires names == Words(path, SLASH) && NUL !in path
    ensures Lead(path) == Before(path, names, 0) && |Lead(path)| <= MAX_STR_LEN && NUL !in Lead(path)
    ensures names == [] ==> Lead(path) == Take(Rebuilt(path), MAX_STR_LEN)
  {
  }

  lemma {:induction false} JoinGrows(names: seq<string>, c: nat)
    requires c <= |names|
    ensures |JoinSlash(names[..c])| <= |JoinSlash(names)|
  {
    if c < |names| {
      JoinGrows(names[..|names| - 1], c);
      assert names[..|names| - 1][..c] == names[..c];
    } else {
      assert names[..c] == names;
    }
  }

  lemma {:induction false} NulFree(names: seq<string>, s: string)
    requires NUL !in s && names == Words(s, SLASH)
    ensures forall i :: 0 <= i < |names| ==> NUL !in names[i] && NUL !in Rewritten(names[i])
    decreases |s|
  {
    if s != "" {
      var k := if s[0] in SLASH then 1 else RunLength(s, SLASH);
      NulFree(Words(s[k..], SLASH), s[k..]);
    }
  }

  /** The loop of bn_cd(): the components one by one, rewritten, with slashes between them. `fits` is false where the
      source writes past its buffer; otherwise the buffer holds the rebuilt path, cut at 128 bytes. */
  method Rebuild(path: array<char>, ghost text: string) returns (fits: bool, final: array<char>)
    requires NUL !in text && StringAt(path, 0, text)
    modifies path
    ensures fresh(final)
    ensures fits <==> !Overruns(text)
    ensures fits ==> StringAt(final, 0, Take(Rebuilt(text), MAX_STR_LEN))
  {
    hide Words, JoinSlash, Rewritten, StringAt, Rebuilt, Overruns, Lead, Upto, Before, Take;
    ghost var names := Words(text, SLASH);
    NulFree(names, text);
    LoopStart(text, names);
    RoomyAtEnd(text, names);
    final := Begin(path, text);
    ghost var d := Lead(text);
    var scanner := new Scanner(path, text);
    assert text[0..] == text;
    var curr := scanner.Next(text, SLASH);
    ghost var c := 0;
    while curr.Some?
      invariant fresh(scanner) && scanner.buf == path && scanner.Valid(text)
      invariant c <= |names| && (curr.None? <==> c == |names|) && Roomy(text, names, c)
      invariant curr.Some? ==> StringAt(path, curr.value, names[c]) && d == Before(text, names, c)
      invariant curr.Some? ==> names[c + 1..] == Words(text[scanner.save..], SLASH)
      invariant curr.None? ==> d == Take(Rebuilt(text), MAX_STR_LEN)
      invariant |d| <= MAX_STR_LEN && NUL !in d && StringAt(final, 0, d)
      decreases |names| - c
    {
      var name := ReadString(path, curr.value, names[c]);
      NextName(text, names, c, d);
      Append(final, Rewritten(name), d);
      c := c + 1;
      d := Take(Upto(text, names, c), MAX_STR_LEN);
      curr := scanner.Next(text, SLASH);
      if curr.Some? {
        var room := AppendSlash(final, d);
        if !room {
          return false, final;
        }
        d := d + "/";
      }
    }
    fits := true;
  }

  lemma AllButLast(names: seq<string>, c: nat)
    requires c < |names|
    ensures |JoinSlash(names[..c])| <= |JoinSlash(names[..|names| - 1])|
  {
    JoinGrows(names[..|names| - 1], c);
    assert names[..|names| - 1][..c] == names[..c];
  }

  /** The rebuilt path arrives whole, whatever the directory, exactly when it fits. */
  lemma ArrivesWholeIff(path: string)
    ensures !Overruns(path) && Take(Rebuilt(path), MAX_STR_LEN) == Rebuilt(path) <==> |Rebuilt(path)| <= MAX_STR_LEN
  {
    hide Words, JoinSlash;
    var names := Words(path, SLASH);
    if Overruns(path) {
      LastIsLonger(names);
    }
  }

  lemma LastIsLonger(names: seq<string>)
    requires |names| >= 2
    ensures |JoinSlash(names)| > |JoinSlash(names[..|names| - 1])|
  {
  }
}
