/** strtok() as tokenize_input() (src/io_helpers.c) and bn_cd() (src/builtins.c) use it: the words of a string, and the
    in-place scanner that hands them out as pointers into the buffer. */
module Strtok {
  import opened Text

  // ---------------------------------------------------------------- words

  /** How many bytes `s` goes on without a delimiter. */
  function RunLength(s: string, delims: set<char>): (k: nat)
    ensures k <= |s| && (forall i :: 0 <= i < k ==> s[i] !in delims)
    ensures k < |s| ==> s[k] in delims
  {
    if s == "" || s[0] in delims then 0 else 1 + RunLength(s[1..], delims)
  }

  /** The words of `s`: its maximal delimiter-free pieces, see WordsIff. */
  function Words(s: string, delims: set<char>): seq<string>
    decreases |s|
  {
    if s == "" then []
    else if s[0] in delims then Words(s[1..], delims)
    else var k := RunLength(s, delims); [s[..k]] + Words(s[k..], delims)
  }

  predicate AllIn(s: string, delims: set<char>) { forall c :: c in s ==> c in delims }

  predicate NoneIn(s: string, delims: set<char>) { forall c :: c in s ==> c !in delims }

  /** Words with delimiters around them: seps[0] words[0] seps[1] words[1] ... */
  function Spread(words: seq<string>, seps: seq<string>): string
    requires |seps| == |words| + 1
  {
    if words == [] then seps[0] else seps[0] + words[0] + Spread(words[1..], seps[1..])
  }

  /** Words are not empty and hold no delimiter; what is between them is all delimiters, and not nothing. */
  predicate Separates(words: seq<string>, seps: seq<string>, delims: set<char>) {
    && |seps| == |words| + 1
    && (forall i :: 0 <= i < |words| ==> words[i] != "" && NoneIn(words[i], delims))
    && (forall i :: 0 <= i <= |words| ==> AllIn(seps[i], delims))
    && (forall i :: 0 < i < |words| ==> seps[i] != "")
  }

  /** A word ends where a delimiter or the end of the string comes. */
  lemma {:induction false} RunThen(w: string, rest: string, delims: set<char>)
    requires NoneIn(w, delims) && (rest == "" || rest[0] in delims)
    ensures RunLength(w + rest, delims) == |w|
  {
    if w == "" {
      assert w + rest == rest;
    } else {
      assert (w + rest)[1..] == w[1..] + rest;
      RunThen(w[1..], rest, delims);
    }
  }

  lemma WordThen(w: string, rest: string, delims: set<char>)
    requires w != "" && NoneIn(w, delims) && (rest == "" || rest[0] in delims)
    ensures Words(w + rest, delims) == [w] + Words(rest, delims)
  {
    RunThen(w, rest, delims);
    assert w[0] in w && (w + rest)[..|w|] == w && (w + rest)[|w|..] == rest;
  }

  lemma {:induction false} DelimsThen(sep: string, rest: string, delims: set<char>)
    requires AllIn(sep, delims)
    ensures Words(sep + rest, delims) == Words(rest, delims)
  {
    if sep == "" {
      assert sep + rest == rest;
    } else {
      assert (sep + rest)[1..] == sep[1..] + rest;
      DelimsThen(sep[1..], rest, delims);
    }
  }

  /** What follows a word starts with a delimiter. */
  lemma SpreadStarts(words: seq<string>, seps: seq<string>, delims: set<char>)
    requires Separates(words, seps, delims) && seps[0] != ""
    ensures Spread(words, seps)[0] in delims
  {
    assert seps[0][0] in seps[0];
  }

  lemma {:induction false} WordsOfSpread(words: seq<string>, seps: seq<string>, delims: set<char>)
    requires Separates(words, seps, delims)
    ensures Words(Spread(words, seps), delims) == words
  {
    hide Words;
    if words == [] {
      DelimsThen(seps[0], "", delims);
      NoneLeft("", 0, delims);
      assert seps[0] + "" == seps[0] && ""[0..] == "";
    } else {
      var rest := Spread(words[1..], seps[1..]);
      WordsOfSpread(words[1..], seps[1..], delims);
      if words[1..] != [] {
        SpreadStarts(words[1..], seps[1..], delims);
      } else {
        assert rest == seps[1];
      }
      WordThen(words[0], rest, delims);
      DelimsThen(seps[0], words[0] + rest, delims);
      assert Spread(words, seps) == seps[0] + (words[0] + rest);
    }
  }

  /** The delimiters found between the words of `s`. */
  function Separators(s: string, delims: set<char>): seq<string>
    decreases |s|
  {
    if s == "" then [""]
    else if s[0] in delims then
      var seps := Separators(s[1..], delims);
      if seps == [] then [] else [[s[0]] + seps[0]] + seps[1..]
    else [""] + Separators(s[RunLength(s, delims)..], delims)
  }

  lemma PutWord(w: string, words: seq<string>, seps: seq<string>, delims: set<char>)
    requires Separates(words, seps, delims) && w != "" && NoneIn(w, delims) && (words == [] || seps[0] != "")
    ensures Separates([w] + words, [""] + seps, delims)
    ensures Spread([w] + words, [""] + seps) == w + Spread(words, seps)
  {
    assert ([w] + words)[1..] == words && ([""] + seps)[1..] == seps;
    assert "" + w == w;
  }

  lemma PutDelim(c: char, words: seq<string>, seps: seq<string>, delims: set<char>)
    requires Separates(words, seps, delims) && c in delims
    ensures Separates(words, [[c] + seps[0]] + seps[1..], delims)
    ensures Spread(words, [[c] + seps[0]] + seps[1..]) == [c] + Spread(words, seps)
  {
    var more := [[c] + seps[0]] + seps[1..];
    assert more[1..] == seps[1..];
    if words != [] {
      var rest := Spread(words[1..], seps[1..]);
      assert ([c] + seps[0]) + words[0] + rest == [c] + (seps[0] + words[0] + rest);
    }
  }

  lemma {:induction false} SpreadOfWords(s: string, delims: set<char>)
    ensures Separates(Words(s, delims), Separators(s, delims), delims)
    ensures Spread(Words(s, delims), Separators(s, delims)) == s
    ensures s != "" && s[0] in delims ==> Separators(s, delims)[0] != ""
    decreases |s|
  {
    hide Separates, Spread;
    if s == "" {
      NoWords(delims);
    } else if s[0] in delims {
      SpreadOfWords(s[1..], delims);
      PutDelim(s[0], Words(s[1..], delims), Separators(s[1..], delims), delims);
      SeparatesLength(Words(s[1..], delims), Separators(s[1..], delims), delims);
      assert s == [s[0]] + s[1..];
    } else {
      var k := RunLength(s, delims);
      SpreadOfWords(s[k..], delims);
      PutWord(s[..k], Words(s[k..], delims), Separators(s[k..], delims), delims);
      assert s == s[..k] + s[k..];
    }
  }

  lemma SeparatesLength(words: seq<string>, seps: seq<string>, delims: set<char>)
    requires Separates(words, seps, delims)
    ensures |seps| == |words| + 1
  {
  }

  lemma NoWords(delims: set<char>)
    ensures Separates([], [""], delims) && Spread([], [""]) == ""
  {
  }

  /** `s` is `words` with delimiters around them. */
  ghost predicate Splits(s: string, words: seq<string>, delims: set<char>) {
    exists seps :: Separates(words, seps, delims) && s == Spread(words, seps)
  }

  /** A list is the words of `s` exactly when `s` is that list with delimiters in between. */
  lemma WordsIff(s: string, words: seq<string>, delims: set<char>)
    ensures words == Words(s, delims) <==> Splits(s, words, delims)
  {
    if words == Words(s, delims) {
      SpreadOfWords(s, delims);
    }
    if Splits(s, words, delims) {
      var seps :| Separates(words, seps, delims) && s == Spread(words, seps);
      WordsOfSpread(words, seps, delims);
    }
  }

  /** A word behind a delimiter. */
  lemma {:induction false} WordsAppend(s: string, c: char, w: string, delims: set<char>)
    requires c in delims && w != "" && NoneIn(w, delims)
    ensures Words(s + [c] + w, delims) == Words(s, delims) + [w]
    decreases |s|
  {
    hide Words;
    if s == "" {
      DelimsThen([c], w + "", delims);
      WordThen(w, "", delims);
      NoneLeft("", 0, delims);
      assert s + [c] + w == [c] + (w + "") && ""[0..] == "" && [w] + [] == [] + [w];
    } else if s[0] in delims {
      WordsAppend(s[1..], c, w, delims);
      DelimsThen(s[..1], s[1..] + [c] + w, delims);
      DelimsThen(s[..1], s[1..], delims);
      assert s + [c] + w == s[..1] + (s[1..] + [c] + w) && s == s[..1] + s[1..];
    } else {
      var k := RunLength(s, delims);
      WordThen(s[..k], s[k..], delims);
      assert s == s[..k] + s[k..];
      Associative([s[..k]], Words(s[k..], delims), [w]);
      WordsAppend(s[k..], c, w, delims);
      WordThen(s[..k], s[k..] + [c] + w, delims);
      assert s + [c] + w == s[..k] + (s[k..] + [c] + w);
    }
  }

  /** `s` without its delimiters. */
  function Strip(s: string, delims: set<char>): string {
    if s == "" then "" else (if s[0] in delims then "" else [s[0]]) + Strip(s[1..], delims)
  }

  // ---------------------------------------------------------------- the scanner

  /** The library's hidden state: the buffer given first, and where the next scan starts. */
  class Scanner {
    const buf: array<char>
    var save: nat

    /** `text` is the string the scan started with. From `save` on the buffer is untouched; in front of it, delimiters
        may have become NULs. */
    ghost predicate Valid(text: string)
      reads this, buf
    {
      && save <= |text| < buf.Length && NUL !in text
      && buf[|text|] == NUL && forall k :: save <= k < |text| ==> buf[k] == text[k]
    }

    /** strtok(buf, ...) starts over. */
    constructor (buf: array<char>, ghost text: string)
      requires NUL !in text && StringAt(buf, 0, text)
      ensures Valid(text) && this.buf == buf && save == 0
    {
      this.buf := buf;
      save := 0;
    }

    /** strspn(): the first byte from `save` on that is no delimiter. */
    method SkipDelims(ghost text: string, delims: set<char>) returns (a: nat)
      requires Valid(text) && NUL !in delims
      ensures save <= a <= |text| && buf[a] !in delims
      ensures Words(text[save..], delims) == Words(text[a..], delims)
    {
      a := save;
      while buf[a] in delims
        invariant save <= a <= |text| && Words(text[save..], delims) == Words(text[a..], delims)
        decreases |text| - a
      {
        assert text[a..][1..] == text[a + 1..];
        a := a + 1;
      }
    }

    /** strcspn(): the end of the word at `a`. */
    method WordEnd(ghost text: string, delims: set<char>, a: nat) returns (b: nat)
      requires Valid(text) && save <= a < |text| && text[a] !in delims
      ensures a < b <= |text| && NoneIn(text[a..b], delims) && buf[a..b] == text[a..b]
      ensures b < |text| ==> text[b] in delims
    {
      b := a;
      while buf[b] != NUL && buf[b] !in delims
        invariant a <= b <= |text| && NoneIn(text[a..b], delims)
        decreases |text| - b
      {
        assert text[a..b + 1] == text[a..b] + [text[b]];
        b := b + 1;
      }
    }

    /** The next word, as a pointer into the buffer: the byte behind the word becomes NUL. */
    method Next(ghost text: string, delims: set<char>) returns (token: Option<nat>)
      requires Valid(text) && NUL !in delims
      modifies this`save, buf
      ensures Valid(text) && save >= old(save)
      ensures token.None? <==> Words(text[old(save)..], delims) == []
      ensures token.None? ==> buf[..] == old(buf[..])
      ensures token.Some? ==>
        var a, words := token.value, Words(text[old(save)..], delims);
        && words[0] != "" && words[1..] == Words(text[save..], delims)
        && old(save) <= a && a + |words[0]| <= save && StringAt(buf, a, words[0])
        && buf[..] == old(buf[..])[a + |words[0]| := NUL]
      ensures forall b: nat, w :: old(StringAt(buf, b, w)) && b + |w| <= old(save) ==> StringAt(buf, b, w)
    {
      hide Words;
      var a := SkipDelims(text, delims);
      if buf[a] == NUL {
        save := a;
        NoneLeft(text, a, delims);
        return None;
      }
      var b := WordEnd(text, delims, a);
      SplitOff(text, a, b, delims);
      if buf[b] == NUL {
        save := b;
      } else {
        buf[b] := NUL;
        save := b + 1;
      }
      token := Some(a);
    }
  }

  lemma NoneLeft(text: string, a: nat, delims: set<char>)
    requires a == |text|
    ensures Words(text[a..], delims) == []
  {
  }

  /** The word at `a` and what is left behind its end. */
  lemma SplitOff(text: string, a: nat, b: nat, delims: set<char>)
    requires a < b <= |text| && NoneIn(text[a..b], delims) && (b < |text| ==> text[b] in delims)
    ensures Words(text[a..], delims) == [text[a..b]] + Words(text[b..], delims)
    ensures b < |text| ==> Words(text[b..], delims) == Words(text[b + 1..], delims)
  {
    assert text[a..] == text[a..b] + text[b..];
    WordThen(text[a..b], text[b..], delims);
    if b < |text| {
      assert text[b..][1..] == text[b + 1..];
    }
  }
}
