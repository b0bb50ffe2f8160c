/** Byte strings as C sees them. A `char` stands for one byte. */
module Text {

  const NUL: char := 0 as char

  /** The shell's limit on lines and expanded tokens (src/io_helpers.h). */
  const MAX_STR_LEN := 128

  datatype Option<T> = None | Some(value: T)

  function Min(a: int, b: int): int { if a < b then a else b }

  /** The first `n` bytes of `s`, or all of it: what strncat(dst, s, n) appends. */
  function Take(s: string, n: nat): string { s[..Min(|s|, n)] }

  /** The bytes of `s` before its first NUL. */
  function CStr(s: string): string {
    if s == "" || s[0] == NUL then "" else [s[0]] + CStr(s[1..])
  }

  /** The concatenation of all strings of `ss`. */
  function Concat(ss: seq<string>): string {
    if ss == [] then "" else ss[0] + Concat(ss[1..])
  }

  lemma {:induction false} CStrNulFree(s: string)
    ensures NUL !in CStr(s)
  {
    if s != "" && s[0] != NUL {
      CStrNulFree(s[1..]);
    }
  }

  /** What strlen() and strcpy() see: everything before the first NUL, and only that. */
  lemma {:induction false} CStrIff(s: string, c: string)
    ensures c == CStr(s) <==> c <= s && NUL !in c && (c == s || s[|c|] == NUL)
  {
    if s != "" && s[0] != NUL {
      if c != "" {
        CStrIff(s[1..], c[1..]);
        assert c[0] == s[0] ==> c == [s[0]] + c[1..];
        assert forall x :: x in c <==> x == c[0] || x in c[1..];
      }
    } else if c != "" && c <= s {
      assert c[0] in c;
    }
  }

  /** strncat() appends a prefix: `n` bytes, or the whole string if it is shorter. */
  lemma TakeIs(s: string, n: nat)
    ensures Take(s, n) <= s && |Take(s, n)| <= n
    ensures |Take(s, n)| < n ==> Take(s, n) == s
  {
  }

  lemma {:induction false} CStrOfNulFree(s: string)
    requires NUL !in s
    ensures CStr(s) == s
  {
    if s != "" {
      CStrOfNulFree(s[1..]);
    }
  }

  lemma {:induction false} ConcatAppend(a: seq<string>, b: seq<string>)
    ensures Concat(a + b) == Concat(a) + Concat(b)
  {
    if a == [] {
      assert a + b == b;
    } else {
      assert (a + b)[1..] == a[1..] + b;
      ConcatAppend(a[1..], b);
    }
  }

  /** The C string at `a` is `w`. */
  ghost predicate StringAt(buf: array<char>, a: nat, w: string)
    reads buf
  {
    a + |w| < buf.Length && buf[a + |w|] == NUL && forall k :: 0 <= k < |w| ==> buf[a + k] == w[k]
  }

  /** The NUL is where the string ends and nowhere before. */
  lemma EndOfString(buf: array<char>, a: nat, w: string, i: nat)
    requires NUL !in w && StringAt(buf, a, w) && i <= |w|
    ensures buf[a + i] == NUL <==> i == |w|
    ensures i < |w| ==> buf[a + i] == w[i]
  {
    if i < |w| {
      assert buf[a + i] == w[i] && w[i] in w;
    }
  }

  /** The string at `a`, as strlen(), strcmp() and strcat() read it. */
  method ReadString(buf: array<char>, a: nat, ghost w: string) returns (s: string)
    requires NUL !in w && StringAt(buf, a, w)
    ensures s == w
  {
    s := "";
    EndOfString(buf, a, w, 0);
    while buf[a + |s|] != NUL
      invariant |s| <= |w| && s == w[..|s|]
      invariant buf[a + |s|] == NUL <==> |s| == |w|
      decreases |w| - |s|
    {
      EndOfString(buf, a, w, |s|);
      EndOfString(buf, a, w, |s| + 1);
      s := s + [buf[a + |s|]];
    }
  }

  lemma Associative<T>(a: seq<T>, b: seq<T>, c: seq<T>)
    ensures (a + b) + c == a + (b + c)
  {
  }

  function DigitOf(d: nat): char
    requires d < 10
  {
    "0123456789"[d]
  }

  /** printf's %d. */
  function Decimal(n: int): string
    decreases n < 0, if n < 0 then -n else n
  {
    if n < 0 then "-" + Decimal(-n)
    else if n < 10 then [DigitOf(n)]
    else Decimal(n / 10) + [DigitOf(n % 10)]
  }

  predicate IsDigits(s: string) {
    |s| > 0 && forall c :: c in s ==> '0' <= c <= '9'
  }

  lemma {:induction false} DecimalDigits(n: nat)
    ensures IsDigits(Decimal(n))
    decreases n
  {
    if n >= 10 {
      DecimalDigits(n / 10);
    }
  }

  /** The number a string of digits denotes, read from the left. */
  function NumberOf(s: string): int {
    if s == "" then 0 else 10 * NumberOf(s[..|s| - 1]) + (s[|s| - 1] as int - '0' as int)
  }

  /** The digit of `d`, and the number a digit stands for. */
  lemma DigitIs(c: char)
    requires '0' <= c <= '9'
    ensures 0 <= c as int - '0' as int < 10 && DigitOf(c as int - '0' as int) == c
  {
  }

  lemma DigitOfIs(d: nat)
    requires d < 10
    ensures '0' <= DigitOf(d) <= '9' && DigitOf(d) as int - '0' as int == d && (d > 0 ==> DigitOf(d) != '0')
  {
  }

  lemma NumberAppend(s: string, c: char)
    ensures NumberOf(s + [c]) == 10 * NumberOf(s) + (c as int - '0' as int)
  {
    assert (s + [c])[..|s|] == s;
  }

  lemma DecimalCases(n: nat)
    ensures n < 10 ==> Decimal(n) == [DigitOf(n)]
    ensures n >= 10 ==> Decimal(n) == Decimal(n / 10) + [DigitOf(n % 10)]
  {
  }

  lemma {:induction false} DecimalDenotes(n: nat)
    ensures NumberOf(Decimal(n)) == n && Decimal(n) != "" && (n > 0 ==> Decimal(n)[0] != '0')
    ensures n < 10 ==> |Decimal(n)| == 1
    decreases n
  {
    hide Decimal, NumberOf, DigitOf;
    DecimalCases(n);
    var last := if n < 10 then n else n % 10;
    DigitOfIs(last);
    if n >= 10 {
      DecimalDenotes(n / 10);
      NumberAppend(Decimal(n / 10), DigitOf(last));
    } else {
      NumberAppend("", DigitOf(last));
      assert "" + [DigitOf(n)] == [DigitOf(n)] && NumberOf("") == 0 by { NumberOfNothing(); }
    }
  }

  lemma NumberOfNothing()
    ensures NumberOf("") == 0
  {
  }

  lemma {:induction false} DigitsDenote(s: string)
    requires IsDigits(s) && (|s| > 1 ==> s[0] != '0')
    ensures NumberOf(s) >= 0 && Decimal(NumberOf(s)) == s && (s[0] != '0' ==> NumberOf(s) > 0)
    decreases |s|
  {
    hide Decimal, NumberOf, DigitOf;
    var front, c := s[..|s| - 1], s[|s| - 1];
    assert s == front + [c] && c in s;
    DigitIs(c);
    DigitOfIs(c as int - '0' as int);
    NumberAppend(front, c);
    if front == "" {
      NumberOfNothing();
    } else {
      assert forall x :: x in front ==> x in s;
      assert front[0] == s[0];
      DigitsDenote(front);
    }
    DecimalCases(NumberOf(s));
  }

  /** What is printed for a number is the one numeral that denotes it and has no superfluous zero in front; behind a
      '-' if the number is negative. */
  lemma DecimalIff(n: int, s: string)
    ensures n >= 0 ==> (s == Decimal(n) <==> IsDigits(s) && (|s| > 1 ==> s[0] != '0') && NumberOf(s) == n)
    ensures n < 0 ==> Decimal(n) == "-" + Decimal(-n)
  {
    if n >= 0 {
      DecimalDigits(n);
      DecimalDenotes(n);
      if IsDigits(s) && (|s| > 1 ==> s[0] != '0') && NumberOf(s) == n {
        DigitsDenote(s);
      }
    }
  }

  /** Two different numbers never print alike. */
  lemma DecimalInjective(a: nat, b: nat)
    requires Decimal(a) == Decimal(b)
    ensures a == b
  {
    DecimalDenotes(a);
    DecimalDenotes(b);
  }

  /** A number below 10^k prints in at most k digits. */
  lemma {:induction false} DecimalLength(n: nat, k: nat)
    requires k >= 1 && n < Pow10(k)
    ensures |Decimal(n)| <= k
    decreases k
  {
    if n >= 10 {
      DecimalLength(n / 10, k - 1);
    }
  }

  function Pow10(k: nat): nat { if k == 0 then 1 else 10 * Pow10(k - 1) }

  /** The largest C int. */
  const INT_MAX := 0x7fff_ffff

  lemma DecimalFits(n: nat)
    requires n <= INT_MAX
    ensures |Decimal(n)| <= 10
  {
    assert Pow10(10) == 10_000_000_000 by {
      assert Pow10(4) == 10_000;
      assert Pow10(7) == 10_000_000;
    }
    DecimalLength(n, 10);
  }
}
