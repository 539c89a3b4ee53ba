/** The kernel string functions that the queue parser and printer call. */
module Text {
  import opened Common

  const NUL: char := '\0'
  const U32_MAX: nat := 0xFFFF_FFFF

  /** The first place of c in s, or |s|. */
  function IndexOf(s: string, c: char): (i: nat)
    ensures i <= |s|
    ensures i < |s| ==> s[i] == c
  {
    if s == [] || s[0] == c then 0 else 1 + IndexOf(s[1..], c)
  }

  lemma {:induction false} IndexOfFirst(s: string, c: char)
    ensures forall j :: 0 <= j < IndexOf(s, c) ==> s[j] != c
    ensures c in s <==> IndexOf(s, c) < |s|
  {
    if s != [] && s[0] != c {
      IndexOfFirst(s[1..], c);
      forall j | 0 <= j < IndexOf(s, c) ensures s[j] != c { if j > 0 { assert s[j] == s[1..][j - 1]; } }
    }
  }

  lemma {:induction false} IndexOfSkip(a: string, b: string, c: char)
    requires c !in a
    ensures IndexOf(a + b, c) == |a| + IndexOf(b, c)
  {
    if a != [] {
      assert (a + b)[1..] == a[1..] + b;
      IndexOfSkip(a[1..], b, c);
    } else {
      assert a + b == b;
    }
  }

  /** strsep with one separator: the token up to it, and what follows it. */
  function Strsep(s: string, c: char): (r: (string, Option<string>)) {
    var i := IndexOf(s, c);
    (s[..i], if i < |s| then Some(s[i + 1..]) else None)
  }

  lemma StrsepAt(a: string, c: char, b: string)
    requires c !in a
    ensures Strsep(a + [c] + b, c) == (a, Some(b))
    ensures Strsep(a, c) == (a, None)
  {
    var s := a + [c] + b;
    assert s == a + ([c] + b);
    IndexOfSkip(a, [c] + b, c);
    assert s[..|a|] == a && s[|a| + 1..] == b;
    IndexOfSkip(a, [], c);
    assert a + [] == a;
  }

  /** strlcpy into a buffer of `size` bytes. */
  function Strlcpy(s: string, size: nat): (r: string)
    requires size > 0
  {
    var text := s[..IndexOf(s, NUL)];
    if |text| < size then text else text[..size - 1]
  }

  /** What is copied: the text up to its end or as much as fits. */
  lemma StrlcpyIs(s: string, size: nat)
    requires size > 0
    ensures var r := Strlcpy(s, size);
            && r <= s && |r| < size && NUL !in r
            && (|r| == |s| || |r| == size - 1 || s[|r|] == NUL)
  {
    IndexOfIs(s, NUL);
  }

  lemma {:induction false} IndexOfIs(s: string, c: char)
    ensures c !in s[..IndexOf(s, c)] && (IndexOf(s, c) < |s| ==> s[IndexOf(s, c)] == c)
  {
    if s != [] && s[0] != c {
      IndexOfIs(s[1..], c);
      assert s[..IndexOf(s, c)] == [s[0]] + s[1..][..IndexOf(s[1..], c)];
    }
  }

  predicate IsSpace(c: char) {
    c == ' ' || c == '\t' || c == '\n' || c == '\U{0B}' || c == '\U{0C}' || c == '\r' || c == '\U{A0}'
  }

  function SkipSpaces(s: string): (r: string) {
    if s != [] && IsSpace(s[0]) then SkipSpaces(s[1..]) else s
  }

  function DropSpaces(s: string): (r: string) {
    if s != [] && IsSpace(s[|s| - 1]) then DropSpaces(s[..|s| - 1]) else s
  }

  /** strim */
  function Strim(s: string): (r: string) {
    SkipSpaces(DropSpaces(s))
  }

  lemma StrimPlain(s: string)
    requires s != [] && !IsSpace(s[0]) && !IsSpace(s[|s| - 1])
    ensures Strim(s) == s && Strim([' '] + s) == s
  {
    assert ([' '] + s)[1..] == s;
    assert SkipSpaces([' '] + s) == SkipSpaces(s);
  }

  /** What is trimmed off is spaces, and no space is left at either end. */
  lemma StrimIs(s: string) returns (a: string, b: string)
    ensures s == a + Strim(s) + b
    ensures (forall i :: 0 <= i < |a| ==> IsSpace(a[i])) && (forall i :: 0 <= i < |b| ==> IsSpace(b[i]))
    ensures Strim(s) != [] ==> !IsSpace(Strim(s)[0]) && !IsSpace(Strim(s)[|Strim(s)| - 1])
  {
    b := DropIs(s);
    a := SkipIs(DropSpaces(s));
  }

  lemma {:induction false} DropIs(s: string) returns (b: string)
    ensures s == DropSpaces(s) + b && forall i :: 0 <= i < |b| ==> IsSpace(b[i])
    ensures DropSpaces(s) != [] ==> !IsSpace(DropSpaces(s)[|DropSpaces(s)| - 1])
  {
    b := [];
    if s != [] && IsSpace(s[|s| - 1]) {
      b := DropIs(s[..|s| - 1]);
      b := b + [s[|s| - 1]];
    }
  }

  lemma {:induction false} SkipIs(s: string) returns (a: string)
    ensures s == a + SkipSpaces(s) && forall i :: 0 <= i < |a| ==> IsSpace(a[i])
    ensures SkipSpaces(s) != [] ==> !IsSpace(SkipSpaces(s)[0]) && SkipSpaces(s)[|SkipSpaces(s)| - 1] == s[|s| - 1]
  {
    a := [];
    if s != [] && IsSpace(s[0]) {
      a := SkipIs(s[1..]);
      a := [s[0]] + a;
    }
  }

  predicate IsDigit(c: char) {
    '0' <= c <= '9'
  }

  predicate AllDigits(s: string) {
    forall i :: 0 <= i < |s| ==> IsDigit(s[i])
  }

  function DigitOf(d: nat): (c: char)
    requires d < 10
    ensures IsDigit(c) && c as int - '0' as int == d
  {
    ('0' as int + d) as char
  }

  /** "%d" of a number that is not negative. */
  function Dec(n: nat): (s: string)
    ensures s != []
  {
    if n < 10 then [DigitOf(n)] else Dec(n / 10) + [DigitOf(n % 10)]
  }

  /** The number that digits spell. */
  function Value(s: string): (n: nat)
    requires AllDigits(s)
  {
    if s == [] then 0 else Value(s[..|s| - 1]) * 10 + (s[|s| - 1] as int - '0' as int)
  }

  function LeadingDigits(s: string): (k: nat)
    ensures k <= |s| && (k < |s| ==> !IsDigit(s[k]))
    ensures forall i :: 0 <= i < k ==> IsDigit(s[i])
  {
    if s == [] || !IsDigit(s[0]) then 0 else 1 + LeadingDigits(s[1..])
  }

  /** kstrtou32 in base 10: an optional plus sign, digits, an optional newline. */
  function Kstrtou32(s: string): (r: Option<nat>) {
    var t := if s != [] && s[0] == '+' then s[1..] else s;
    var k := LeadingDigits(t);
    var rest := t[k..];
    if k == 0 || (rest != [] && rest != ['\n']) || Value(t[..k]) > U32_MAX then None
    else Some(Value(t[..k]))
  }

  /** A number is read from digits, with a plus sign before them or not and a newline
      after them or not. */
  lemma KstrtouReads(sign: string, d: string, nl: string)
    requires (sign == "" || sign == "+") && d != [] && AllDigits(d) && (nl == "" || nl == "\n")
    ensures Kstrtou32(sign + d + nl) == if Value(d) <= 0xFFFF_FFFF then Some(Value(d)) else None
  {
    var s, t := sign + d + nl, d + nl;
    assert sign == "" ==> s == t;
    assert sign == "+" ==> s[0] == '+' && s[1..] == t;
    assert IsDigit(d[0]) && t[0] == d[0];
    LeadingOf(d, nl);
    assert t[..|d|] == d && t[|d|..] == nl;
  }

  lemma {:induction false} LeadingOf(d: string, nl: string)
    requires AllDigits(d) && (nl == "" || nl == "\n")
    ensures LeadingDigits(d + nl) == |d|
  {
    if d != [] {
      assert (d + nl)[1..] == d[1..] + nl;
      LeadingOf(d[1..], nl);
    } else {
      assert d + nl == nl;
    }
  }

  /** Nothing else is read as a number. */
  lemma KstrtouMeans(s: string) returns (sign: string, d: string, nl: string)
    requires Kstrtou32(s).Some?
    ensures s == sign + d + nl && (sign == "" || sign == "+") && d != [] && AllDigits(d) && (nl == "" || nl == "\n")
    ensures Kstrtou32(s).value == Value(d) <= 0xFFFF_FFFF
  {
    var t;
    if s != [] && s[0] == '+' { sign, t := "+", s[1..]; } else { sign, t := "", s; }
    var k := LeadingDigits(t);
    d, nl := t[..k], t[k..];
    assert s == sign + t && t == d + nl;
  }

  /** The value of digits, the last one least. */
  lemma ValueSnoc(d: string, c: char)
    requires AllDigits(d) && IsDigit(c)
    ensures Value([]) == 0 && Value(d + [c]) == 10 * Value(d) + (c as int - '0' as int)
  {
    assert (d + [c])[..|d|] == d;
  }

  lemma {:induction false} DecDigits(n: nat)
    ensures AllDigits(Dec(n)) && Value(Dec(n)) == n
  {
    if n >= 10 {
      DecDigits(n / 10);
      assert Dec(n)[..|Dec(n)| - 1] == Dec(n / 10);
    }
  }

  lemma {:induction false} LeadingAll(s: string)
    requires AllDigits(s)
    ensures LeadingDigits(s) == |s|
  {
    if s != [] { LeadingAll(s[1..]); }
  }

  /** Reading a printed number gives it back. */
  lemma DecParses(n: nat)
    requires n <= U32_MAX
    ensures Kstrtou32(Dec(n)) == Some(n)
  {
    DecDigits(n);
    LeadingAll(Dec(n));
    assert IsDigit(Dec(n)[0]);
    assert Dec(n)[..|Dec(n)|] == Dec(n);
  }

  lemma {:induction false} DecLength(n: nat, k: nat, bound: nat)
    requires n < bound && bound == Ten(k) && k > 0
    ensures |Dec(n)| <= k
    decreases k
  {
    if n >= 10 { DecLength(n / 10, k - 1, Ten(k - 1)); }
  }

  function Ten(k: nat): (n: nat)
    ensures n > 0
  {
    if k == 0 then 1 else 10 * Ten(k - 1)
  }
}
