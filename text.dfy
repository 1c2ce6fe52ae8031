/** String primitives the handlers use, written the way Python's `str` methods
    behave on the inputs that matter here. Strings are sequences of Unicode
    code points, as Python's `str` is. */
module Text {

  /** Python's `str.isspace()`, which is also what `\s` matches in a `str`
      regular expression: tab, line feed, vertical tab, form feed, carriage
      return, the separators U+001C to U+001F, the space, and the Unicode
      spaces and line and paragraph separators. */
  predicate IsSpace(c: char)
    ensures c == ' ' || c == '\t' || c == '\n' || c == '\r' ==> IsSpace(c)
    ensures IsSpace(c) ==> c != '/' && !('0' <= c <= '9') && !('a' <= c <= 'z') && !('A' <= c <= 'Z')
  {
    var n := c as int;
    (9 <= n <= 13) || (0x1C <= n <= 0x20) || n == 0x85 || n == 0xA0 || n == 0x1680
    || (0x2000 <= n <= 0x200A) || n == 0x2028 || n == 0x2029 || n == 0x202F || n == 0x205F
    || n == 0x3000
  }

  /** Lower-casing of one character, restricted to the ASCII letters. */
  function LowerChar(c: char): (r: char)
    ensures 'A' <= c <= 'Z' ==> r as int == c as int + 32 && 'a' <= r <= 'z'
    ensures !('A' <= c <= 'Z') ==> r == c
  {
    if 'A' <= c <= 'Z' then (c as int + 32) as char else c
  }

  /** `s.lower()`, restricted to the ASCII letters (see README). */
  function Lower(s: string): (r: string)
    ensures |r| == |s|
    ensures forall i :: 0 <= i < |s| ==> r[i] == LowerChar(s[i])
  {
    seq(|s|, i requires 0 <= i < |s| => LowerChar(s[i]))
  }

  /** `s.startswith(p)`. */
  predicate StartsWith(s: string, p: string)
    ensures StartsWith(s, p) && |p| > 0 ==> |s| > 0 && s[0] == p[0]
  {
    |p| <= |s| && s[..|p|] == p
  }

  /** A text starts with `p` exactly when it agrees with `p` at every
      position of `p`. */
  lemma StartsWithPointwise(s: string, p: string)
    ensures StartsWith(s, p) <==> |p| <= |s| && forall i :: 0 <= i < |p| ==> s[i] == p[i]
  {
    if |p| <= |s| && forall i :: 0 <= i < |p| ==> s[i] == p[i] {
      assert s[..|p|] == p;
    }
  }

  /** `p in s`: some position of `s` starts an occurrence of `p`. */
  predicate Contains(s: string, p: string)
    decreases |s|
  {
    StartsWith(s, p) || (|s| > 0 && Contains(s[1..], p))
  }

  /** A text that differs from `p` at some position inside `p` does not
      start with `p`. */
  lemma MismatchAt(s: string, p: string, i: nat)
    requires i < |p| && i < |s| && s[i] != p[i]
    ensures !StartsWith(s, p)
  {
  }

  /** One step of `Contains` past a position where the pattern does not
      start. */
  lemma ContainsStep(s: string, p: string)
    requires |s| > 0 && !StartsWith(s, p)
    ensures Contains(s, p) == Contains(s[1..], p)
  {
  }

  /** Every character of `s` is whitespace. */
  predicate AllSpace(s: string) {
    forall i :: 0 <= i < |s| ==> IsSpace(s[i])
  }

  /** The number of whitespace characters at the front of `s`. */
  function LeadingSpace(s: string): (n: nat)
    ensures n <= |s|
    ensures forall k :: 0 <= k < n ==> IsSpace(s[k])
    ensures n == |s| || !IsSpace(s[n])
    decreases |s|
  {
    if |s| > 0 && IsSpace(s[0]) then 1 + LeadingSpace(s[1..]) else 0
  }

  /** The number of whitespace characters at the end of `s`. */
  function TrailingSpace(s: string): (n: nat)
    ensures n <= |s|
    ensures forall k :: |s| - n <= k < |s| ==> IsSpace(s[k])
    ensures n == |s| || !IsSpace(s[|s| - n - 1])
    decreases |s|
  {
    if |s| > 0 && IsSpace(s[|s| - 1]) then 1 + TrailingSpace(s[..|s| - 1]) else 0
  }

  /** `s.lstrip()`. */
  function TrimStart(s: string): (r: string)
    ensures |r| <= |s|
    ensures r == [] || !IsSpace(r[0])
  {
    s[LeadingSpace(s)..]
  }

  /** `s.strip()`: what it leaves neither starts nor ends with whitespace. */
  function Strip(s: string): (r: string)
    ensures |r| <= |s|
    ensures r == [] || (!IsSpace(r[0]) && !IsSpace(r[|r| - 1]))
  {
    var t := TrimStart(s);
    t[..|t| - TrailingSpace(t)]
  }

  /** `Strip(s)` is the slice of `s` that starts after the leading
      whitespace. */
  lemma StripSlice(s: string)
    ensures var i, r := LeadingSpace(s), Strip(s);
      i + |r| <= |s| && r == s[i..i + |r|]
  {
  }

  /** What `strip` cuts off on either side is whitespace only. */
  lemma StripCutsOnlySpace(s: string)
    ensures var i, r := LeadingSpace(s), Strip(s);
      (forall k :: 0 <= k < i ==> IsSpace(s[k]))
      && (forall k :: i + |r| <= k < |s| ==> IsSpace(s[k]))
  {
    var i := LeadingSpace(s);
    var t := s[i..];
    var r := Strip(s);
    forall k | i + |r| <= k < |s|
      ensures IsSpace(s[k])
    {
      assert s[k] == t[k - i];
    }
  }

  /** Stripping a string that has no whitespace at either end changes nothing. */
  lemma StripUnchanged(s: string)
    requires s == [] || (!IsSpace(s[0]) && !IsSpace(s[|s| - 1]))
    ensures Strip(s) == s
  {
    assert s[0..] == s;
  }

  /** `strip` is idempotent. */
  lemma StripIdempotent(s: string)
    ensures Strip(Strip(s)) == Strip(s)
  {
    StripUnchanged(Strip(s));
  }

  /** The whitespace in front of a text that starts with something else is
      exactly its leading whitespace. */
  lemma {:induction false} LeadingSpaceOf(w: string, u: string)
    requires AllSpace(w)
    requires u == [] || !IsSpace(u[0])
    ensures LeadingSpace(w + u) == |w|
    decreases |w|
  {
    if w == [] {
      assert w + u == u;
    } else {
      assert (w + u)[1..] == w[1..] + u;
      LeadingSpaceOf(w[1..], u);
    }
  }

  /** The whitespace after a text that ends with something else is exactly
      its trailing whitespace. */
  lemma {:induction false} TrailingSpaceOf(u: string, w: string)
    requires AllSpace(w)
    requires u == [] || !IsSpace(u[|u| - 1])
    ensures TrailingSpace(u + w) == |w|
    decreases |w|
  {
    if w == [] {
      assert u + w == u;
    } else {
      assert (u + w)[..|u + w| - 1] == u + w[..|w| - 1];
      TrailingSpaceOf(u, w[..|w| - 1]);
    }
  }

  /** Stripping a text that has no whitespace at either end, surrounded by
      whitespace, gives that text back. */
  lemma StripAround(w1: string, u: string, w2: string)
    requires AllSpace(w1) && AllSpace(w2)
    requires u != [] && !IsSpace(u[0]) && !IsSpace(u[|u| - 1])
    ensures Strip(w1 + u + w2) == u
  {
    assert w1 + u + w2 == w1 + (u + w2);
    LeadingSpaceOf(w1, u + w2);
    assert TrimStart(w1 + u + w2) == u + w2;
    TrailingSpaceOf(u, w2);
    assert (u + w2)[..|u|] == u;
  }

  /** A text made of whitespace only strips to nothing. */
  lemma StripAllSpace(w: string)
    requires AllSpace(w)
    ensures Strip(w) == []
  {
    assert w + [] == w;
    LeadingSpaceOf(w, []);
  }

  /** `s.replace(pat, rep)`: every occurrence of `pat`, found left to right
      without overlapping, is replaced by `rep`. The pattern is never empty
      here (Python gives the empty pattern a different meaning). */
  function ReplaceAll(s: string, pat: string, rep: string): (r: string)
    requires |pat| > 0
    ensures |rep| == |pat| ==> |r| == |s|
    ensures |rep| <= |pat| ==> |r| <= |s|
    decreases |s|
  {
    if |s| == 0 then []
    else if StartsWith(s, pat) then rep + ReplaceAll(s[|pat|..], pat, rep)
    else [s[0]] + ReplaceAll(s[1..], pat, rep)
  }

  /** Where the pattern does not occur, replacing it changes nothing. */
  lemma {:induction false} ReplaceAllAbsent(s: string, pat: string, rep: string)
    requires |pat| > 0
    requires !Contains(s, pat)
    ensures ReplaceAll(s, pat, rep) == s
    decreases |s|
  {
    if |s| > 0 {
      ReplaceAllAbsent(s[1..], pat, rep);
      assert [s[0]] + s[1..] == s;
    }
  }

  /** Where the pattern occurs and is replaced by something shorter, the
      result is strictly shorter: together with ReplaceAllAbsent, a removal
      changes the string exactly when the pattern occurs in it. */
  lemma {:induction false} ReplaceAllPresent(s: string, pat: string, rep: string)
    requires |pat| > 0 && |rep| < |pat|
    requires Contains(s, pat)
    ensures |ReplaceAll(s, pat, rep)| < |s|
    decreases |s|
  {
    if !StartsWith(s, pat) {
      ReplaceAllPresent(s[1..], pat, rep);
    }
  }

  /** The first occurrence of the pattern, found left to right at `i`, is
      replaced; the characters before it are kept and the scan resumes
      behind it. With ReplaceAllAbsent for the text after the last
      occurrence, this determines the whole result. */
  lemma {:induction false} ReplaceAllFirst(s: string, pat: string, rep: string, i: nat)
    requires |pat| > 0
    requires i + |pat| <= |s| && s[i..i + |pat|] == pat
    requires forall j :: 0 <= j < i ==> !StartsWith(s[j..], pat)
    ensures ReplaceAll(s, pat, rep) == s[..i] + rep + ReplaceAll(s[i + |pat|..], pat, rep)
    decreases i
  {
    if i == 0 {
      ReplaceAllAtStart(s, pat, rep);
    } else {
      var t := s[1..];
      ReplaceAllKeepsHead(s, pat, rep);
      NoEarlierOccurrence(s, pat, i);
      ReplaceAllFirst(t, pat, rep, i - 1);
      HeadAndRest(s, i, rep, ReplaceAll(s[i + |pat|..], pat, rep));
      assert t[i - 1 + |pat|..] == s[i + |pat|..];
    }
  }

  /** An occurrence at the front is replaced and the scan resumes behind it. */
  lemma ReplaceAllAtStart(s: string, pat: string, rep: string)
    requires |pat| > 0 && |pat| <= |s| && s[0..|pat|] == pat
    ensures ReplaceAll(s, pat, rep) == s[..0] + rep + ReplaceAll(s[|pat|..], pat, rep)
  {
    assert s[..|pat|] == s[0..|pat|];
    assert s[..0] == [];
  }

  /** Regrouping a kept first character with the rest of a prefix. */
  lemma HeadAndRest(s: string, i: nat, rep: string, tail: string)
    requires 0 < i <= |s|
    ensures [s[0]] + (s[1..][..i - 1] + rep + tail) == s[..i] + rep + tail
  {
    assert s[..i] == [s[0]] + s[1..][..i - 1];
  }

  /** Where the pattern does not start, the first character is kept. */
  lemma ReplaceAllKeepsHead(s: string, pat: string, rep: string)
    requires |pat| > 0 && |s| > 0
    requires !StartsWith(s[0..], pat)
    ensures ReplaceAll(s, pat, rep) == [s[0]] + ReplaceAll(s[1..], pat, rep)
  {
    assert s[0..] == s;
  }

  /** Dropping the first character moves the first occurrence one place to
      the front. */
  lemma NoEarlierOccurrence(s: string, pat: string, i: nat)
    requires 0 < i && i + |pat| <= |s| && s[i..i + |pat|] == pat
    requires forall j :: 0 <= j < i ==> !StartsWith(s[j..], pat)
    ensures s[1..][i - 1..i - 1 + |pat|] == pat
    ensures forall j :: 0 <= j < i - 1 ==> !StartsWith(s[1..][j..], pat)
  {
    var t := s[1..];
    forall j | 0 <= j < i - 1
      ensures !StartsWith(t[j..], pat)
    {
      assert t[j..] == s[j + 1..];
    }
  }

  /** The decimal digit for `d`. */
  function DigitChar(d: nat): (c: char)
    requires d < 10
    ensures '0' <= c <= '9'
  {
    ('0' as int + d) as char
  }

  /** The value of a decimal digit character. */
  function DigitValue(c: char): (d: nat)
    requires '0' <= c <= '9'
    ensures d < 10
  {
    c as int - '0' as int
  }

  /** Python's `str(n)` for a natural number: its decimal digits, most
      significant first, without leading zeros. */
  function Digits(n: nat): (r: string)
    ensures |r| > 0
    ensures forall i :: 0 <= i < |r| ==> '0' <= r[i] <= '9'
    ensures |r| > 1 ==> r[0] != '0'
    decreases n
  {
    if n < 10 then [DigitChar(n)] else Digits(n / 10) + [DigitChar(n % 10)]
  }

  /** Reads a string of decimal digits back as a number. */
  function ParseDigits(s: string): (n: nat)
    requires forall i :: 0 <= i < |s| ==> '0' <= s[i] <= '9'
    decreases |s|
  {
    if s == [] then 0 else ParseDigits(s[..|s| - 1]) * 10 + DigitValue(s[|s| - 1])
  }

  /** Reading the digits of `n` gives back `n`. */
  lemma {:induction false} DigitsRoundTrip(n: nat)
    ensures ParseDigits(Digits(n)) == n
    decreases n
  {
    var s := Digits(n);
    if n >= 10 {
      DigitsRoundTrip(n / 10);
      assert s[..|s| - 1] == Digits(n / 10);
    }
  }

  /** A text framed by the same prefix and suffix determines what lies
      between them. */
  lemma SameFrame(p: string, a: string, b: string, q: string)
    requires p + a + q == p + b + q
    ensures a == b
  {
    assert |a| == |b|;
    assert a == (p + a + q)[|p|..|p| + |a|];
    assert b == (p + b + q)[|p|..|p| + |b|];
  }

  /** Python's `str(n)` (as used by an f-string) for any integer. */
  function Decimal(n: int): (r: string)
    ensures |r| > 0
    ensures n < 0 <==> r[0] == '-'
  {
    if n < 0 then "-" + Digits(-n) else Digits(n)
  }

  /** Different natural numbers have different digit strings. */
  lemma DigitsInjective(m: nat, n: nat)
    requires Digits(m) == Digits(n)
    ensures m == n
  {
    DigitsRoundTrip(m);
    DigitsRoundTrip(n);
  }

  /** The decimal text of an integer determines the integer. */
  lemma DecimalInjective(m: int, n: int)
    requires Decimal(m) == Decimal(n)
    ensures m == n
  {
    if m < 0 && n < 0 {
      assert Digits(-m) == Decimal(m)[1..];
      assert Digits(-n) == Decimal(n)[1..];
      DigitsInjective(-m, -n);
    } else if m >= 0 && n >= 0 {
      DigitsInjective(m, n);
    }
  }
}
