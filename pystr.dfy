/** The Python string operations the exporter relies on: `strip`, `in`,
    `split(sep, maxsplit=1)`, `split(sep)[0]`, `split(sep)[-1]`,
    `startswith`, `isdigit` and `int`. */
module PyStr {
  import opened Base

  /** The characters `str.isspace()` accepts; `str.strip()` with no argument removes these. */
  const Whitespace: set<char> := {
    ' ', '\t', '\n', '\r', '\U{B}', '\U{C}', '\U{1C}', '\U{1D}', '\U{1E}', '\U{1F}',
    '\U{85}', '\U{A0}', '\U{1680}', '\U{2000}', '\U{2001}', '\U{2002}', '\U{2003}',
    '\U{2004}', '\U{2005}', '\U{2006}', '\U{2007}', '\U{2008}', '\U{2009}', '\U{200A}',
    '\U{2028}', '\U{2029}', '\U{202F}', '\U{205F}', '\U{3000}'
  }

  predicate AllIn(s: string, cs: set<char>) {
    forall i :: 0 <= i < |s| ==> s[i] in cs
  }

  /** `s.lstrip(chars)`: drops the longest prefix made of characters in `cs`. */
  function LStrip(s: string, cs: set<char>): (r: string)
    ensures |r| <= |s| && r == s[|s| - |r|..]
    ensures AllIn(s[..|s| - |r|], cs)
    ensures r != [] ==> r[0] !in cs
  {
    if s != [] && s[0] in cs then
      var r := LStrip(s[1..], cs);
      assert s[..|s| - |r|] == [s[0]] + s[1..][..|s| - 1 - |r|];
      r
    else
      s
  }

  /** `s.rstrip(chars)`: drops the longest suffix made of characters in `cs`. */
  function RStrip(s: string, cs: set<char>): (r: string)
    ensures |r| <= |s| && r == s[..|r|]
    ensures AllIn(s[|r|..], cs)
    ensures r != [] ==> r[|r| - 1] !in cs
  {
    if s != [] && s[|s| - 1] in cs then
      var r := RStrip(s[..|s| - 1], cs);
      assert s[|r|..] == s[..|s| - 1][|r|..] + [s[|s| - 1]];
      r
    else
      s
  }

  /** `s.strip(chars)`: drops characters in `cs` from both ends. */
  function Strip(s: string, cs: set<char>): (r: string)
    ensures |r| <= |s|
    ensures r != [] ==> r[0] !in cs && r[|r| - 1] !in cs
  {
    RStrip(LStrip(s, cs), cs)
  }

  /** What strip leaves is a slice of the text, and everything cut off either end is
      made of characters of `cs`. */
  lemma StripIsSlice(s: string, cs: set<char>)
    ensures exists i, j | 0 <= i <= j <= |s| ::
      Strip(s, cs) == s[i..j] && AllIn(s[..i], cs) && AllIn(s[j..], cs)
  {
    var l := LStrip(s, cs);
    var r := RStrip(l, cs);
    var i, j := |s| - |l|, |s| - |l| + |r|;
    assert r == s[i..j] && AllIn(s[..i], cs) by {
      assert l == s[i..];
      assert r == l[..|r|];
    }
    assert AllIn(s[j..], cs) by {
      assert s[j..] == l[|r|..];
    }
  }

  lemma {:induction false} LStripExact(a: string, b: string, cs: set<char>)
    requires AllIn(a, cs)
    requires b != [] ==> b[0] !in cs
    ensures LStrip(a + b, cs) == b
    decreases |a|
  {
    if a == [] {
      assert a + b == b;
    } else {
      assert (a + b)[1..] == a[1..] + b;
      LStripExact(a[1..], b, cs);
    }
  }

  lemma {:induction false} RStripExact(b: string, c: string, cs: set<char>)
    requires AllIn(c, cs)
    requires b != [] ==> b[|b| - 1] !in cs
    ensures RStrip(b + c, cs) == b
    decreases |c|
  {
    if c == [] {
      assert b + c == b;
    } else {
      assert (b + c)[..|b + c| - 1] == b + c[..|c| - 1];
      RStripExact(b, c[..|c| - 1], cs);
    }
  }

  /** Strip removes exactly the characters of `cs` around the core `b` and nothing else:
      this pins down its result for every input. */
  lemma StripExact(a: string, b: string, c: string, cs: set<char>)
    requires AllIn(a, cs) && AllIn(c, cs)
    requires b != [] ==> b[0] !in cs && b[|b| - 1] !in cs
    ensures Strip(a + b + c, cs) == b
  {
    if b == [] {
      assert a + b + c == a + c;
      assert AllIn(a + c, cs);
      assert (a + c) + [] == a + c;
      RStripExact([], a + c, cs);
      assert RStrip(a + c, cs) == [];
      LStripExact(a + c, [], cs);
    } else {
      assert a + b + c == a + (b + c);
      LStripExact(a, b + c, cs);
      RStripExact(b, c, cs);
    }
  }

  /** Neither end of `s` is a character of `cs`. */
  predicate Trimmed(s: string, cs: set<char>) {
    s != [] ==> s[0] !in cs && s[|s| - 1] !in cs
  }

  /** A text with neither end in `cs` is left as it is. */
  lemma StripUnpaddedBy(s: string, cs: set<char>)
    requires Trimmed(s, cs)
    ensures Strip(s, cs) == s
  {
    assert LStrip(s, cs) == s;
  }

  /** Stripping `b + c` where `c` is made of stripped characters leaves `b`. */
  lemma StripTrailing(b: string, c: string, cs: set<char>)
    requires Trimmed(b, cs) && AllIn(c, cs)
    ensures Strip(b + c, cs) == b
  {
    assert b + c == [] + b + c;
    StripExact([], b, c, cs);
  }

  /** Stripping `a + b` where `a` is made of stripped characters leaves `b`. */
  lemma StripLeading(a: string, b: string, cs: set<char>)
    requires AllIn(a, cs) && Trimmed(b, cs)
    ensures Strip(a + b, cs) == b
  {
    assert a + b == a + b + [];
    StripExact(a, b, [], cs);
  }

  /** Stripping twice is stripping once. */
  lemma StripIdempotent(s: string, cs: set<char>)
    ensures Strip(Strip(s, cs), cs) == Strip(s, cs)
  {
    StripUnpaddedBy(Strip(s, cs), cs);
  }

  /** `sub` occurs in `s` starting at index `i`. */
  predicate OccursAt(s: string, sub: string, i: nat) {
    i + |sub| <= |s| && s[i..i + |sub|] == sub
  }

  /** `s.find(sub)` as an option: the first index at which `sub` occurs. */
  function IndexOf(s: string, sub: string): (r: Option<nat>)
    ensures r.Some? ==> OccursAt(s, sub, r.value)
    ensures r.Some? ==> forall i: nat :: i < r.value ==> !OccursAt(s, sub, i)
    ensures r.None? ==> forall i: nat :: !OccursAt(s, sub, i)
    decreases |s|
  {
    if |s| < |sub| then
      None
    else if s[..|sub|] == sub then
      Some(0)
    else
      var r := IndexOf(s[1..], sub);
      ShiftOccurs(s, sub, if r.Some? then r.value else |s|);
      if r.Some? then Some(r.value + 1) else None
  }

  /** Occurrences in `s[1..]` are the occurrences in `s` after index 0, shifted by one. */
  lemma ShiftOccurs(s: string, sub: string, j: nat)
    requires |sub| <= |s| && s[..|sub|] != sub
    requires forall i: nat :: i < j ==> !OccursAt(s[1..], sub, i)
    ensures forall i: nat :: i < j + 1 ==> !OccursAt(s, sub, i)
    ensures OccursAt(s[1..], sub, j) ==> OccursAt(s, sub, j + 1)
  {
    forall i: nat | i < j + 1
      ensures !OccursAt(s, sub, i)
    {
      if i == 0 {
        assert s[0..|sub|] == s[..|sub|];
      } else if i + |sub| <= |s| {
        assert s[1..][i - 1..i - 1 + |sub|] == s[i..i + |sub|];
        assert !OccursAt(s[1..], sub, i - 1);
      }
    }
    if OccursAt(s[1..], sub, j) {
      assert s[1..][j..j + |sub|] == s[j + 1..j + 1 + |sub|];
    }
  }

  /** Python's `sub in s`. */
  predicate Contains(s: string, sub: string) {
    IndexOf(s, sub).Some?
  }

  /** `s.split(sep, maxsplit=1)`: the text before and after the first `sep`,
      or None when `sep` does not occur. */
  function SplitOnce(s: string, sep: string): (r: Option<(string, string)>)
    ensures r.None? <==> !Contains(s, sep)
    ensures r.Some? ==> s == r.value.0 + sep + r.value.1
    ensures r.Some? ==> forall i: nat :: i < |r.value.0| ==> !OccursAt(s, sep, i)
  {
    match IndexOf(s, sep)
    case None => None
    case Some(i) =>
      assert s == s[..i] + s[i..i + |sep|] + s[i + |sep|..];
      Some((s[..i], s[i + |sep|..]))
  }

  /** A one-character separator occurs exactly where that character is. */
  lemma OccursAtChar(s: string, c: char, i: nat)
    ensures OccursAt(s, [c], i) <==> i < |s| && s[i] == c
  {
  }

  /** `s.split(c)[-1]`: the text after the last `c`, or all of `s`. */
  function AfterLast(s: string, c: char): (r: string)
    ensures c !in r
    ensures |r| <= |s| && r == s[|s| - |r|..]
    ensures |r| < |s| ==> s[|s| - |r| - 1] == c
  {
    if s == [] then []
    else if s[|s| - 1] == c then []
    else AfterLast(s[..|s| - 1], c) + [s[|s| - 1]]
  }

  /** `s.split(c)[0]`: the text before the first `c`, or all of `s`. */
  function BeforeFirst(s: string, c: char): (r: string)
    ensures c !in r
    ensures |r| <= |s| && r == s[..|r|]
    ensures |r| < |s| ==> s[|r|] == c
  {
    if s == [] then []
    else if s[0] == c then []
    else [s[0]] + BeforeFirst(s[1..], c)
  }

  /** The text after the last `c` of `a + [c] + b`, when `b` holds no `c`, is `b`. */
  lemma {:induction false} AfterLastExact(a: string, c: char, b: string)
    requires c !in b
    ensures AfterLast(a + [c] + b, c) == b
    decreases |b|
  {
    var s := a + [c] + b;
    if b == [] {
      assert s[|s| - 1] == c;
    } else {
      assert s[..|s| - 1] == a + [c] + b[..|b| - 1];
      AfterLastExact(a, c, b[..|b| - 1]);
      assert b == b[..|b| - 1] + [b[|b| - 1]];
    }
  }

  /** Without a `c`, the text after the last `c` is all of `s`. */
  lemma AfterLastNone(s: string, c: char)
    requires c !in s
    ensures AfterLast(s, c) == s
  {
  }

  /** The text before the first `c` of `a + [c] + b`, when `a` holds no `c`, is `a`. */
  lemma BeforeFirstExact(a: string, c: char, b: string)
    requires c !in a
    ensures BeforeFirst(a + [c] + b, c) == a
  {
    var s := a + [c] + b;
    var r := BeforeFirst(s, c);
    assert s[|a|] == c;
    assert forall i :: 0 <= i < |a| ==> s[i] == a[i];
    assert a == s[..|a|];
  }

  /** Without a `c`, the text before the first `c` is all of `s`. */
  lemma BeforeFirstNone(s: string, c: char)
    requires c !in s
    ensures BeforeFirst(s, c) == s
  {
  }

  /** `s.startswith(p)`. */
  predicate StartsWith(s: string, p: string) {
    |p| <= |s| && s[..|p|] == p
  }

  predicate IsDigit(c: char) {
    '0' <= c <= '9'
  }

  /** `s.isdigit()` for ASCII digits: non-empty and every character a digit. */
  predicate IsDigits(s: string) {
    s != [] && forall i :: 0 <= i < |s| ==> IsDigit(s[i])
  }

  /** The value of a decimal digit string, read left to right. */
  function DigitsValue(s: string): (n: nat)
    requires forall i :: 0 <= i < |s| ==> IsDigit(s[i])
  {
    if s == [] then 0
    else
      assert IsDigit(s[|s| - 1]);
      DigitsValue(s[..|s| - 1]) * 10 + (s[|s| - 1] as int - '0' as int)
  }

  /** The decimal spelling of `n`, as Python's `str(n)` writes it. */
  function ShowNat(n: nat): (s: string)
    ensures IsDigits(s)
    ensures s[0] == '0' ==> n == 0
  {
    if n < 10 then ['0' + n as char]
    else ShowNat(n / 10) + ['0' + (n % 10) as char]
  }

  /** Reading back what ShowNat wrote gives the number. */
  lemma {:induction false} DigitsOfShowNat(n: nat)
    ensures DigitsValue(ShowNat(n)) == n
  {
    if n >= 10 {
      var s := ShowNat(n);
      assert s[..|s| - 1] == ShowNat(n / 10);
      DigitsOfShowNat(n / 10);
    }
  }

  /** `int(s)` for text: surrounding whitespace, an optional sign, then decimal digits.
      None stands for the ValueError Python raises. */
  function ParseInt(s: string): (r: Option<int>)
    ensures Strip(s, Whitespace) == [] ==> r.None?
  {
    ParseSigned(Strip(s, Whitespace))
  }

  /** `int` reads exactly the texts that are, between whitespace, digits with an optional
      sign in front, and reads them as decimal numbers. */
  lemma ParseIntExact(s: string)
    ensures var t := Strip(s, Whitespace);
      ParseInt(s).Some? <==> IsDigits(t) || (t != [] && t[0] in {'+', '-'} && IsDigits(t[1..]))
    ensures var t := Strip(s, Whitespace);
      ParseInt(s).Some? && IsDigits(t) ==> ParseInt(s).value == DigitsValue(t)
    ensures var t := Strip(s, Whitespace);
      ParseInt(s).Some? && !IsDigits(t) ==>
        ParseInt(s).value == if t[0] == '-' then 0 - DigitsValue(t[1..]) as int else DigitsValue(t[1..]) as int
  {
    SignedExact(Strip(s, Whitespace));
  }

  /** Text with no whitespace at its ends that holds something other than a digit after
      its first character is refused: "12a", "1.5", "- 5". */
  lemma ParseIntRefuses(t: string, k: nat)
    requires Trimmed(t, Whitespace)
    requires 0 < k < |t| && !IsDigit(t[k])
    ensures ParseInt(t).None?
  {
    ParseIntOfTrimmed(t);
    SignedRefuses(t, k);
  }

  /** Text with no whitespace at its ends is read as it stands. */
  lemma ParseIntOfTrimmed(t: string)
    requires Trimmed(t, Whitespace)
    ensures ParseInt(t) == ParseSigned(t)
  {
    StripUnpaddedBy(t, Whitespace);
  }

  /** Signed text with a non-digit after its first character is refused. */
  lemma SignedRefuses(t: string, k: nat)
    requires 0 < k < |t| && !IsDigit(t[k])
    ensures ParseSigned(t).None?
  {
    var rest := t[1..];
    assert rest[k - 1] == t[k];
  }

  /** What `int` reads once the whitespace is gone: an optional sign and digits. */
  function ParseSigned(t: string): (r: Option<int>)
    ensures t == [] ==> r.None?
  {
    if t != [] && (t[0] == '+' || t[0] == '-') then
      if IsDigits(t[1..]) then
        Some(if t[0] == '-' then 0 - DigitsValue(t[1..]) as int else DigitsValue(t[1..]) as int)
      else
        None
    else if IsDigits(t) then
      Some(DigitsValue(t))
    else
      None
  }

  /** What ParseSigned accepts and the value it gives. */
  lemma SignedExact(t: string)
    ensures ParseSigned(t).Some? <==> IsDigits(t) || (t != [] && t[0] in {'+', '-'} && IsDigits(t[1..]))
    ensures ParseSigned(t).Some? && IsDigits(t) ==> ParseSigned(t).value == DigitsValue(t)
    ensures ParseSigned(t).Some? && !IsDigits(t) ==>
      ParseSigned(t).value == if t[0] == '-' then 0 - DigitsValue(t[1..]) as int else DigitsValue(t[1..]) as int
  {
    if t != [] && (t[0] == '+' || t[0] == '-') {
      assert !IsDigit(t[0]);
    }
  }

  /** No decimal digit is whitespace. */
  lemma DigitNotSpace(c: char)
    requires IsDigit(c)
    ensures c !in Whitespace
  {
  }

  /** A text with no whitespace at either end is what `int` parses as it stands. */
  lemma StripUnpadded(s: string)
    requires s != [] ==> s[0] !in Whitespace && s[|s| - 1] !in Whitespace
    ensures Strip(s, Whitespace) == s
  {
    StripUnpaddedBy(s, Whitespace);
  }

  /** `int(str(n)) == n`. */
  lemma ParseIntShowNat(n: nat)
    ensures ParseInt(ShowNat(n)) == Some(n)
  {
    var s := ShowNat(n);
    DigitNotSpace(s[0]);
    DigitNotSpace(s[|s| - 1]);
    StripUnpaddedBy(s, Whitespace);
    DigitsOfShowNat(n);
    assert ParseSigned(s) == Some(n);
  }

  /** `int("-" + str(n)) == -n`. */
  lemma ParseIntNegative(n: nat)
    ensures ParseInt("-" + ShowNat(n)) == Some(0 - n as int)
  {
    var d := ShowNat(n);
    var s := "-" + d;
    assert s[0] == '-' && s[|s| - 1] == d[|d| - 1];
    DigitNotSpace(d[|d| - 1]);
    StripUnpaddedBy(s, Whitespace);
    assert s[1..] == d;
    DigitsOfShowNat(n);
    assert ParseSigned(s) == Some(0 - n as int);
  }

  /** Surrounding whitespace does not change what `int` reads. */
  lemma ParseIntIgnoresWhitespace(a: string, s: string, c: string)
    requires AllIn(a, Whitespace) && AllIn(c, Whitespace)
    requires s != [] ==> s[0] !in Whitespace && s[|s| - 1] !in Whitespace
    ensures ParseInt(a + s + c) == ParseInt(s)
  {
    StripExact(a, s, c, Whitespace);
    StripUnpadded(s);
  }
}
