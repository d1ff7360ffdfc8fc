/** The pieces of Rust's `str` and integer behaviour the decoder relies on:
    integer widths, `Display` of unsigned integers, `str::parse` for integer
    types, `split` on a char, `split(pattern).nth(1)` and the UTF-8 width of a
    char (which decides whether a byte-index slice panics). */
module Strings {
  import opened Wrappers

  type u8 = n: nat | n < 0x100
  type u16 = n: nat | n < 0x1_0000
  type u32 = n: nat | n < 0x1_0000_0000
  type u64 = n: nat | n < 0x1_0000_0000_0000_0000
  type i32 = n: int | -0x8000_0000 <= n < 0x8000_0000

  const U16Bound: nat := 0x1_0000
  const U32Bound: nat := 0x1_0000_0000
  const U64Bound: nat := 0x1_0000_0000_0000_0000

  // ---------------------------------------------------------------------------
  // Decimal digits

  predicate IsDigit(c: char) {
    '0' <= c <= '9'
  }

  predicate AllDigits(s: string) {
    forall i :: 0 <= i < |s| ==> IsDigit(s[i])
  }

  function DigitValue(c: char): (d: nat)
    requires IsDigit(c)
    ensures d < 10
  {
    (c as int) - ('0' as int)
  }

  function DigitChar(d: nat): (c: char)
    requires d < 10
    ensures IsDigit(c) && DigitValue(c) == d
  {
    (('0' as int) + d) as char
  }

  /** The value of a run of decimal digits, most significant first. */
  function DigitsValue(s: string): nat
    requires AllDigits(s)
    decreases |s|
  {
    if |s| == 0 then 0 else DigitsValue(s[..|s| - 1]) * 10 + DigitValue(s[|s| - 1])
  }

  /** `Display` of an unsigned integer: its canonical decimal digits. */
  function NatToString(n: nat): (s: string)
    ensures |s| >= 1 && AllDigits(s)
    ensures DigitsValue(s) == n
    ensures s[0] == '0' ==> n == 0
    decreases n
  {
    if n < 10 then [DigitChar(n)]
    else
      var s := NatToString(n / 10) + [DigitChar(n % 10)];
      assert s[..|s| - 1] == NatToString(n / 10);
      s
  }

  /** Two-digit zero-padded decimal, as in `+2001-01-05T00:00:00Z`. */
  function Pad2(n: nat): (s: string)
    requires n < 100
    ensures |s| == 2 && AllDigits(s) && DigitsValue(s) == n
  {
    var s := [DigitChar(n / 10), DigitChar(n % 10)];
    assert s[..1] == [DigitChar(n / 10)];
    assert s[..1][..0] == [];
    assert DigitsValue(s[..1]) == n / 10;
    s
  }

  // ---------------------------------------------------------------------------
  // `str::parse` for integer types

  /** `str::parse::<uN>()` where the type's values are those below `bound`:
      one optional leading `+`, then at least one ASCII digit, and the value
      must fit (an error on overflow). Leading zeros are accepted. */
  function ParseUnsigned(s: string, bound: nat): (r: Option<nat>)
    ensures r.Some? ==> r.value < bound
    ensures r.Some? ==> |s| > 0 && forall i :: 0 <= i < |s| ==> IsDigit(s[i]) || (i == 0 && s[i] == '+')
    ensures r.Some? ==> IsDigit(s[|s| - 1])
    ensures AllDigits(s) && |s| > 0 && DigitsValue(s) < bound ==> r == Some(DigitsValue(s))
    ensures AllDigits(s) && |s| > 0 && DigitsValue(s) >= bound ==> r == None
    ensures |s| > 1 && s[0] == '+' && AllDigits(s[1..]) ==>
      r == if DigitsValue(s[1..]) < bound then Some(DigitsValue(s[1..])) else None
  {
    var digits := if |s| > 0 && s[0] == '+' then s[1..] else s;
    if |digits| > 0 && AllDigits(digits) && DigitsValue(digits) < bound then
      Some(DigitsValue(digits))
    else
      None
  }

  function ParseU16(s: string): (r: Option<u16>) {
    match ParseUnsigned(s, U16Bound)
    case Some(n) => Some(n)
    case None => None
  }

  function ParseU32(s: string): (r: Option<u32>) {
    match ParseUnsigned(s, U32Bound)
    case Some(n) => Some(n)
    case None => None
  }

  function ParseU64(s: string): (r: Option<u64>) {
    match ParseUnsigned(s, U64Bound)
    case Some(n) => Some(n)
    case None => None
  }

  /** `str::parse::<i32>()`: like the unsigned parsers, but a leading `-`
      makes the value negative (down to -2^31). */
  function ParseI32(s: string): (r: Option<i32>)
    ensures r.Some? && '-' !in s ==> r.value >= 0
    ensures |s| == 0 || s[0] != '-' ==> r == match ParseUnsigned(s, 0x8000_0000)
      case Some(n) => Some(n)
      case None => None
    ensures |s| > 0 && s[0] == '-' ==>
      r == if |s| > 1 && AllDigits(s[1..]) && DigitsValue(s[1..]) <= 0x8000_0000
           then Some(0 - DigitsValue(s[1..])) else None
  {
    if |s| > 0 && s[0] == '-' then
      var digits := s[1..];
      if |digits| > 0 && AllDigits(digits) && DigitsValue(digits) <= 0x8000_0000 then
        var v: i32 := 0 - (DigitsValue(digits) as int);
        Some(v)
      else
        None
    else
      match ParseUnsigned(s, 0x8000_0000)
      case Some(n) => Some(n)
      case None => None
  }

  /** Parsing the `Display` of a number gives the number back, exactly when it fits. */
  lemma ParseNatToString(n: nat, bound: nat)
    ensures ParseUnsigned(NatToString(n), bound) == if n < bound then Some(n) else None
  {
    var s := NatToString(n);
    assert s[0] != '+' by { assert IsDigit(s[0]); }
  }

  /** `Display` of a signed integer: a `-` before the digits of a negative
      value. */
  function IntToString(v: int): (s: string)
    ensures |s| >= 1
    ensures v >= 0 ==> AllDigits(s) && DigitsValue(s) == v
    ensures v < 0 ==> |s| >= 2 && s[0] == '-' && AllDigits(s[1..]) && DigitsValue(s[1..]) == -v
  {
    if v >= 0 then NatToString(v) else "-" + NatToString(-v)
  }

  /** Parsing the display of any `i32` gives it back. */
  lemma ParseIntToString(v: i32)
    ensures ParseI32(IntToString(v)) == Some(v)
  {
    var s := IntToString(v);
    if v >= 0 {
      assert s[0] != '-' by { assert IsDigit(s[0]); }
      ParseNatToString(v, 0x8000_0000);
    } else {
      assert s[1..] == NatToString(-(v as int));
    }
  }

  /** A string holding a character that is neither a digit nor `+` is no number. */
  lemma ParseRejectsForeignChar(s: string, bound: nat, c: char)
    requires c in s && !IsDigit(c) && c != '+'
    ensures ParseUnsigned(s, bound) == None
  {
    var i :| 0 <= i < |s| && s[i] == c;
  }

  // ---------------------------------------------------------------------------
  // `str::split` on a char and its inverse

  /** The pieces of `str::split(sep)`: always at least one, none holding `sep`. */
  function Split(s: string, sep: char): (parts: seq<string>)
    ensures |parts| >= 1
    ensures forall i :: 0 <= i < |parts| ==> sep !in parts[i]
    ensures |s| > 0 && s[0] != sep ==> |parts[0]| > 0 && parts[0][0] == s[0]
    decreases |s|
  {
    if |s| == 0 then [""]
    else
      var rest := Split(s[1..], sep);
      if s[0] == sep then
        assert s == [sep] + s[1..];
        [""] + rest
      else
        var parts := [[s[0]] + rest[0]] + rest[1..];
        assert parts[1..] == rest[1..];
        assert s == [s[0]] + s[1..];
        parts
  }

  /** Glues pieces back together with `sep` between them. */
  function Join(parts: seq<string>, sep: char): string
    requires |parts| >= 1
    decreases |parts|
  {
    if |parts| == 1 then parts[0] else parts[0] + [sep] + Join(parts[1..], sep)
  }

  /** Joining the pieces gives the string back. */
  lemma {:induction false} JoinSplit(s: string, sep: char)
    ensures Join(Split(s, sep), sep) == s
    decreases |s|
  {
    if |s| > 0 {
      JoinSplit(s[1..], sep);
      var rest := Split(s[1..], sep);
      if s[0] == sep {
        assert s == [sep] + s[1..];
        assert ([""] + rest)[1..] == rest;
      } else {
        var parts := [[s[0]] + rest[0]] + rest[1..];
        assert parts[1..] == rest[1..];
        assert s == [s[0]] + s[1..];
        if |rest| > 1 {
          assert Join(rest, sep) == rest[0] + [sep] + Join(rest[1..], sep);
        }
      }
    }
  }

  /** A string without the separator is one piece. */
  lemma {:induction false} SplitWithoutSep(a: string, sep: char)
    requires sep !in a
    ensures Split(a, sep) == [a]
    decreases |a|
  {
    if |a| > 0 {
      SplitWithoutSep(a[1..], sep);
      assert [a[0]] + a[1..] == a;
    }
  }

  /** Splitting stops at the first separator. */
  lemma {:induction false} SplitAtFirstSep(a: string, sep: char, b: string)
    requires sep !in a
    ensures Split(a + [sep] + b, sep) == [a] + Split(b, sep)
    decreases |a|
  {
    var s := a + [sep] + b;
    if |a| == 0 {
      assert s[1..] == b;
    } else {
      assert s[1..] == a[1..] + [sep] + b;
      SplitAtFirstSep(a[1..], sep, b);
      assert [a[0]] + a[1..] == a;
    }
  }

  /** Split is the inverse of Join on pieces free of the separator. */
  lemma {:induction false} SplitJoin(parts: seq<string>, sep: char)
    requires |parts| >= 1
    requires forall i :: 0 <= i < |parts| ==> sep !in parts[i]
    ensures Split(Join(parts, sep), sep) == parts
    decreases |parts|
  {
    if |parts| == 1 {
      SplitWithoutSep(parts[0], sep);
    } else {
      SplitJoin(parts[1..], sep);
      SplitAtFirstSep(parts[0], sep, Join(parts[1..], sep));
      assert [parts[0]] + parts[1..] == parts;
    }
  }

  /** The three pieces of `a<sep>b<sep>c`. */
  lemma SplitThree(a: string, b: string, c: string, sep: char)
    requires sep !in a && sep !in b && sep !in c
    ensures Split(a + [sep] + b + [sep] + c, sep) == [a, b, c]
  {
    var parts := [a, b, c];
    assert parts[1..] == [b, c];
    SplitTwo(b, c, sep);
    assert Join([b, c], sep) == b + [sep] + c;
    assert Join(parts, sep) == a + [sep] + (b + [sep] + c);
    assert a + [sep] + (b + [sep] + c) == a + [sep] + b + [sep] + c;
    assert forall i :: 0 <= i < |parts| ==> sep !in parts[i];
    SplitJoin(parts, sep);
  }

  /** The two pieces of `a<sep>b`. */
  lemma SplitTwo(a: string, b: string, sep: char)
    requires sep !in a && sep !in b
    ensures Split(a + [sep] + b, sep) == [a, b]
  {
    var parts := [a, b];
    assert parts[1..] == [b];
    SplitJoin(parts, sep);
  }

  // ---------------------------------------------------------------------------
  // Searching for a substring

  predicate OccursAt(s: string, pat: string, j: nat) {
    j + |pat| <= |s| && s[j..j + |pat|] == pat
  }

  /** The first position where `pat` occurs in `s`, if any. */
  function IndexOf(s: string, pat: string): (r: Option<nat>)
    requires |pat| > 0
    ensures r.Some? ==> OccursAt(s, pat, r.value)
    ensures r.Some? ==> forall j: nat :: j < r.value ==> !OccursAt(s, pat, j)
    ensures r.None? ==> forall j: nat :: !OccursAt(s, pat, j)
    decreases |s|
  {
    if |s| < |pat| then None
    else if s[..|pat|] == pat then Some(0)
    else
      var r := IndexOf(s[1..], pat);
      ShiftOccurrence(s, pat);
      assert !OccursAt(s, pat, 0);
      match r
      case None =>
        assert forall j: nat :: !OccursAt(s, pat, j) by {
          forall j: nat ensures !OccursAt(s, pat, j) {
            if j > 0 { assert !OccursAt(s[1..], pat, j - 1); }
          }
        }
        None
      case Some(i) =>
        assert forall j: nat :: j < i + 1 ==> !OccursAt(s, pat, j) by {
          forall j: nat | j < i + 1 ensures !OccursAt(s, pat, j) {
            if j > 0 { assert !OccursAt(s[1..], pat, j - 1); }
          }
        }
        assert OccursAt(s[1..], pat, i);
        Some(i + 1)
  }

  lemma ShiftOccurrence(s: string, pat: string)
    requires |s| > 0
    ensures forall j: nat :: OccursAt(s[1..], pat, j) <==> OccursAt(s, pat, j + 1)
  {
    forall j: nat ensures OccursAt(s[1..], pat, j) <==> OccursAt(s, pat, j + 1) {
      if j + 1 + |pat| <= |s| {
        assert s[1..][j..j + |pat|] == s[j + 1..j + 1 + |pat|];
      }
    }
  }

  /** `s.split(pat).nth(1)`: the text between the first occurrence of `pat`
      and the next one (or the end), if `pat` occurs at all. */
  function SplitSecond(s: string, pat: string): (r: Option<string>)
    requires |pat| > 0
    ensures r.None? <==> forall j: nat :: !OccursAt(s, pat, j)
    ensures r.Some? ==> forall j: nat :: !OccursAt(r.value, pat, j)
    ensures r.Some? ==> exists i: nat :: OccursAt(s, pat, i) && r.value <= s[i + |pat|..]
    ensures r.Some? ==> IndexOf(s, pat).Some? && r.value <= s[IndexOf(s, pat).value + |pat|..]
    ensures r.Some? ==> var rest := s[IndexOf(s, pat).value + |pat|..];
      (forall j: nat :: j < |r.value| ==> !OccursAt(rest, pat, j))
      && (r.value == rest || OccursAt(rest, pat, |r.value|))
  {
    match IndexOf(s, pat)
    case None => None
    case Some(i) =>
      assert OccursAt(s, pat, i);
      Some(UpToNext(s[i + |pat|..], pat))
  }

  /** The longest prefix of `rest` in which no occurrence of `pat` starts. */
  function UpToNext(rest: string, pat: string): (r: string)
    requires |pat| > 0
    ensures r <= rest
    ensures forall j: nat :: !OccursAt(r, pat, j)
    ensures forall j: nat :: j < |r| ==> !OccursAt(rest, pat, j)
    ensures r == rest || OccursAt(rest, pat, |r|)
  {
    match IndexOf(rest, pat)
    case None => rest
    case Some(j) =>
      NoOccurrenceBefore(rest, pat, j);
      rest[..j]
  }

  /** A prefix of `s` that stops before the first occurrence of `pat` holds
      no occurrence of its own. */
  lemma NoOccurrenceBefore(s: string, pat: string, j: nat)
    requires |pat| > 0 && j <= |s|
    requires forall k: nat :: k < j ==> !OccursAt(s, pat, k)
    ensures forall k: nat :: !OccursAt(s[..j], pat, k)
  {
    forall k: nat ensures !OccursAt(s[..j], pat, k) {
      if OccursAt(s[..j], pat, k) {
        assert s[..j][k..k + |pat|] == s[k..k + |pat|];
        assert OccursAt(s, pat, k);
      }
    }
  }

  /** When `pat` opens `s` and its first char is not in the remainder, the
      second piece is that remainder. */
  lemma SplitSecondAfterPrefix(pat: string, rest: string)
    requires |pat| > 0 && pat[0] !in rest
    ensures SplitSecond(pat + rest, pat) == Some(rest)
  {
    var s := pat + rest;
    assert OccursAt(s, pat, 0) by { assert s[..|pat|] == pat; }
    assert IndexOf(s, pat) == Some(0);
    assert s[|pat|..] == rest;
  }

  // ---------------------------------------------------------------------------
  // UTF-8

  /** Bytes taken by a char in UTF-8. A Rust byte-index slice panics when the
      index falls inside a char. */
  function Utf8Len(c: char): (n: nat)
    ensures 1 <= n <= 4
    ensures n == 1 <==> (c as int) < 0x80
  {
    if (c as int) < 0x80 then 1
    else if (c as int) < 0x800 then 2
    else if (c as int) < 0x1_0000 then 3
    else 4
  }
}
