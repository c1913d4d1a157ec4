/** The parts of Python's `str` API that the modelled code relies on, over
    `string` (a sequence of Unicode scalar values): `strip`, `startswith`,
    `find`, the `in` operator, `split(sep, 1)`, `replace(p, "")`,
    `split(d)`/`join`, and decimal formatting of non-negative integers. */
module Text {

  /** Python's `str.isspace` for a single character: the ASCII whitespace
      characters, the information separators U+001C..U+001F, NEL, NBSP and
      the Unicode space separators. */
  predicate IsSpace(c: char) {
    || c == ' '
    || ('\t' <= c <= '\r')
    || ('\U{1c}' <= c <= '\U{1f}')
    || c == '\U{85}' || c == '\U{a0}' || c == '\U{1680}'
    || ('\U{2000}' <= c <= '\U{200a}')
    || c == '\U{2028}' || c == '\U{2029}' || c == '\U{202f}' || c == '\U{205f}' || c == '\U{3000}'
  }

  predicate AllSpace(s: string) {
    forall i :: 0 <= i < |s| ==> IsSpace(s[i])
  }

  /** Neither end is whitespace: what `strip()` always returns. */
  predicate IsStripped(s: string) {
    |s| == 0 || (!IsSpace(s[0]) && !IsSpace(s[|s| - 1]))
  }

  /** `s.lstrip()`: drops the longest all-whitespace prefix. */
  function LStrip(s: string): (r: string)
    ensures |r| <= |s| && r == s[|s| - |r|..]
    ensures AllSpace(s[..|s| - |r|])
    ensures |r| == 0 || !IsSpace(r[0])
    decreases |s|
  {
    if |s| > 0 && IsSpace(s[0]) then
      var r := LStrip(s[1..]);
      assert s[1..][|s| - 1 - |r|..] == s[|s| - |r|..];
      assert s[..|s| - |r|] == [s[0]] + s[1..][..|s| - 1 - |r|];
      r
    else s
  }

  /** `s.rstrip()`: drops the longest all-whitespace suffix. */
  function RStrip(s: string): (r: string)
    ensures |r| <= |s| && r == s[..|r|]
    ensures AllSpace(s[|r|..])
    ensures |r| == 0 || !IsSpace(r[|r| - 1])
    decreases |s|
  {
    if |s| > 0 && IsSpace(s[|s| - 1]) then
      var r := RStrip(s[..|s| - 1]);
      assert s[..|s| - 1][..|r|] == s[..|r|];
      assert s[|r|..] == s[..|s| - 1][|r|..] + [s[|s| - 1]];
      r
    else s
  }

  /** `s.strip()`: the part of `s` left between an all-whitespace prefix and
      an all-whitespace suffix, with no whitespace at either end. */
  function Strip(s: string): (r: string)
    ensures IsStripped(r)
    ensures |r| <= |s|
  {
    RStrip(LStrip(s))
  }

  /** What `strip` keeps is a piece of the input with only whitespace around it. */
  lemma StripKeepsInfix(s: string)
    ensures exists i :: StrippedAt(s, Strip(s), i)
  {
    var l := LStrip(s);
    assert StrippedAt(s, Strip(s), |s| - |l|);
  }

  /** `r` sits at offset `i` of `s`, and all of `s` around it is whitespace. */
  predicate StrippedAt(s: string, r: string, i: int) {
    0 <= i && i + |r| <= |s| && s[i..i + |r|] == r
    && AllSpace(s[..i]) && AllSpace(s[i + |r|..])
  }

  /** Whitespace before a part that does not begin with whitespace is all `lstrip` removes. */
  lemma {:induction false} LStripSpacePrefix(a: string, u: string)
    requires AllSpace(a)
    requires |u| == 0 || !IsSpace(u[0])
    ensures LStrip(a + u) == u
    decreases |a|
  {
    if |a| == 0 {
      assert a + u == u;
    } else {
      assert (a + u)[0] == a[0];
      assert (a + u)[1..] == a[1..] + u;
      LStripSpacePrefix(a[1..], u);
    }
  }

  /** Whitespace after a part that does not end with whitespace is all `rstrip` removes. */
  lemma {:induction false} RStripSpaceSuffix(u: string, b: string)
    requires AllSpace(b)
    requires |u| == 0 || !IsSpace(u[|u| - 1])
    ensures RStrip(u + b) == u
    decreases |b|
  {
    if |b| == 0 {
      assert u + b == u;
    } else {
      assert (u + b)[|u + b| - 1] == b[|b| - 1];
      assert (u + b)[..|u + b| - 1] == u + b[..|b| - 1];
      RStripSpaceSuffix(u, b[..|b| - 1]);
    }
  }

  /** `strip` is determined by what it keeps: a stripped core surrounded by
      whitespace is exactly what `strip` returns. */
  lemma StripUnique(a: string, t: string, b: string)
    requires AllSpace(a) && AllSpace(b) && IsStripped(t)
    ensures Strip(a + t + b) == t
  {
    assert a + t + b == a + (t + b);
    if |t| == 0 {
      assert t + b == b;
      assert AllSpace(a + b);
      LStripSpacePrefix(a + b, "");
      assert a + b + "" == a + b;
      assert LStrip(a + t + b) == "";
    } else {
      assert (t + b)[0] == t[0];
      LStripSpacePrefix(a, t + b);
      RStripSpaceSuffix(t, b);
    }
  }

  /** Stripping a string with no whitespace at either end changes nothing. */
  lemma StripOfStripped(s: string)
    requires IsStripped(s)
    ensures Strip(s) == s
  {
    StripUnique("", s, "");
    assert "" + s + "" == s;
  }

  /** `strip` is idempotent. */
  lemma StripIdempotent(s: string)
    ensures Strip(Strip(s)) == Strip(s)
  {
    StripOfStripped(Strip(s));
  }

  /** When `s` does not begin with whitespace, `strip` only trims its end. */
  lemma StripNoLeadingSpace(s: string)
    requires |s| == 0 || !IsSpace(s[0])
    ensures Strip(s) == RStrip(s)
  {
  }

  // ---------------------------------------------------------------------
  // Searching

  /** `p` occurs in `s` starting at index `i`. */
  predicate OccursAt(s: string, p: string, i: int) {
    0 <= i && i + |p| <= |s| && s[i..i + |p|] == p
  }

  /** Python's `p in s`. */
  predicate Contains(s: string, p: string) {
    exists i :: 0 <= i <= |s| - |p| && OccursAt(s, p, i)
  }

  /** `i` is the first index at which `p` occurs in `s`. */
  predicate FirstOccurrence(s: string, p: string, i: int) {
    OccursAt(s, p, i) && forall j :: 0 <= j < i ==> !OccursAt(s, p, j)
  }

  /** Python's `s.startswith(p)`. */
  predicate StartsWith(s: string, p: string) {
    |p| <= |s| && s[..|p|] == p
  }

  /** A prefix is an occurrence at index 0. */
  lemma StartsWithContains(s: string, p: string)
    ensures StartsWith(s, p) ==> OccursAt(s, p, 0) && Contains(s, p)
  {
    if StartsWith(s, p) {
      assert OccursAt(s, p, 0);
    }
  }

  /** Python's `s.find(p)`: the first index where `p` occurs, or -1. */
  function Find(s: string, p: string): (r: int)
    ensures r == -1 <==> !Contains(s, p)
    ensures r != -1 ==> FirstOccurrence(s, p, r)
  {
    FindFrom(s, p, 0)
  }

  function FindFrom(s: string, p: string, k: nat): (r: int)
    requires forall j :: 0 <= j < k ==> !OccursAt(s, p, j)
    ensures r == -1 <==> !Contains(s, p)
    ensures r != -1 ==> k <= r && FirstOccurrence(s, p, r)
    decreases |s| - k
  {
    if k + |p| > |s| then
      assert forall j :: OccursAt(s, p, j) ==> j < k;
      -1
    else if s[k..k + |p|] == p then
      assert OccursAt(s, p, k);
      k
    else FindFrom(s, p, k + 1)
  }

  /** An occurrence inside a prefix of `s` is an occurrence in `s` that ends within the prefix. */
  lemma OccursInPrefix(s: string, p: string, k: int, j: int)
    requires 0 <= k <= |s|
    requires OccursAt(s[..k], p, j)
    ensures OccursAt(s, p, j) && j + |p| <= k
  {
    assert s[..k][j..j + |p|] == s[j..j + |p|];
  }

  /** An occurrence inside a suffix of `s` is an occurrence in `s`, shifted. */
  lemma OccursInSuffix(s: string, p: string, k: int, j: int)
    requires 0 <= k <= |s|
    requires OccursAt(s[k..], p, j)
    ensures OccursAt(s, p, k + j)
  {
    assert s[k..][j..j + |p|] == s[k + j..k + j + |p|];
  }

  /** Python's `s.split(sep, 1)`: one part when `sep` does not occur, otherwise
      the text before the first occurrence and the text after it. */
  function SplitOnce(s: string, sep: string): (parts: seq<string>)
    requires |sep| > 0
    ensures !Contains(s, sep) ==> parts == [s]
    ensures Contains(s, sep) ==> |parts| == 2 && s == parts[0] + sep + parts[1]
    ensures Contains(s, sep) ==> FirstOccurrence(s, sep, |parts[0]|) && !Contains(parts[0], sep)
  {
    var i := Find(s, sep);
    if i == -1 then [s]
    else
      assert s == s[..i] + sep + s[i + |sep|..];
      assert !Contains(s[..i], sep) by {
        forall j | OccursAt(s[..i], sep, j)
          ensures false
        {
          OccursInPrefix(s, sep, i, j);
        }
      }
      [s[..i], s[i + |sep|..]]
  }

  /** Python's `s.replace(p, "")`: deletes the non-overlapping occurrences of
      `p` found scanning from the left. Deleting can join two halves into a new
      occurrence, which is kept. */
  function RemoveAll(s: string, p: string): string
    decreases |s|
  {
    if |p| == 0 then s
    else if |s| < |p| then s
    else if s[..|p|] == p then RemoveAll(s[|p|..], p)
    else [s[0]] + RemoveAll(s[1..], p)
  }

  /** Without an occurrence of `p` there is nothing to remove; with one, the
      result is shorter. */
  lemma {:induction false} RemoveAllShrinks(s: string, p: string)
    ensures !Contains(s, p) ==> RemoveAll(s, p) == s
    ensures |p| > 0 && Contains(s, p) ==> |RemoveAll(s, p)| < |s|
    decreases |s|
  {
    if |p| > 0 && |s| >= |p| {
      if s[..|p|] == p {
        assert OccursAt(s, p, 0);
        RemoveAllLength(s[|p|..], p);
      } else {
        ContainsPastHead(s, p);
        RemoveAllShrinks(s[1..], p);
        assert !Contains(s, p) ==> [s[0]] + s[1..] == s;
      }
    }
  }

  /** Removal never lengthens the text. */
  lemma {:induction false} RemoveAllLength(s: string, p: string)
    ensures |RemoveAll(s, p)| <= |s|
    decreases |s|
  {
    if |p| > 0 && |s| >= |p| {
      if s[..|p|] == p {
        RemoveAllLength(s[|p|..], p);
      } else {
        RemoveAllLength(s[1..], p);
      }
    }
  }

  /** `replace(p, "")` scans left to right: the text before the first `p`
      is kept, that `p` is dropped, and the scan resumes right after it.
      With `RemoveAll`'s first ensures (no `p`, no change) this determines
      the result completely. */
  lemma RemoveAllAtFirst(s: string, p: string)
    requires |p| > 0 && Contains(s, p)
    ensures var i := Find(s, p);
            RemoveAll(s, p) == s[..i] + RemoveAll(s[i + |p|..], p)
  {
    RemoveAllAt(s, p, Find(s, p));
  }

  lemma {:induction false} RemoveAllAt(s: string, p: string, i: int)
    requires |p| > 0 && FirstOccurrence(s, p, i)
    ensures RemoveAll(s, p) == s[..i] + RemoveAll(s[i + |p|..], p)
    decreases i
  {
    FirstOccurrenceGuard(s, p, i);
    if i == 0 {
      RemoveAllAtStart(s, p);
    } else {
      FirstOccurrenceInTail(s, p, i);
      RemoveAllAt(s[1..], p, i - 1);
      RemoveAllKeepsHead(s, p, i);
    }
  }

  /** A leading `p` is dropped and the scan resumes after it. */
  lemma RemoveAllAtStart(s: string, p: string)
    requires 0 < |p| <= |s| && s[..|p|] == p
    ensures RemoveAll(s, p) == s[..0] + RemoveAll(s[0 + |p|..], p)
  {
    assert s[..0] + RemoveAll(s[|p|..], p) == RemoveAll(s[|p|..], p);
  }

  /** The text starts with `p` exactly when its first occurrence is at 0. */
  lemma FirstOccurrenceGuard(s: string, p: string, i: int)
    requires FirstOccurrence(s, p, i)
    ensures |p| <= |s| && (s[..|p|] == p <==> i == 0)
  {
    assert s[0..|p|] == s[..|p|];
    if s[..|p|] == p {
      assert OccursAt(s, p, 0);
    }
  }

  /** Past a first character that does not start `p`, the first occurrence
      moves one place to the left. */
  lemma FirstOccurrenceInTail(s: string, p: string, i: int)
    requires |p| > 0 && FirstOccurrence(s, p, i) && i > 0
    ensures FirstOccurrence(s[1..], p, i - 1)
  {
    var t := s[1..];
    forall j | 0 <= j < i - 1
      ensures !OccursAt(t, p, j)
    {
      assert !OccursAt(s, p, j + 1);
      assert t[j..j + |p|] == s[j + 1..j + 1 + |p|];
    }
    assert t[i - 1..i - 1 + |p|] == s[i..i + |p|];
  }

  /** The induction step of `RemoveAllAt`: a first character that does not
      start `p` is kept in front. */
  lemma RemoveAllKeepsHead(s: string, p: string, i: int)
    requires |p| > 0 && 0 < i && i + |p| <= |s| && s[..|p|] != p
    requires RemoveAll(s[1..], p) == s[1..][..i - 1] + RemoveAll(s[1..][i - 1 + |p|..], p)
    ensures RemoveAll(s, p) == s[..i] + RemoveAll(s[i + |p|..], p)
  {
    var t := s[1..];
    RemoveAllStep(s, p);
    assert t[i - 1 + |p|..] == s[i + |p|..];
    ConsOntoPrefix(s, i, RemoveAll(s, p), RemoveAll(t, p), RemoveAll(s[i + |p|..], p));
  }

  /** `x == [s[0]] + y` and `y == s[1..i] + z` give `x == s[..i] + z`. */
  lemma ConsOntoPrefix(s: string, i: int, x: string, y: string, z: string)
    requires 0 < i <= |s|
    requires x == [s[0]] + y && y == s[1..][..i - 1] + z
    ensures x == s[..i] + z
  {
    assert [s[0]] + s[1..][..i - 1] == s[..i];
  }

  /** When `p` does not start `s`, it occurs in `s` exactly when it occurs after the first character. */
  /** One step of the scan: at a match `p` is dropped, otherwise the first
      character is kept. */
  lemma RemoveAllStep(s: string, p: string)
    requires 0 < |p| <= |s|
    ensures s[..|p|] == p ==> RemoveAll(s, p) == RemoveAll(s[|p|..], p)
    ensures s[..|p|] != p ==> RemoveAll(s, p) == [s[0]] + RemoveAll(s[1..], p)
  {
  }

  lemma ContainsPastHead(s: string, p: string)
    requires 0 < |p| <= |s| && s[..|p|] != p
    ensures Contains(s, p) <==> Contains(s[1..], p)
  {
    if Contains(s[1..], p) {
      var j :| 0 <= j <= |s| - 1 - |p| && OccursAt(s[1..], p, j);
      OccursInSuffix(s, p, 1, j);
    }
    if Contains(s, p) {
      var j :| 0 <= j <= |s| - |p| && OccursAt(s, p, j);
      assert j != 0;
      assert s[1..][j - 1..j - 1 + |p|] == s[j..j + |p|];
      assert OccursAt(s[1..], p, j - 1);
    }
  }

  // ---------------------------------------------------------------------
  // Splitting on and joining with one character

  /** The first index of `d` in `s`. */
  function IndexOf(s: string, d: char): (i: nat)
    requires d in s
    ensures i < |s| && s[i] == d && d !in s[..i]
  {
    if s[0] == d then 0
    else
      assert d in s[1..] by {
        var k :| 0 <= k < |s| && s[k] == d;
        assert s[1..][k - 1] == d;
      }
      var i := IndexOf(s[1..], d) + 1;
      assert s[..i] == [s[0]] + s[1..][..i - 1];
      i
  }

  /** Python's `s.split(d)` for a one-character separator. */
  function SplitOn(s: string, d: char): (parts: seq<string>)
    ensures |parts| >= 1
    ensures forall k :: 0 <= k < |parts| ==> d !in parts[k]
    decreases |s|
  {
    if d in s then
      var i := IndexOf(s, d);
      [s[..i]] + SplitOn(s[i + 1..], d)
    else [s]
  }

  /** Python's `d.join(parts)` for a one-character separator. */
  function JoinWith(parts: seq<string>, d: char): string
    decreases |parts|
  {
    if |parts| == 0 then ""
    else if |parts| == 1 then parts[0]
    else parts[0] + [d] + JoinWith(parts[1..], d)
  }

  /** Joining the pieces of a split restores the original string. */
  lemma {:induction false} JoinSplit(s: string, d: char)
    ensures JoinWith(SplitOn(s, d), d) == s
    decreases |s|
  {
    if d in s {
      var i := IndexOf(s, d);
      var rest := SplitOn(s[i + 1..], d);
      assert SplitOn(s, d) == [s[..i]] + rest;
      JoinPrepend(s[..i], rest, d);
      JoinSplit(s[i + 1..], d);
      assert s == s[..i] + [d] + s[i + 1..];
    }
  }

  /** Joining a list with a new first element puts the separator after it. */
  lemma JoinPrepend(a: string, rest: seq<string>, d: char)
    requires |rest| >= 1
    ensures JoinWith([a] + rest, d) == a + [d] + JoinWith(rest, d)
  {
    assert ([a] + rest)[1..] == rest;
  }

  /** What `d.join(s.split(d)[:-1])` must be: everything before the last `d`,
      or the empty string when `d` does not occur. */
  predicate BeforeLast(s: string, d: char, r: string) {
    && (d !in s ==> r == "")
    && (d in s ==> |r| < |s| && s[..|r|] == r && s[|r|] == d && d !in s[|r| + 1..])
  }

  /** `d.join(s.split(d)[:-1])` is everything before the last `d`. */
  lemma {:induction false} JoinAllButLast(s: string, d: char)
    ensures BeforeLast(s, d, JoinWith(DropLast(SplitOn(s, d)), d))
    decreases |s|
  {
    if d in s {
      var i := IndexOf(s, d);
      var tail := s[i + 1..];
      var rest := SplitOn(tail, d);
      SplitOnFirst(s, d);
      JoinAllButLast(tail, d);
      var rr := JoinWith(DropLast(rest), d);
      if d in tail {
        JoinPrepend(s[..i], DropLast(rest), d);
        AfterSeparator(s, i, d, rr);
      } else {
        assert rest == [tail];
        assert JoinWith(DropLast(SplitOn(s, d)), d) == s[..i];
      }
    }
  }

  /** All elements but the last. */
  function DropLast<T>(xs: seq<T>): seq<T>
    requires |xs| >= 1
  {
    xs[..|xs| - 1]
  }

  /** Splitting a string that holds `d` yields the text before its first `d`,
      then the pieces of the rest. */
  lemma SplitOnFirst(s: string, d: char)
    requires d in s
    ensures var i := IndexOf(s, d);
            DropLast(SplitOn(s, d)) == [s[..i]] + DropLast(SplitOn(s[i + 1..], d))
  {
  }

  /** Only one string satisfies `BeforeLast`: the text before the last `d`. */
  lemma BeforeLastUnique(s: string, d: char, r: string, k: int)
    requires 0 <= k < |s| && s[k] == d && d !in s[k + 1..]
    requires BeforeLast(s, d, r)
    ensures r == s[..k]
  {
    assert d in s;
    forall j | |r| < j < |s|
      ensures s[j] != d
    {
      assert s[j] == s[|r| + 1..][j - |r| - 1];
    }
    forall j | k < j < |s|
      ensures s[j] != d
    {
      assert s[j] == s[k + 1..][j - k - 1];
    }
    assert |r| == k;
  }

  lemma AfterSeparator(s: string, i: nat, d: char, rr: string)
    requires i < |s| && s[i] == d
    requires d in s[i + 1..] && BeforeLast(s[i + 1..], d, rr)
    ensures BeforeLast(s, d, s[..i] + [d] + rr)
  {
    var tail := s[i + 1..];
    assert s[..i + 1 + |rr|] == s[..i] + [d] + tail[..|rr|];
    assert s[i + 1 + |rr|] == tail[|rr|];
    assert s[i + 1 + |rr| + 1..] == tail[|rr| + 1..];
  }

  // ---------------------------------------------------------------------
  // Decimal numerals

  predicate IsDigit(c: char) {
    '0' <= c <= '9'
  }

  predicate AllDigits(s: string) {
    forall k :: 0 <= k < |s| ==> IsDigit(s[k])
  }

  function DigitChar(n: nat): (c: char)
    requires n < 10
    ensures IsDigit(c) && c as int - '0' as int == n
  {
    (n + '0' as int) as char
  }

  /** Python's `str(n)` / `f"{n}"` for a non-negative integer: decimal digits,
      no leading zero. */
  function Decimal(n: nat): (s: string)
    ensures |s| >= 1 && AllDigits(s)
    ensures |s| == 1 || s[0] != '0'
  {
    if n < 10 then [DigitChar(n)]
    else Decimal(n / 10) + [DigitChar(n % 10)]
  }

  /** The value of a string of decimal digits (the empty string counts as 0). */
  function DigitsValue(s: string): nat
    requires AllDigits(s)
  {
    if |s| == 0 then 0
    else DigitsValue(s[..|s| - 1]) * 10 + (s[|s| - 1] as int - '0' as int)
  }

  /** Reading back a formatted number gives the number. */
  lemma {:induction false} DecimalRoundTrip(n: nat)
    ensures DigitsValue(Decimal(n)) == n
  {
    if n >= 10 {
      DecimalRoundTrip(n / 10);
      var s := Decimal(n);
      assert s[..|s| - 1] == Decimal(n / 10);
    }
  }

  /** Different numbers format differently. */
  lemma DecimalInjective(m: nat, n: nat)
    requires Decimal(m) == Decimal(n)
    ensures m == n
  {
    DecimalRoundTrip(m);
    DecimalRoundTrip(n);
  }
}
