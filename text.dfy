/**
 * The Python string operations the routes rely on: `str.strip()`,
 * `sep.join(parts)`, `key.split('/')[-1]` and `str(n)` for an integer.
 */
module Text {
  import opened Wrappers

  /** The characters Python's `str.isspace()` accepts; `str.strip()` removes exactly these. */
  const SpaceChars: set<char> :=
    {'\U{0009}', '\U{000A}', '\U{000B}', '\U{000C}', '\U{000D}',
     '\U{001C}', '\U{001D}', '\U{001E}', '\U{001F}', ' ',
     '\U{0085}', '\U{00A0}', '\U{1680}',
     '\U{2000}', '\U{2001}', '\U{2002}', '\U{2003}', '\U{2004}', '\U{2005}',
     '\U{2006}', '\U{2007}', '\U{2008}', '\U{2009}', '\U{200A}',
     '\U{2028}', '\U{2029}', '\U{202F}', '\U{205F}', '\U{3000}'}

  predicate IsSpace(c: char) {
    c in SpaceChars
  }

  predicate AllSpace(s: string) {
    forall i :: 0 <= i < |s| ==> IsSpace(s[i])
  }

  /** `t` occurs in `s` starting at position `i`. */
  predicate InfixAt(t: string, s: string, i: int) {
    0 <= i <= |s| - |t| && s[i..i + |t|] == t
  }

  /** `t` occurs in `s` as a contiguous piece (Python's `t in s`). */
  ghost predicate IsInfix(t: string, s: string) {
    exists i :: InfixAt(t, s, i)
  }

  predicate IsPrefix(p: string, s: string) {
    |p| <= |s| && s[..|p|] == p
  }

  /** How many whitespace characters `s` begins with. */
  function LeadingSpaces(s: string): (k: nat)
    ensures k <= |s|
    ensures AllSpace(s[..k])
    ensures k < |s| ==> !IsSpace(s[k])
  {
    if s != [] && IsSpace(s[0]) then
      var k' := LeadingSpaces(s[1..]);
      assert s[..1 + k'] == [s[0]] + s[1..][..k'];
      1 + k'
    else 0
  }

  /** How many whitespace characters `s` ends with. */
  function TrailingSpaces(s: string): (k: nat)
    ensures k <= |s|
    ensures AllSpace(s[|s| - k..])
    ensures k < |s| ==> !IsSpace(s[|s| - k - 1])
  {
    if s != [] && IsSpace(s[|s| - 1]) then
      var init := s[..|s| - 1];
      var k' := TrailingSpaces(init);
      assert s[|s| - (1 + k')..] == init[|init| - k'..] + [s[|s| - 1]];
      1 + k'
    else 0
  }

  /** Python's `s.lstrip()`. */
  function StripLeft(s: string): string
  {
    s[LeadingSpaces(s)..]
  }

  /** Python's `s.rstrip()`. */
  function StripRight(s: string): string
  {
    s[..|s| - TrailingSpaces(s)]
  }

  /** How many leading whitespace characters `strip()` removes. */
  function StripOffset(s: string): (k: nat)
    ensures k <= |s|
  {
    LeadingSpaces(s)
  }

  /**
   * Python's `s.strip()`: the result is the piece of `s` left once the
   * whitespace at both ends is gone; it is empty exactly when `s` is
   * all whitespace, and otherwise begins and ends with a non-space.
   */
  function Strip(s: string): (r: string)
    ensures StripOffset(s) + |r| <= |s|
    ensures r == s[StripOffset(s)..StripOffset(s) + |r|]
    ensures AllSpace(s[..StripOffset(s)]) && AllSpace(s[StripOffset(s) + |r|..])
    ensures r != [] ==> !IsSpace(r[0]) && !IsSpace(r[|r| - 1])
    ensures r == [] <==> AllSpace(s)
  {
    StripCore(s);
    StripRight(StripLeft(s))
  }

  lemma StripCore(s: string)
    ensures var r := StripRight(StripLeft(s));
      && StripOffset(s) + |r| <= |s|
      && r == s[StripOffset(s)..StripOffset(s) + |r|]
      && AllSpace(s[..StripOffset(s)]) && AllSpace(s[StripOffset(s) + |r|..])
      && (r != [] ==> !IsSpace(r[0]) && !IsSpace(r[|r| - 1]))
      && (r == [] <==> AllSpace(s))
  {
    var k := LeadingSpaces(s);
    var l := s[k..];
    var j := TrailingSpaces(l);
    StripPieces(s, k, l, j, l[..|l| - j]);
  }

  /** The facts of `StripCore`, over the pieces it is built from. */
  lemma StripPieces(s: string, k: nat, l: string, j: nat, r: string)
    requires k <= |s| && AllSpace(s[..k]) && (k < |s| ==> !IsSpace(s[k]))
    requires l == s[k..]
    requires j <= |l| && AllSpace(l[|l| - j..]) && (j < |l| ==> !IsSpace(l[|l| - j - 1]))
    requires r == l[..|l| - j]
    ensures k + |r| <= |s|
    ensures r == s[k..k + |r|]
    ensures AllSpace(s[k + |r|..])
    ensures r != [] ==> !IsSpace(r[0]) && !IsSpace(r[|r| - 1])
    ensures r == [] <==> AllSpace(s)
  {
    assert s[k + |r|..] == l[|l| - j..];
    if r == [] {
      assert l[|l| - j..] == l;
      AllSpaceConcat(s[..k], l);
      assert s[..k] + l == s;
    } else {
      assert r[0] == s[k];
      assert r[|r| - 1] == l[|l| - j - 1];
    }
  }

  lemma AllSpaceConcat(a: string, b: string)
    requires AllSpace(a) && AllSpace(b)
    ensures AllSpace(a + b)
  {
    forall i | 0 <= i < |a + b| ensures IsSpace((a + b)[i]) {
      if i < |a| { assert (a + b)[i] == a[i]; } else { assert (a + b)[i] == b[i - |a|]; }
    }
  }

  lemma {:induction false} LeadingSpacesSkip(p: string, t: string)
    requires AllSpace(p)
    ensures LeadingSpaces(p + t) == |p| + LeadingSpaces(t)
  {
    if p != [] {
      assert (p + t)[0] == p[0];
      assert (p + t)[1..] == p[1..] + t;
      LeadingSpacesSkip(p[1..], t);
    } else {
      assert p + t == t;
    }
  }

  lemma {:induction false} TrailingSpacesSkip(t: string, q: string)
    requires AllSpace(q)
    ensures TrailingSpaces(t + q) == TrailingSpaces(t) + |q|
  {
    if q != [] {
      assert (t + q)[|t + q| - 1] == q[|q| - 1];
      assert (t + q)[..|t + q| - 1] == t + q[..|q| - 1];
      TrailingSpacesSkip(t, q[..|q| - 1]);
    } else {
      assert t + q == t;
    }
  }

  /**
   * `Strip` is the only way to cut `s` into leading whitespace, a core
   * with non-space ends, and trailing whitespace.
   */
  lemma StripUnique(s: string, p: string, r: string, q: string)
    requires s == p + r + q
    requires AllSpace(p) && AllSpace(q)
    requires r != [] ==> !IsSpace(r[0]) && !IsSpace(r[|r| - 1])
    ensures Strip(s) == r
  {
    if r == [] {
      AllSpaceConcat(p, q);
      assert s == p + q;
    } else {
      assert s == p + (r + q);
      LeadingSpacesSkip(p, r + q);
      assert LeadingSpaces(r + q) == 0 by { assert (r + q)[0] == r[0]; }
      assert s[|p|..] == r + q;
      TrailingSpacesSkip(r, q);
      assert TrailingSpaces(r) == 0;
      assert (r + q)[..|r|] == r;
    }
  }

  /** Whitespace added around a string does not change what `strip()` keeps. */
  lemma StripPadded(v: string, lead: string, r: string, trail: string, pad: string, pad': string)
    requires v == lead + r + trail
    requires AllSpace(lead) && AllSpace(trail) && AllSpace(pad) && AllSpace(pad')
    requires r != [] ==> !IsSpace(r[0]) && !IsSpace(r[|r| - 1])
    ensures Strip(pad + v + pad') == r
  {
    var p, q := pad + lead, trail + pad';
    AllSpaceConcat(pad, lead);
    AllSpaceConcat(trail, pad');
    assert pad + v + pad' == p + r + q;
    StripUnique(pad + v + pad', p, r, q);
  }

  /** Stripping twice removes nothing more. */
  lemma StripIdempotent(s: string)
    ensures Strip(Strip(s)) == Strip(s)
  {
  }

  /** Python's `sep.join(parts)`. */
  function Join(parts: seq<string>, sep: string): string
  {
    if |parts| == 0 then ""
    else if |parts| == 1 then parts[0]
    else parts[0] + sep + Join(parts[1..], sep)
  }

  /** A join of non-empty parts is empty exactly when there are no parts. */
  lemma {:induction false} JoinEmptyIff(parts: seq<string>, sep: string)
    requires forall k :: 0 <= k < |parts| ==> parts[k] != ""
    ensures Join(parts, sep) == "" <==> parts == []
  {
  }

  /** Every part occurs in the join. */
  lemma {:induction false} JoinContains(parts: seq<string>, sep: string, k: nat)
    requires k < |parts|
    ensures IsInfix(parts[k], Join(parts, sep))
  {
    var j := Join(parts, sep);
    if k == 0 {
      assert InfixAt(parts[0], j, 0);
    } else {
      JoinContains(parts[1..], sep, k - 1);
      var rest := Join(parts[1..], sep);
      var i :| InfixAt(parts[k], rest, i);
      var off := |parts[0]| + |sep|;
      assert j == parts[0] + sep + rest;
      assert j[off + i..off + i + |parts[k]|] == rest[i..i + |parts[k]|];
      assert InfixAt(parts[k], j, off + i);
    }
  }

  /** The length of a join: all parts plus one separator between each neighbouring pair. */
  function TotalLength(parts: seq<string>): nat
  {
    if parts == [] then 0 else |parts[0]| + TotalLength(parts[1..])
  }

  lemma {:induction false} JoinLength(parts: seq<string>, sep: string)
    requires parts != []
    ensures |Join(parts, sep)| == TotalLength(parts) + (|parts| - 1) * |sep|
  {
    if |parts| > 1 {
      JoinLength(parts[1..], sep);
    }
  }

  /**
   * Python's `s.split('/')[-1]`: the text after the last `/`, or all of
   * `s` when it holds none.
   */
  function LastSegment(s: string): (r: string)
    ensures |r| <= |s| && r == s[|s| - |r|..]
    ensures '/' !in r
    ensures |r| == |s| || s[|s| - |r| - 1] == '/'
  {
    if s == [] then ""
    else if s[|s| - 1] == '/' then ""
    else LastSegment(s[..|s| - 1]) + [s[|s| - 1]]
  }

  /** Python's `s.split('/')`: the pieces between the slashes, always at least one. */
  function SplitSlash(s: string): (r: seq<string>)
    ensures |r| >= 1
    ensures |r| == 1 <==> '/' !in s
  {
    if s == [] then [""]
    else if s[0] == '/' then [""] + SplitSlash(s[1..])
    else var rest := SplitSlash(s[1..]); [[s[0]] + rest[0]] + rest[1..]
  }

  /** `LastSegment` agrees with taking the final piece of `SplitSlash`. */
  lemma LastSegmentIsLastSplit(s: string)
    ensures LastSegment(s) == SplitSlash(s)[|SplitSlash(s)| - 1]
  {
    SplitLastIsSegment(s);
    var parts := SplitSlash(s);
    LastSegmentUnique(s, parts[|parts| - 1]);
  }

  /** The final piece of `SplitSlash(s)` is a slash-free suffix that is all of `s` or follows a slash. */
  lemma {:induction false} SplitLastIsSegment(s: string)
    ensures var parts := SplitSlash(s); var l := parts[|parts| - 1];
      && |l| <= |s| && l == s[|s| - |l|..]
      && '/' !in l
      && (|l| == |s| || s[|s| - |l| - 1] == '/')
  {
    if s != [] {
      var t := s[1..];
      SplitLastIsSegment(t);
      var rest := SplitSlash(t);
      var l' := rest[|rest| - 1];
      var parts := SplitSlash(s);
      if s[0] == '/' {
        assert parts[|parts| - 1] == l';
      } else if |rest| == 1 {
        assert l' == t;
        assert parts == [[s[0]] + l'];
        assert s == [s[0]] + t;
      } else {
        assert parts[|parts| - 1] == l';
        assert |l'| < |t|;
        assert s[|s| - |l'| - 1] == t[|t| - |l'| - 1];
      }
    }
  }

  /** Any slash-free suffix that either is the whole string or follows a slash is `LastSegment`. */
  lemma LastSegmentUnique(s: string, r: string)
    requires |r| <= |s| && r == s[|s| - |r|..]
    requires '/' !in r
    requires |r| == |s| || s[|s| - |r| - 1] == '/'
    ensures LastSegment(s) == r
  {
    var l := LastSegment(s);
    assert |l| == |r|;
  }

  /** The decimal digit for `d`. */
  function DigitChar(d: nat): (c: char)
    requires d < 10
    ensures '0' <= c <= '9'
  {
    (('0' as int) + d) as char
  }

  function DigitValue(c: char): (d: nat)
    requires '0' <= c <= '9'
    ensures d < 10 && DigitChar(d) == c
  {
    (c as int) - ('0' as int)
  }

  predicate AllDigits(s: string) {
    forall i :: 0 <= i < |s| ==> '0' <= s[i] <= '9'
  }

  /** Python's `str(n)` for a non-negative integer: digits, most significant first, no leading zero. */
  function NatToDecimal(n: nat): (r: string)
    ensures r != [] && AllDigits(r)
    ensures r[0] == '0' ==> n == 0
  {
    if n < 10 then [DigitChar(n)]
    else NatToDecimal(n / 10) + [DigitChar(n % 10)]
  }

  /** The number a string of digits denotes. */
  function DecimalValue(s: string): nat
    requires AllDigits(s)
  {
    if s == [] then 0 else 10 * DecimalValue(s[..|s| - 1]) + DigitValue(s[|s| - 1])
  }

  lemma {:induction false} DecimalRoundTrip(n: nat)
    ensures DecimalValue(NatToDecimal(n)) == n
  {
    var r := NatToDecimal(n);
    if n >= 10 {
      DecimalRoundTrip(n / 10);
      assert r[..|r| - 1] == NatToDecimal(n / 10);
    }
    assert DigitValue(r[|r| - 1]) == n % 10;
  }

  /** Python's `str(n)` (and `f"{n}"`) for any integer. */
  function IntToDecimal(n: int): (r: string)
    ensures r != []
  {
    if n < 0 then "-" + NatToDecimal(-n) else NatToDecimal(n)
  }

  /** Python's `int(s)` on an optional `-` followed by digits; leading zeros and `-0` are accepted. */
  function ParseInt(s: string): Option<int>
  {
    if s == [] then None
    else if s[0] == '-' then
      if |s| > 1 && AllDigits(s[1..]) then Some(-(DecimalValue(s[1..]) as int)) else None
    else if AllDigits(s) then Some(DecimalValue(s))
    else None
  }

  /** Reading back the decimal text of an integer gives the integer. */
  lemma IntDecimalRoundTrip(n: int)
    ensures ParseInt(IntToDecimal(n)) == Some(n)
  {
    if n < 0 {
      var d := NatToDecimal(-n);
      assert IntToDecimal(n) == "-" + d;
      ParseNegative(d);
      DecimalRoundTrip(-n);
      assert DecimalValue(d) == -n;
    } else {
      var d := NatToDecimal(n);
      assert IntToDecimal(n) == d;
      ParseNonNegative(d);
      DecimalRoundTrip(n);
      assert DecimalValue(d) == n;
    }
  }

  lemma ParseNegative(d: string)
    requires d != [] && AllDigits(d)
    ensures ParseInt("-" + d) == Some(-(DecimalValue(d) as int))
  {
    var t := "-" + d;
    assert t[0] == '-' && |t| > 1;
    assert t[1..] == d;
  }

  lemma ParseNonNegative(d: string)
    requires d != [] && AllDigits(d)
    ensures ParseInt(d) == Some(DecimalValue(d) as int)
  {
    assert d[0] != '-';
  }

  /** Different integers have different decimal text. */
  lemma IntToDecimalInjective(m: int, n: int)
    requires IntToDecimal(m) == IntToDecimal(n)
    ensures m == n
  {
    IntDecimalRoundTrip(m);
    IntDecimalRoundTrip(n);
  }
}
