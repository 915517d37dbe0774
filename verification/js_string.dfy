/**
 The pieces of JavaScript string behaviour the validators rely on: the white-space
 set that `String.prototype.trim` and `parseFloat` strip (WhiteSpace and
 LineTerminator of ECMA-262, sections 12.2 and 12.3), trimming, and the ASCII
 digits matched by the regular-expression class `\d`.
 */
module JsString {

  /** ECMAScript WhiteSpace (TAB, VT, FF, ZWNBSP and the Unicode Zs category)
      or LineTerminator (LF, CR, LS, PS). */
  predicate IsJsWhitespace(c: char) {
    || c == '\t' || c == '\U{000B}' || c == '\U{000C}' || c == '\U{FEFF}'
    || c == ' ' || c == '\U{00A0}' || c == '\U{1680}' || ('\U{2000}' <= c <= '\U{200A}')
    || c == '\U{202F}' || c == '\U{205F}' || c == '\U{3000}'
    || c == '\n' || c == '\r' || c == '\U{2028}' || c == '\U{2029}'
  }

  /** Every character of `s` is white space (true of the empty string). */
  predicate IsBlank(s: string) {
    forall i :: 0 <= i < |s| ==> IsJsWhitespace(s[i])
  }

  /** `s` with its leading white space removed. */
  function TrimStart(s: string): (r: string)
    ensures |r| <= |s| && r == s[|s| - |r|..]
    ensures IsBlank(s[..|s| - |r|])
    ensures r == [] || !IsJsWhitespace(r[0])
    decreases |s|
  {
    if s != [] && IsJsWhitespace(s[0]) then
      var r := TrimStart(s[1..]);
      assert s[..|s| - |r|] == [s[0]] + s[1..][..|s| - 1 - |r|];
      r
    else
      s
  }

  /** `s` with its trailing white space removed. */
  function TrimEnd(s: string): (r: string)
    ensures |r| <= |s| && r == s[..|r|]
    ensures IsBlank(s[|r|..])
    ensures r == [] || !IsJsWhitespace(r[|r| - 1])
    decreases |s|
  {
    if s != [] && IsJsWhitespace(s[|s| - 1]) then
      var r := TrimEnd(s[..|s| - 1]);
      assert s[|r|..] == s[..|s| - 1][|r|..] + [s[|s| - 1]];
      r
    else
      s
  }

  /** `r` is the slice `s[a..b]` of `s`, with only white space before and after it. */
  predicate IsBlankFramed(s: string, r: string, a: int, b: int) {
    0 <= a <= b <= |s| && r == s[a..b] && IsBlank(s[..a]) && IsBlank(s[b..])
  }

  /** `String.prototype.trim`: white space removed at both ends. */
  function Trim(s: string): (r: string)
    ensures exists a, b :: IsBlankFramed(s, r, a, b)
    ensures r == [] <==> IsBlank(s)
    ensures r != [] ==> !IsJsWhitespace(r[0]) && !IsJsWhitespace(r[|r| - 1])
  {
    var t := TrimStart(s);
    var r := TrimEnd(t);
    var a := |s| - |t|;
    var b := a + |r|;
    TrimmedMiddle(s, t, r, a, b);
    r
  }

  /** What `Trim` promises, for a blank prefix cut at `a` and then a blank suffix cut
      at `b`. */
  lemma TrimmedMiddle(s: string, t: string, r: string, a: nat, b: nat)
    requires a + |t| == |s| && t == s[a..] && IsBlank(s[..a]) && (t == [] || !IsJsWhitespace(t[0]))
    requires b == a + |r| && |r| <= |t| && r == t[..|r|] && IsBlank(t[|r|..])
    requires r == [] || !IsJsWhitespace(r[|r| - 1])
    ensures IsBlankFramed(s, r, a, b)
    ensures r == [] <==> IsBlank(s)
    ensures r != [] ==> !IsJsWhitespace(r[0]) && !IsJsWhitespace(r[|r| - 1])
  {
    MiddleOfTwoCuts(s, t, r, a, b);
    BlankAround(s, a, b);
    if r != [] {
      assert r[0] == t[0];
    }
  }

  /** Cutting a blank prefix off `s` and then a blank suffix off what is left leaves the
      middle `s[a..b]` of `s`, between a blank prefix and a blank suffix. */
  lemma MiddleOfTwoCuts(s: string, t: string, r: string, a: nat, b: nat)
    requires a + |t| == |s| && t == s[a..] && IsBlank(s[..a])
    requires b == a + |r| && |r| <= |t| && r == t[..|r|] && IsBlank(t[|r|..])
    ensures b <= |s| && r == s[a..b] && IsBlank(s[..a]) && IsBlank(s[b..])
  {
    SlicesOfSuffix(s, a, |r|);
  }

  /** Slicing the suffix `s[a..]` at `k` cuts `s` at `a + k`. */
  lemma SlicesOfSuffix(s: string, a: nat, k: nat)
    requires a + k <= |s|
    ensures s[a..][..k] == s[a..a + k]
    ensures s[a..][k..] == s[a + k..]
  {
  }

  /** With a blank prefix `s[..a]` and a blank suffix `s[b..]`, `s` is blank exactly
      when the middle `s[a..b]` is. */
  lemma BlankAround(s: string, a: nat, b: nat)
    requires a <= b <= |s| && IsBlank(s[..a]) && IsBlank(s[b..])
    ensures IsBlank(s) <==> IsBlank(s[a..b])
  {
    if IsBlank(s[a..b]) {
      forall i | 0 <= i < |s|
        ensures IsJsWhitespace(s[i])
      {
        if i < a {
          assert s[..a][i] == s[i];
        } else if i < b {
          assert s[a..b][i - a] == s[i];
        } else {
          assert s[b..][i - b] == s[i];
        }
      }
    }
    if IsBlank(s) {
      forall i | 0 <= i < b - a
        ensures IsJsWhitespace(s[a..b][i])
      {
        assert s[a..b][i] == s[a + i];
      }
    }
  }

  /** Skipping a blank prefix changes nothing that `TrimStart` returns. */
  lemma {:induction false} TrimStartSkipsBlankPrefix(ws: string, s: string)
    requires IsBlank(ws)
    ensures TrimStart(ws + s) == TrimStart(s)
    decreases |ws|
  {
    if ws != [] {
      assert (ws + s)[1..] == ws[1..] + s;
      TrimStartSkipsBlankPrefix(ws[1..], s);
    } else {
      assert ws + s == s;
    }
  }

  /** The characters matched by `\d` in a JavaScript regular expression. */
  predicate IsAsciiDigit(c: char) {
    '0' <= c <= '9'
  }

  predicate AllDigits(s: string) {
    forall i :: 0 <= i < |s| ==> IsAsciiDigit(s[i])
  }

  function DigitValue(c: char): (d: nat)
    requires IsAsciiDigit(c)
    ensures d < 10
  {
    (c as int) - ('0' as int)
  }

  function DigitChar(d: nat): (c: char)
    requires d < 10
    ensures IsAsciiDigit(c) && DigitValue(c) == d
  {
    (('0' as int) + d) as char
  }

  /** The natural number a run of decimal digits denotes, most significant first. */
  function DigitsValue(s: string): nat
    requires AllDigits(s)
    decreases |s|
  {
    if s == [] then 0 else DigitsValue(s[..|s| - 1]) * 10 + DigitValue(s[|s| - 1])
  }

  /** A digit run denotes a positive number exactly when one of its digits is not '0'. */
  lemma {:induction false} DigitsValuePositive(s: string)
    requires AllDigits(s)
    ensures DigitsValue(s) > 0 <==> exists i :: 0 <= i < |s| && s[i] != '0'
    decreases |s|
  {
    if s != [] {
      var p := s[..|s| - 1];
      DigitsValuePositive(p);
      if exists i :: 0 <= i < |p| && p[i] != '0' {
        var i :| 0 <= i < |p| && p[i] != '0';
        assert s[i] == p[i];
      }
      if exists i :: 0 <= i < |s| && s[i] != '0' {
        var i :| 0 <= i < |s| && s[i] != '0';
        if i < |p| {
          assert p[i] == s[i];
        }
      }
    }
  }

  /** The shortest decimal rendering of `n`: no leading zero unless `n` is zero. */
  function NatToDecimal(n: nat): (r: string)
    ensures r != [] && AllDigits(r)
    ensures DigitsValue(r) == n
    ensures r[0] == '0' ==> n == 0
  {
    if n < 10 then
      [DigitChar(n)]
    else
      var p := NatToDecimal(n / 10);
      var r := p + [DigitChar(n % 10)];
      assert r[..|r| - 1] == p;
      r
  }

  /** The length of the longest run of digits that `s` starts with. */
  function LeadingDigits(s: string): (k: nat)
    ensures k <= |s|
    ensures AllDigits(s[..k])
    ensures k == |s| || !IsAsciiDigit(s[k])
    decreases |s|
  {
    if s != [] && IsAsciiDigit(s[0]) then
      var k := 1 + LeadingDigits(s[1..]);
      assert forall i :: 1 <= i < k ==> s[..k][i] == s[1..][..k - 1][i - 1];
      k
    else
      0
  }

  /** A digit run followed by something that is not a digit is read to its end. */
  lemma {:induction false} LeadingDigitsOfDigitRun(d: string, t: string)
    requires AllDigits(d)
    requires t == [] || !IsAsciiDigit(t[0])
    ensures LeadingDigits(d + t) == |d|
    decreases |d|
  {
    if d == [] {
      assert d + t == t;
    } else {
      assert (d + t)[1..] == d[1..] + t;
      LeadingDigitsOfDigitRun(d[1..], t);
    }
  }
}
