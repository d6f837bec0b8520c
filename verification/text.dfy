/** The string primitives of Rust's standard library that the core relies on:
    decimal formatting with `{:0w}` / `{:+0w}` padding, `i32::from_str`,
    `str::trim`, `rsplit_once` and `lines`. Strings are sequences of Unicode
    scalar values, as Rust's `char`s are. */
module Text {
  import opened Wrappers

  // ---------------------------------------------------------------------------
  // Decimal digits

  predicate IsDigit(c: char) {
    '0' <= c <= '9'
  }

  predicate AllDigits(s: string) {
    forall i :: 0 <= i < |s| ==> IsDigit(s[i])
  }

  function DigitValue(c: char): nat
    requires IsDigit(c)
  {
    (c as int) - ('0' as int)
  }

  function DigitChar(d: nat): (c: char)
    requires d < 10
    ensures IsDigit(c) && DigitValue(c) == d
  {
    (('0' as int) + d) as char
  }

  /** The number a string of decimal digits denotes (most significant first). */
  function DigitsValue(s: string): nat
    requires AllDigits(s)
  {
    if |s| == 0 then 0 else DigitsValue(s[..|s| - 1]) * 10 + DigitValue(s[|s| - 1])
  }

  /** The shortest decimal spelling of `n`: no leading zero, "0" for zero. */
  function NatToDigits(n: nat): (s: string)
    ensures 1 <= |s| && AllDigits(s)
    ensures DigitsValue(s) == n
    ensures |s| == 1 || s[0] != '0'
    ensures n < 10 <==> |s| == 1
  {
    if n < 10 then [DigitChar(n)]
    else
      var prefix := NatToDigits(n / 10);
      var s := prefix + [DigitChar(n % 10)];
      assert s[..|s| - 1] == prefix;
      s
  }

  function Zeros(k: int): (s: string)
    ensures |s| == if k < 0 then 0 else k
    ensures forall i :: 0 <= i < |s| ==> s[i] == '0'
  {
    if k <= 0 then [] else Zeros(k - 1) + ['0']
  }

  function Abs(n: int): nat {
    if n < 0 then -n else n
  }

  /** Rust's `format!("{:0w}", n)` (and `{:+0w}` when `plus`): the sign, then
      zeros, then the digits of |n|, padded to at least `width` characters in
      all. Padding only ever adds characters. */
  function FormatInt(n: int, width: nat, plus: bool): string {
    var sign := if n < 0 then "-" else if plus then "+" else "";
    var digits := NatToDigits(Abs(n));
    sign + Zeros(width - |sign| - |digits|) + digits
  }

  /** Rust's `n.to_string()` / `format!("{n}")`. */
  function IntToString(n: int): string {
    FormatInt(n, 0, false)
  }

  lemma {:induction false} ZeroPrefixValue(z: string, s: string)
    requires forall i :: 0 <= i < |z| ==> z[i] == '0'
    requires AllDigits(s)
    ensures AllDigits(z + s)
    ensures DigitsValue(z + s) == DigitsValue(s)
    decreases |s|
  {
    if |s| == 0 {
      assert z + s == z;
      ZerosValue(z);
    } else {
      var t := z + s;
      assert t[..|t| - 1] == z + s[..|s| - 1];
      ZeroPrefixValue(z, s[..|s| - 1]);
    }
  }

  lemma {:induction false} ZerosValue(z: string)
    requires forall i :: 0 <= i < |z| ==> z[i] == '0'
    ensures AllDigits(z) && DigitsValue(z) == 0
  {
    if |z| > 0 {
      ZerosValue(z[..|z| - 1]);
    }
  }

  /** The digits part of `FormatInt`: zero padding followed by the digits of
      |n|, which denote |n| again. */
  lemma FormatIntShape(n: int, width: nat, plus: bool)
    ensures var s := FormatInt(n, width, plus);
      var sign := if n < 0 then "-" else if plus then "+" else "";
      && s[..|sign|] == sign
      && AllDigits(s[|sign|..])
      && DigitsValue(s[|sign|..]) == Abs(n)
      && |s| >= width
      && 1 <= |s[|sign|..]|
  {
    var sign := if n < 0 then "-" else if plus then "+" else "";
    var digits := NatToDigits(Abs(n));
    var z := Zeros(width - |sign| - |digits|);
    var s := FormatInt(n, width, plus);
    assert s == sign + (z + digits);
    assert s[|sign|..] == z + digits;
    ZeroPrefixValue(z, digits);
  }

  /** A formatted number ends in a digit. */
  lemma FormatIntEndsInDigit(n: int, width: nat, plus: bool)
    ensures var s := FormatInt(n, width, plus); |s| > 0 && IsDigit(s[|s| - 1])
  {
    var sign := if n < 0 then "-" else if plus then "+" else "";
    var digits := NatToDigits(Abs(n));
    var s := FormatInt(n, width, plus);
    assert s == (sign + Zeros(width - |sign| - |digits|)) + digits;
    assert s[|s| - 1] == digits[|digits| - 1];
  }

  /** `to_string` output consists of an optional '-' and decimal digits. */
  lemma IntToStringChars(n: int)
    ensures var s := IntToString(n);
      && |s| > 0
      && (s[0] == '-' <==> n < 0)
      && forall i :: 0 <= i < |s| ==> s[i] == '-' || IsDigit(s[i])
  {
    FormatIntShape(n, 0, false);
    var s := IntToString(n);
    var sign := if n < 0 then "-" else "";
    forall i | 0 <= i < |s| ensures s[i] == '-' || IsDigit(s[i]) {
      if i >= |sign| {
        assert s[i] == s[|sign|..][i - |sign|];
      }
    }
    if n >= 0 {
      assert s[0] == s[|sign|..][0];
    }
  }

  /** Different numbers print differently. */
  lemma IntToStringInjective(a: int, b: int)
    requires IntToString(a) == IntToString(b)
    ensures a == b
  {
    IntToStringChars(a);
    IntToStringChars(b);
    FormatIntShape(a, 0, false);
    FormatIntShape(b, 0, false);
  }

  /** If a character of the separator at position `j` occurs neither in the
      left part nor earlier in the separator, the left part of the joined
      text cannot be shorter than another one's. */
  lemma SeparatorNotEarlier(t1: string, u1: string, t2: string, u2: string, sep: string, j: nat)
    requires j < |sep|
    requires sep[j] !in t2 && sep[j] !in sep[..j]
    requires t1 + sep + u1 == t2 + sep + u2
    ensures |t2| <= |t1|
  {
    var s := t1 + sep + u1;
    assert s[|t1| + j] == sep[j];
  }

  /** Texts joined around the same separator split the same way when some
      separator character is absent from both left parts and does not occur
      earlier in the separator. */
  lemma SplitAtSeparator(t1: string, u1: string, t2: string, u2: string, sep: string, j: nat)
    requires j < |sep|
    requires sep[j] !in t1 && sep[j] !in t2 && sep[j] !in sep[..j]
    requires t1 + sep + u1 == t2 + sep + u2
    ensures t1 == t2 && u1 == u2
  {
    SeparatorNotEarlier(t1, u1, t2, u2, sep, j);
    SeparatorNotEarlier(t2, u2, t1, u1, sep, j);
    var s := t1 + sep + u1;
    assert t1 == s[..|t1|] == t2;
    assert u1 == s[|t1| + |sep|..] == u2;
  }

  /** Two texts of the form left + sep1 + right + sep2 determine their parts
      when sep1's first character is absent from the left parts and sep2's
      from the right parts. */
  lemma SplitAtTwoSeparators(l1: string, r1: string, l2: string, r2: string, sep1: string, sep2: string)
    requires |sep1| > 0 && |sep2| > 0
    requires sep1[0] !in l1 && sep1[0] !in l2 && sep2[0] !in r1 && sep2[0] !in r2
    requires l1 + sep1 + r1 + sep2 == l2 + sep1 + r2 + sep2
    ensures l1 == l2 && r1 == r2
  {
    assert l1 + sep1 + r1 + sep2 == l1 + sep1 + (r1 + sep2);
    assert l2 + sep1 + r2 + sep2 == l2 + sep1 + (r2 + sep2);
    SplitAtSeparator(l1, r1 + sep2, l2, r2 + sep2, sep1, 0);
    assert r1 + sep2 + [] == r2 + sep2 + [];
    SplitAtSeparator(r1, [], r2, [], sep2, 0);
  }

  /** A printed number consists of a sign and digits only. */
  lemma IntToStringHasNo(n: int, c: char)
    requires c != '-' && !IsDigit(c)
    ensures c !in IntToString(n)
  {
    IntToStringChars(n);
  }

  predicate EndsWith(s: string, suffix: string) {
    |suffix| <= |s| && s[|s| - |suffix|..] == suffix
  }

  // ---------------------------------------------------------------------------
  // Integer parsing

  const I32Min: int := -0x8000_0000
  const I32Max: int := 0x7FFF_FFFF

  /** Rust's `str::parse::<i32>()`: an optional `+` or `-`, then at least one
      ASCII digit and nothing else, denoting a value in the i32 range. */
  function ParseI32(s: string): (r: Option<int>)
    ensures r.Some? ==> I32Min <= r.value <= I32Max
    ensures s == [] ==> r.None?
  {
    if |s| == 0 then None
    else
      var negative := s[0] == '-';
      var digits := if s[0] == '+' || s[0] == '-' then s[1..] else s;
      if |digits| == 0 || !AllDigits(digits) then None
      else
        var v: int := if negative then 0 - DigitsValue(digits) as int else DigitsValue(digits);
        if I32Min <= v <= I32Max then Some(v) else None
  }

  /** Formatting an i32 and parsing it back gives the same number. */
  lemma ParseI32OfToString(n: int)
    requires I32Min <= n <= I32Max
    ensures ParseI32(IntToString(n)) == Some(n)
  {
    FormatIntShape(n, 0, false);
    var s := IntToString(n);
    var sign := if n < 0 then "-" else "";
    var digits := s[|sign|..];
    assert s == sign + digits;
    ParseI32OfDigits(s, digits, n < 0);
  }

  /** An optionally '-'-prefixed non-empty digit string parses to its value
      when that value is an i32. */
  lemma ParseI32OfDigits(s: string, digits: string, negative: bool)
    requires AllDigits(digits) && |digits| > 0
    requires s == (if negative then "-" else "") + digits
    requires I32Min <= (if negative then 0 - DigitsValue(digits) as int else DigitsValue(digits)) <= I32Max
    ensures ParseI32(s) == Some(if negative then 0 - DigitsValue(digits) as int else DigitsValue(digits))
  {
    if negative {
      assert s[0] == '-' && s[1..] == digits;
    } else {
      assert s == digits;
      assert IsDigit(s[0]);
    }
  }

  // ---------------------------------------------------------------------------
  // Whitespace and trimming

  /** Unicode `White_Space`, which is what Rust's `char::is_whitespace` and
      `str::trim` use. */
  predicate IsWhitespace(c: char) {
    var n := c as int;
    || (9 <= n <= 13) || n == 0x20 || n == 0x85 || n == 0xA0 || n == 0x1680
    || (0x2000 <= n <= 0x200A) || n == 0x2028 || n == 0x2029 || n == 0x202F
    || n == 0x205F || n == 0x3000
  }

  function TrimStart(s: string): (r: string)
    ensures |r| <= |s| && r == s[|s| - |r|..]
    ensures r == [] || !IsWhitespace(r[0])
    ensures forall i :: 0 <= i < |s| - |r| ==> IsWhitespace(s[i])
  {
    if |s| > 0 && IsWhitespace(s[0]) then TrimStart(s[1..]) else s
  }

  function TrimEnd(s: string): (r: string)
    ensures |r| <= |s| && r == s[..|r|]
    ensures r == [] || !IsWhitespace(r[|r| - 1])
    ensures forall i :: |r| <= i < |s| ==> IsWhitespace(s[i])
  {
    if |s| > 0 && IsWhitespace(s[|s| - 1]) then TrimEnd(s[..|s| - 1]) else s
  }

  /** Rust's `str::trim`. */
  function Trim(s: string): string {
    TrimEnd(TrimStart(s))
  }

  lemma TrimEndOfTrimmed(s: string)
    requires s == [] || !IsWhitespace(s[|s| - 1])
    ensures TrimEnd(s) == s
  {
  }

  lemma TrimStartOfTrimmed(s: string)
    requires s == [] || !IsWhitespace(s[0])
    ensures TrimStart(s) == s
  {
  }

  /** A trimmed string keeps its first character when it had no leading
      whitespace. */
  lemma TrimEndKeepsFirst(s: string)
    requires s != [] && !IsWhitespace(s[0])
    ensures TrimEnd(s) != [] && TrimEnd(s)[0] == s[0]
  {
  }

  // ---------------------------------------------------------------------------
  // Splitting

  /** The index of the last occurrence of `c` in `s`. */
  function LastIndexOf(s: string, c: char): (r: Option<nat>)
    ensures r.Some? ==> r.value < |s| && s[r.value] == c
    ensures r.Some? ==> forall i :: r.value < i < |s| ==> s[i] != c
    ensures r.None? ==> forall i :: 0 <= i < |s| ==> s[i] != c
  {
    if |s| == 0 then None
    else if s[|s| - 1] == c then Some(|s| - 1)
    else LastIndexOf(s[..|s| - 1], c)
  }

  /** Rust's `str::rsplit_once(c)`: the parts before and after the last `c`. */
  function RSplitOnce(s: string, c: char): Option<(string, string)> {
    match LastIndexOf(s, c)
    case None => None
    case Some(i) => Some((s[..i], s[i + 1..]))
  }

  /** The index of the first occurrence of `c` in `s`. */
  function IndexOf(s: string, c: char): (r: Option<nat>)
    ensures r.Some? ==> r.value < |s| && s[r.value] == c
    ensures r.Some? ==> forall i :: 0 <= i < r.value ==> s[i] != c
    ensures r.None? ==> forall i :: 0 <= i < |s| ==> s[i] != c
  {
    if |s| == 0 then None
    else if s[0] == c then Some(0)
    else match IndexOf(s[1..], c)
      case None => None
      case Some(i) => Some(i + 1)
  }

  /** Rust's `str::lines`: split after every '\n', drop the line terminator
      ("\n" or "\r\n"), and yield no empty line after a final terminator. */
  function Lines(s: string): (r: seq<string>)
    ensures forall i :: 0 <= i < |r| ==> '\n' !in r[i]
    decreases |s|
  {
    if |s| == 0 then []
    else match IndexOf(s, '\n')
      case None => [s]
      case Some(i) =>
        var line := s[..i];
        var line := if |line| > 0 && line[|line| - 1] == '\r' then line[..|line| - 1] else line;
        [line] + Lines(s[i + 1..])
  }
}
