/** Python's `int(text)` on a string: surrounding whitespace is ignored, then
    an optional sign and at least one ASCII decimal digit; anything else
    raises ValueError, modelled as None. */
module PyInt {
  import opened Wrappers

  /** The whitespace `int()` skips around a numeral: the ASCII characters
      tab, line feed, vertical tab, form feed, carriage return and space, and
      the non-ASCII whitespace U+0085, U+00A0, U+1680, U+2000 to U+200A,
      U+2028, U+2029, U+202F, U+205F and U+3000 (turned into spaces before
      parsing). The ASCII separators U+001C to U+001F, which `str.isspace()`
      counts, are not skipped. */
  predicate IsSpace(c: char) {
    var n := c as int;
    9 <= n <= 13 || n == 32 || n == 0x85 || n == 0xA0 || n == 0x1680 ||
    0x2000 <= n <= 0x200A || n == 0x2028 || n == 0x2029 || n == 0x202F || n == 0x205F || n == 0x3000
  }

  predicate IsDigit(c: char) {
    '0' <= c <= '9'
  }

  predicate AllDigits(s: string) {
    forall k :: 0 <= k < |s| ==> IsDigit(s[k])
  }

  /** `s` without the leading whitespace `int()` skips. */
  function TrimStart(s: string): (r: string)
    decreases |s|
    ensures |r| <= |s| && r == s[|s| - |r|..]
    ensures r == [] || !IsSpace(r[0])
  {
    if s != [] && IsSpace(s[0]) then TrimStart(s[1..]) else s
  }

  /** `s` without the trailing whitespace `int()` skips. */
  function TrimEnd(s: string): (r: string)
    decreases |s|
    ensures |r| <= |s| && r == s[..|r|]
    ensures r == [] || !IsSpace(r[|r| - 1])
  {
    if s != [] && IsSpace(s[|s| - 1]) then TrimEnd(s[..|s| - 1]) else s
  }

  /** The text `int()` parses: `s` without its surrounding whitespace, a piece
      of `s` that neither starts nor ends with whitespace. */
  function Strip(s: string): (r: string)
    ensures |r| <= |s|
    ensures r == [] || (!IsSpace(r[0]) && !IsSpace(r[|r| - 1]))
  {
    var t := TrimStart(s);
    var r := TrimEnd(t);
    assert r != [] ==> r[0] == t[0];
    r
  }

  /** An optional sign followed by one or more decimal digits. */
  predicate IsNumeral(t: string) {
    |t| > 0 &&
    if t[0] == '+' || t[0] == '-' then |t| > 1 && AllDigits(t[1..]) else AllDigits(t)
  }

  function DigitValue(c: char): nat
    requires IsDigit(c)
  {
    c as int - '0' as int
  }

  /** The value of one or more decimal digits, most significant first
      (leading zeros allowed); None for an empty string or a non-digit. */
  function ParseDigits(ds: string): Option<nat>
    decreases |ds|
  {
    if ds == [] || !IsDigit(ds[|ds| - 1]) then None
    else if |ds| == 1 then Some(DigitValue(ds[0]))
    else
      match ParseDigits(ds[..|ds| - 1])
      case None => None
      case Some(v) => Some(10 * v + DigitValue(ds[|ds| - 1]))
  }

  /** The value of an already stripped string: an optional sign, then
      digits. */
  function ParseNumeral(t: string): Option<int>
  {
    if t != [] && t[0] == '-' then
      match ParseDigits(t[1..])
      case None => None
      case Some(v) => Some(0 - v)
    else if t != [] && t[0] == '+' then
      match ParseDigits(t[1..])
      case None => None
      case Some(v) => Some(v)
    else
      match ParseDigits(t)
      case None => None
      case Some(v) => Some(v)
  }

  /** `int(s)`: None where Python raises ValueError. */
  function ParseInt(s: string): Option<int>
  {
    ParseNumeral(Strip(s))
  }

  lemma {:induction false} ParseDigitsAccepts(ds: string)
    decreases |ds|
    ensures ParseDigits(ds).Some? <==> |ds| > 0 && AllDigits(ds)
  {
    if |ds| > 1 {
      ParseDigitsAccepts(ds[..|ds| - 1]);
      assert forall k :: 0 <= k < |ds| - 1 ==> ds[..|ds| - 1][k] == ds[k];
    }
  }

  /** `int(s)` succeeds exactly when the stripped text is an optional sign
      followed by at least one digit. */
  lemma ParseIntAccepts(s: string)
    ensures ParseInt(s).Some? <==> IsNumeral(Strip(s))
  {
    var t := Strip(s);
    ParseDigitsAccepts(t);
    if |t| > 0 {
      ParseDigitsAccepts(t[1..]);
      if t[0] == '+' || t[0] == '-' {
        assert !IsDigit(t[0]);
      }
    }
  }

  /** The separators U+001C to U+001F are not skipped: `int('\x1c5')` raises
      ValueError, whatever follows the separator. */
  lemma SeparatorNotSkipped(c: char, t: string)
    requires 28 <= c as int <= 31
    ensures ParseInt([c] + t) == None
  {
    var s := [c] + t;
    assert !IsSpace(s[0]) && !IsDigit(s[0]);
    assert TrimStart(s) == s;
    var r := TrimEnd(s);
    assert Strip(s) == r;
    if r != [] {
      assert r[0] == s[0];
      assert !AllDigits(r);
    }
    assert !IsNumeral(r);
    ParseIntAccepts(s);
  }

  // ---------------------------------------------------------------------------
  // The inverse: `str(n)`, and the round trip int(str(n)) == n
  // ---------------------------------------------------------------------------

  function DigitChar(d: nat): (c: char)
    requires d < 10
    ensures IsDigit(c) && DigitValue(c) == d
  {
    ('0' as int + d) as char
  }

  /** The decimal digits of `n`, without leading zeros. */
  function NatToString(n: nat): (r: string)
    decreases n
    ensures |r| >= 1 && IsDigit(r[0]) && IsDigit(r[|r| - 1])
    ensures ParseDigits(r) == Some(n)
  {
    if n < 10 then [DigitChar(n)]
    else
      var r := NatToString(n / 10) + [DigitChar(n % 10)];
      assert r[..|r| - 1] == NatToString(n / 10);
      r
  }

  /** `str(n)`: a minus sign for negative numbers, then the digits. */
  function IntToString(n: int): (r: string)
    ensures |r| >= 1 && !IsSpace(r[0]) && !IsSpace(r[|r| - 1])
  {
    if n < 0 then "-" + NatToString(-n) else NatToString(n)
  }

  /** `int(str(n)) == n` for every integer. */
  lemma ParseIntRoundTrip(n: int)
    ensures ParseInt(IntToString(n)) == Some(n)
  {
    var s := IntToString(n);
    assert TrimStart(s) == s;
    assert Strip(s) == s;
    if n < 0 {
      assert s[1..] == NatToString(-n);
    }
  }

  /** Whitespace around a numeral does not change its value: `int(" 42\n")
      == 42`. */
  lemma ParseIntIgnoresSpace(pre: string, t: string, post: string)
    requires forall k :: 0 <= k < |pre| ==> IsSpace(pre[k])
    requires forall k :: 0 <= k < |post| ==> IsSpace(post[k])
    requires |t| > 0 && !IsSpace(t[0]) && !IsSpace(t[|t| - 1])
    ensures Strip(pre + t + post) == t
    ensures ParseInt(pre + t + post) == ParseInt(t)
  {
    assert (t + post)[0] == t[0];
    TrimStartSpaces(pre, t + post);
    assert pre + t + post == pre + (t + post);
    TrimEndSpaces(t, post);
    assert TrimStart(t) == t;
    assert Strip(t) == t;
  }

  lemma {:induction false} TrimStartSpaces(pre: string, s: string)
    requires forall k :: 0 <= k < |pre| ==> IsSpace(pre[k])
    requires s == [] || !IsSpace(s[0])
    ensures TrimStart(pre + s) == s
    decreases |pre|
  {
    if pre != [] {
      assert (pre + s)[1..] == pre[1..] + s;
      TrimStartSpaces(pre[1..], s);
    } else {
      assert pre + s == s;
    }
  }

  lemma {:induction false} TrimEndSpaces(s: string, post: string)
    requires forall k :: 0 <= k < |post| ==> IsSpace(post[k])
    requires s == [] || !IsSpace(s[|s| - 1])
    ensures TrimEnd(s + post) == s
    decreases |post|
  {
    if post != [] {
      assert (s + post)[..|s + post| - 1] == s + post[..|post| - 1];
      TrimEndSpaces(s, post[..|post| - 1]);
    } else {
      assert s + post == s;
    }
  }
}
