/** Integers as text: Python's `int(s)` on a string, which the graph-file
    reader applies to stored attributes and the tensor converter to node
    identifiers, and decimal rendering, its partner. */
module IntText {
  import opened Wrappers
  import opened Chars

  /** The ASCII whitespace `int` strips around its argument: space, tab,
      line feed, vertical tab, form feed, carriage return, and the four
      separators U+001C to U+001F. */
  predicate IsSpace(c: char)
  {
    c == ' ' || '\t' <= c <= '\r' || '\U{001C}' <= c <= '\U{001F}'
  }

  function TrimStart(s: string): (t: string)
    ensures |t| <= |s| && t == s[|s| - |t|..]
    ensures |t| > 0 ==> !IsSpace(t[0])
  {
    if |s| > 0 && IsSpace(s[0]) then TrimStart(s[1..]) else s
  }

  function TrimEnd(s: string): (t: string)
    ensures |t| <= |s| && t == s[..|t|]
    ensures |t| > 0 ==> !IsSpace(t[|t| - 1])
  {
    if |s| > 0 && IsSpace(s[|s| - 1]) then TrimEnd(s[..|s| - 1]) else s
  }

  function Strip(s: string): string
  {
    TrimEnd(TrimStart(s))
  }

  predicate AllDigits(s: string)
  {
    forall k :: 0 <= k < |s| ==> IsDigit(s[k])
  }

  /** Digits with single underscores between them, as `int` accepts. */
  predicate IsDigitBody(b: string)
  {
    && |b| > 0 && IsDigit(b[0]) && IsDigit(b[|b| - 1])
    && (forall k :: 0 <= k < |b| ==> IsDigit(b[k]) || b[k] == '_')
    && (forall k :: 0 <= k < |b| - 1 ==> b[k] == '_' ==> b[k + 1] != '_')
  }

  /** The base-10 value of digits and underscores, underscores skipped. */
  function BodyValue(b: string): nat
    requires forall k :: 0 <= k < |b| ==> IsDigit(b[k]) || b[k] == '_'
  {
    if |b| == 0 then 0
    else if b[|b| - 1] == '_' then BodyValue(b[..|b| - 1])
    else 10 * BodyValue(b[..|b| - 1]) + DigitValue(b[|b| - 1])
  }

  /** `int(s)` for a string `s`: surrounding whitespace, an optional sign,
      then a digit body; anything else raises, modelled as `None`. */
  function ParseInt(s: string): (r: Option<int>)
    ensures r.Some? ==> exists k :: 0 <= k < |s| && IsDigit(s[k])
    ensures |s| > 0 && AllDigits(s) ==> r == Some(BodyValue(s))
    ensures r.Some? && r.value < 0 ==> exists k :: 0 <= k < |s| && s[k] == '-'
  {
    AllDigitsRead(s);
    var t := Strip(s);
    if |t| > 0 && (t[0] == '-' || t[0] == '+') then
      if IsDigitBody(t[1..]) then
        StripKeepsChar(s, 0);
        StripKeepsChar(s, 1);
        var v: int := BodyValue(t[1..]);
        Some(if t[0] == '-' then -v else v)
      else None
    else if IsDigitBody(t) then
      StripKeepsChar(s, 0);
      Some(BodyValue(t))
    else None
  }

  /** Stripping only removes characters from the two ends: every character
      of the stripped text is a character of the original. */
  lemma StripKeepsChar(s: string, m: nat)
    requires m < |Strip(s)|
    ensures exists k :: 0 <= k < |s| && s[k] == Strip(s)[m]
  {
    var front := TrimStart(s);
    var off := |s| - |front|;
    assert Strip(s)[m] == front[m];
    assert front[m] == s[off + m];
  }

  /** The decimal digits of a natural number, most significant first. */
  function NatToString(n: nat): (s: string)
    ensures |s| > 0 && IsDigit(s[0])
    ensures forall k :: 0 <= k < |s| ==> IsDigit(s[k])
    ensures BodyValue(s) == n
  {
    if n < 10 then [DigitChar(n)]
    else
      var prefix := NatToString(n / 10);
      var s := prefix + [DigitChar(n % 10)];
      assert s[..|s| - 1] == prefix;
      s
  }

  /** `str(n)` for an integer: a minus sign for negatives, then the digits. */
  function IntToString(n: int): string
  {
    if n < 0 then "-" + NatToString(-n) else NatToString(n)
  }

  /** Reading back a rendered integer gives the integer. */
  lemma ParseIntToString(n: int)
    ensures ParseInt(IntToString(n)) == Some(n)
  {
    if n < 0 {
      ParseNegative(n);
    } else {
      ParseNonNegative(n);
    }
  }

  lemma DigitsAreBody(d: nat)
    ensures IsDigitBody(NatToString(d))
  {
  }

  lemma ParseNonNegative(n: int)
    requires n >= 0
    ensures ParseInt(IntToString(n)) == Some(n)
  {
    var s := NatToString(n);
    assert IntToString(n) == s;
    DigitsAreBody(n);
    StripUnpadded(s);
  }

  lemma ParseNegative(n: int)
    requires n < 0
    ensures ParseInt(IntToString(n)) == Some(n)
  {
    var digits := NatToString(-n);
    var s := "-" + digits;
    assert IntToString(n) == s;
    DigitsAreBody(-n);
    assert s[1..] == digits;
    StripUnpadded(s);
  }

  /** A run of digits is its own stripped form and its own digit body. */
  lemma AllDigitsRead(s: string)
    ensures |s| > 0 && AllDigits(s) ==> Strip(s) == s && IsDigitBody(s)
  {
    if |s| > 0 && AllDigits(s) {
      StripUnpadded(s);
    }
  }

  /** A string that neither starts nor ends with whitespace is left as it is. */
  lemma StripUnpadded(s: string)
    requires |s| > 0 && !IsSpace(s[0]) && !IsSpace(s[|s| - 1])
    ensures Strip(s) == s
  {
  }

  /** Rendering is injective, so distinct integers stay distinct as text. */
  lemma IntToStringInjective(m: int, n: int)
    ensures IntToString(m) == IntToString(n) ==> m == n
  {
    ParseIntToString(m);
    ParseIntToString(n);
  }
}
