/**
 * Decimal text of integers as the item updater reads and writes attribute values:
 * `ShowInt` is Python's `str` on an int, `ParseInt` is Python's `int` on a string
 * (base 10).
 */
module IntText {
  import opened Wrappers

  predicate IsDigit(c: char) {
    '0' <= c <= '9'
  }

  function DigitValue(c: char): (d: nat)
    requires IsDigit(c)
    ensures d < 10
  {
    (c as int) - ('0' as int)
  }

  function DigitChar(d: nat): (c: char)
    requires d < 10
    ensures IsDigit(c) && DigitValue(c) == d
  {
    (('0' as int) + d) as char
  }

  /**
   * The white space `int()` strips from both ends of an ASCII argument: space,
   * tab, line feed, vertical tab, form feed and carriage return. The
   * separators U+001C to U+001F are not among them.
   */
  predicate IsSpace(c: char) {
    c == ' ' || 9 <= c as int <= 13
  }

  /** Decimal digits of `n`, most significant first, without leading zeros. */
  function ShowNat(n: nat): (s: string)
    ensures |s| > 0
    ensures forall i :: 0 <= i < |s| ==> IsDigit(s[i])
    ensures s[0] == '0' ==> n == 0
    ensures n < 10 <==> |s| == 1
    decreases n
  {
    if n < 10 then [DigitChar(n)] else ShowNat(n / 10) + [DigitChar(n % 10)]
  }

  /** `str(n)`: a minus sign for negative values, then the digits of the magnitude. */
  function ShowInt(n: int): (s: string)
    ensures |s| > 0 && !IsSpace(s[0]) && !IsSpace(s[|s| - 1])
    ensures s[0] == '-' <==> n < 0
  {
    if n < 0 then "-" + ShowNat(-n) else ShowNat(n)
  }

  /** `s` with its leading white space removed. */
  function TrimStart(s: string): (t: string)
    ensures |t| <= |s| && t == s[|s| - |t|..]
    ensures forall i :: 0 <= i < |s| - |t| ==> IsSpace(s[i])
    ensures |t| > 0 ==> !IsSpace(t[0])
  {
    if |s| > 0 && IsSpace(s[0]) then TrimStart(s[1..]) else s
  }

  /** `s` with its trailing white space removed. */
  function TrimEnd(s: string): (t: string)
    ensures |t| <= |s| && t == s[..|t|]
    ensures forall i :: |t| <= i < |s| ==> IsSpace(s[i])
    ensures |t| > 0 ==> !IsSpace(t[|t| - 1])
  {
    if |s| > 0 && IsSpace(s[|s| - 1]) then TrimEnd(s[..|s| - 1]) else s
  }

  function Strip(s: string): string {
    TrimEnd(TrimStart(s))
  }

  /**
   * The digit part `int()` accepts: digits and underscores, neither first nor
   * last an underscore, and no two underscores in a row, so that every
   * underscore sits between two digits.
   */
  predicate IsDigitGroup(s: string) {
    && |s| > 0
    && DigitsOrUnderscores(s)
    && s[0] != '_' && s[|s| - 1] != '_'
    && forall i :: 0 <= i < |s| - 1 ==> s[i] != '_' || s[i + 1] != '_'
  }

  predicate DigitsOrUnderscores(s: string) {
    forall i :: 0 <= i < |s| ==> IsDigit(s[i]) || s[i] == '_'
  }

  /** The number the digits of `s` spell, underscores skipped. */
  function DigitsValue(s: string): nat
    requires DigitsOrUnderscores(s)
  {
    if |s| == 0 then 0
    else if s[|s| - 1] == '_' then DigitsValue(s[..|s| - 1])
    else DigitsValue(s[..|s| - 1]) * 10 + DigitValue(s[|s| - 1])
  }

  /**
   * `int(s)`: strip white space, take an optional sign, then a digit group.
   * `None` is the `ValueError` Python raises on any other text.
   */
  function ParseInt(s: string): Option<int> {
    ParseSigned(Strip(s))
  }

  /** An optional sign followed by a digit group, nothing else. */
  function ParseSigned(t: string): Option<int> {
    var negative := |t| > 0 && t[0] == '-';
    var body := if |t| > 0 && (t[0] == '-' || t[0] == '+') then t[1..] else t;
    if IsDigitGroup(body) then
      var magnitude: int := DigitsValue(body);
      Some(if negative then -magnitude else magnitude)
    else
      None
  }

  lemma {:induction false} DigitsValueOfShowNat(n: nat)
    ensures DigitsOrUnderscores(ShowNat(n))
    ensures DigitsValue(ShowNat(n)) == n
    decreases n
  {
    var s := ShowNat(n);
    if n >= 10 {
      DigitsValueOfShowNat(n / 10);
      assert s[..|s| - 1] == ShowNat(n / 10);
    }
  }

  /** Reading back what `str` wrote yields the same integer. */
  lemma ParseShowRoundTrip(n: int)
    ensures ParseInt(ShowInt(n)) == Some(n)
  {
    var s := ShowInt(n);
    assert TrimStart(s) == s;
    assert TrimEnd(s) == s;
    var m: nat := if n < 0 then -n else n;
    DigitsValueOfShowNat(m);
    if n < 0 {
      assert s[1..] == ShowNat(m);
    } else {
      assert s == ShowNat(m);
    }
  }

  /**
   * The text `str` writes is canonical: after an optional minus sign come
   * only decimal digits, with no leading zero unless the value is zero. So
   * `str(20)` is "20" and never "+20", "020" or "2_0".
   */
  lemma ShowIntCanonical(n: int)
    ensures var s := ShowInt(n); var d := if n < 0 then s[1..] else s;
      && |d| > 0
      && (forall i :: 0 <= i < |d| ==> IsDigit(d[i]))
      && (d[0] == '0' ==> |d| == 1 && n == 0)
  {
    if n < 0 {
      assert ShowInt(n)[1..] == ShowNat(-n);
    }
  }

  lemma {:induction false} TrimStartOfPadding(pre: string, s: string)
    requires forall i :: 0 <= i < |pre| ==> IsSpace(pre[i])
    ensures TrimStart(pre + s) == TrimStart(s)
    decreases |pre|
  {
    if |pre| == 0 {
      assert pre + s == s;
    } else {
      assert (pre + s)[0] == pre[0];
      assert (pre + s)[1..] == pre[1..] + s;
      TrimStartOfPadding(pre[1..], s);
    }
  }

  lemma {:induction false} TrimEndOfPadding(s: string, post: string)
    requires forall i :: 0 <= i < |post| ==> IsSpace(post[i])
    ensures TrimEnd(s + post) == TrimEnd(s)
    decreases |post|
  {
    if |post| == 0 {
      assert s + post == s;
    } else {
      assert (s + post)[|s + post| - 1] == post[|post| - 1];
      assert (s + post)[..|s + post| - 1] == s + post[..|post| - 1];
      TrimEndOfPadding(s, post[..|post| - 1]);
    }
  }

  lemma {:induction false} TrimStartBeforePadding(s: string, post: string)
    requires forall i :: 0 <= i < |post| ==> IsSpace(post[i])
    ensures TrimStart(s) != [] ==> TrimStart(s + post) == TrimStart(s) + post
    ensures TrimStart(s) == [] ==> TrimStart(s + post) == []
    decreases |s|
  {
    if |s| == 0 {
      assert s + post == post + [];
      TrimStartOfPadding(post, []);
    } else if IsSpace(s[0]) {
      assert (s + post)[0] == s[0];
      assert (s + post)[1..] == s[1..] + post;
      TrimStartBeforePadding(s[1..], post);
    } else {
      assert (s + post)[0] == s[0];
    }
  }

  /** `int()` ignores white space around the number: padding never changes the result. */
  lemma ParseIgnoresPadding(pre: string, s: string, post: string)
    requires forall i :: 0 <= i < |pre| ==> IsSpace(pre[i])
    requires forall i :: 0 <= i < |post| ==> IsSpace(post[i])
    ensures ParseInt(pre + s + post) == ParseInt(s)
  {
    assert pre + s + post == pre + (s + post);
    TrimStartOfPadding(pre, s + post);
    TrimStartBeforePadding(s, post);
    if TrimStart(s) != [] {
      TrimEndOfPadding(TrimStart(s), post);
    }
    assert Strip(pre + s + post) == Strip(s);
    assert ParseInt(pre + s + post) == ParseSigned(Strip(s));
  }

  /** A file separator before the digits is not skipped: `int("\x1c5")` is a `ValueError`. */
  lemma SeparatorIsNotSpace()
    ensures ParseInt([28 as char, '5']) == None
  {
    var s := [28 as char, '5'];
    assert TrimStart(s) == s;
    assert TrimEnd(s) == s;
    assert !IsDigitGroup(s);
  }

  /** The literals `int()` accepts once white space is stripped: a digit group, optionally after one sign. */
  predicate IsIntLiteral(t: string) {
    || IsDigitGroup(t)
    || (|t| > 1 && (t[0] == '-' || t[0] == '+') && IsDigitGroup(t[1..]))
  }

  /**
   * `int()` accepts exactly the integer literals surrounded by white space,
   * and the value is negative only after a minus sign.
   */
  lemma ParseIntAccepts(s: string)
    ensures ParseInt(s).Some? <==> IsIntLiteral(Strip(s))
    ensures ParseInt(s).Some? && ParseInt(s).value < 0 ==> Strip(s)[0] == '-'
    ensures ParseInt(s).Some? && Strip(s)[0] == '-' ==> ParseInt(s).value <= 0
  {
    var t := Strip(s);
    if |t| > 0 && (t[0] == '-' || t[0] == '+') {
      assert !IsDigitGroup(t);
    }
  }

  /** Text without white space at either end is its own stripped form. */
  lemma StripUnpadded(t: string)
    requires |t| == 0 || (!IsSpace(t[0]) && !IsSpace(t[|t| - 1]))
    ensures Strip(t) == t
  {
  }

  /** A leading plus sign is accepted. */
  lemma ParsePlusSign()
    ensures ParseInt("+5") == Some(5)
  {
    StripUnpadded("+5");
    assert "+5"[1..] == "5";
    assert DigitsValue("5") == 5 by {
      assert "5"[..0] == "";
    }
  }

  /** Leading zeros are accepted. */
  lemma ParseLeadingZeros()
    ensures ParseInt("007") == Some(7)
  {
    StripUnpadded("007");
    assert DigitsValue("007") == 7 by {
      assert "007"[..2] == "00" && "00"[..1] == "0" && "0"[..0] == "";
    }
  }

  /** A single underscore between digits is accepted and skipped. */
  lemma ParseSingleUnderscore()
    ensures ParseInt("1_0") == Some(10)
  {
    StripUnpadded("1_0");
    assert DigitsValue("1_0") == 10 by {
      assert "1_0"[..2] == "1_" && "1_"[..1] == "1" && "1"[..0] == "";
    }
  }

  /** Two underscores in a row are rejected. */
  lemma ParseDoubleUnderscore()
    ensures ParseInt("1__0") == None
  {
    StripUnpadded("1__0");
    assert "1__0"[1] == '_' && "1__0"[2] == '_';
  }

  /** Blank text is rejected. */
  lemma ParseBlank()
    ensures ParseInt("") == None
  {
    StripUnpadded("");
  }
}
