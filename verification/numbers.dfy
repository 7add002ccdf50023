/**
  Decimal integers as Python's `int(text)` reads them and as `str(n)` (or an
  f-string `{n}`) writes them.
 */
module Numbers {
  import opened Wrappers
  import opened Text

  predicate IsDigit(c: char) {
    '0' <= c <= '9'
  }

  /** A non-empty run of ASCII decimal digits. */
  predicate IsDigits(s: string) {
    |s| > 0 && forall i :: 0 <= i < |s| ==> IsDigit(s[i])
  }

  /** Digits with no superfluous leading zero: the way `str(n)` writes `n >= 0`. */
  predicate IsCanonical(s: string) {
    IsDigits(s) && (s[0] != '0' || |s| == 1)
  }

  function DigitValue(c: char): (d: nat)
    requires IsDigit(c)
    ensures d < 10
  {
    (c as int) - ('0' as int)
  }

  function DigitChar(d: nat): (c: char)
    requires d < 10
    ensures IsDigit(c) && DigitValue(c) == d
  {
    ('0' as int + d) as char
  }

  /** The value of a string of digits, most significant first. */
  function DigitsValue(s: string): nat
    requires forall i :: 0 <= i < |s| ==> IsDigit(s[i])
  {
    if s == [] then 0 else DigitsValue(s[..|s| - 1]) * 10 + DigitValue(s[|s| - 1])
  }

  /** `str(n)` for a natural number. */
  function NatToString(n: nat): (s: string)
    ensures IsCanonical(s)
  {
    if n < 10 then [DigitChar(n)] else NatToString(n / 10) + [DigitChar(n % 10)]
  }

  /** `str(n)`: a minus sign for negatives, then the digits of `|n|`. */
  function IntToString(n: int): (s: string)
    ensures n >= 0 ==> IsCanonical(s)
    ensures n < 0 ==> |s| > 1 && s[0] == '-' && IsCanonical(s[1..])
  {
    if n < 0 then "-" + NatToString(-n) else NatToString(n)
  }

  /** An optional sign followed by a non-empty run of digits, read as an integer. */
  function ParseSigned(t: string): Option<int> {
    if |t| > 0 && (t[0] == '+' || t[0] == '-') then
      if IsDigits(t[1..]) then
        var v: int := DigitsValue(t[1..]);
        Some(if t[0] == '-' then -v else v)
      else None
    else if IsDigits(t) then Some(DigitsValue(t))
    else None
  }

  /**
    The whitespace `int()` skips around a number. It first turns every
    non-ASCII whitespace character into a space, then skips only ASCII space,
    tab, line feed, vertical tab, form feed and carriage return. So this is
    Python whitespace except the separators U+001C to U+001F, which
    `str.isspace()` accepts but `int()` rejects.
   */
  predicate IsIntSpace(c: char) {
    IsSpace(c) && !('\U{1C}' <= c <= '\U{1F}')
  }

  /** Every character is whitespace to `int()`. */
  predicate IsIntBlank(s: string) {
    forall i :: 0 <= i < |s| ==> IsIntSpace(s[i])
  }

  /** Drops the leading run of whitespace that `int()` skips. */
  function SkipIntSpace(s: string): (r: string)
    ensures |r| <= |s| && r == s[|s| - |r|..]
    ensures IsIntBlank(s[..|s| - |r|])
    ensures r == [] || !IsIntSpace(r[0])
  {
    if s == [] || !IsIntSpace(s[0]) then s else SkipIntSpace(s[1..])
  }

  /** Drops the trailing run of whitespace that `int()` skips. */
  function DropIntSpace(s: string): (r: string)
    ensures |r| <= |s| && r == s[..|r|]
    ensures IsIntBlank(s[|r|..])
    ensures r == [] || !IsIntSpace(r[|r| - 1])
  {
    if s == [] || !IsIntSpace(s[|s| - 1]) then s else DropIntSpace(s[..|s| - 1])
  }

  /**
    `int(text)` in base 10: the whitespace `int()` skips is ignored at both
    ends, and an optional sign may precede a non-empty run of digits.
    Anything else is a failure (Python raises ValueError).
   */
  function ParseInt(text: string): Option<int> {
    ParseSigned(DropIntSpace(SkipIntSpace(text)))
  }

  /** Text that neither starts nor ends with whitespace is parsed as it stands. */
  lemma ParseIntUntrimmed(text: string)
    requires text == [] || (!IsIntSpace(text[0]) && !IsIntSpace(text[|text| - 1]))
    ensures ParseInt(text) == ParseSigned(text)
  {
  }

  /** A leading separator (U+001C to U+001F) is not skipped, and no number
      starts with it: `int()` rejects the text whatever follows. */
  lemma SeparatorRejected(c: char, rest: string)
    requires '\U{1C}' <= c <= '\U{1F}'
    ensures ParseInt([c] + rest) == None
  {
    var t := [c] + rest;
    assert !IsIntSpace(t[0]);
    var u := DropIntSpace(SkipIntSpace(t));
    assert SkipIntSpace(t) == t;
    assert u != [] && u[0] == c;
    assert !IsDigit(u[0]);
  }

  /** A plain run of digits is read as its decimal value. */
  lemma ParseIntOfDigits(text: string)
    requires IsDigits(text)
    ensures ParseInt(text) == Some(DigitsValue(text))
  {
    assert !IsIntSpace(text[0]) && !IsIntSpace(text[|text| - 1]);
    ParseIntUntrimmed(text);
  }

  lemma {:induction false} DigitsValueOfNatToString(n: nat)
    ensures DigitsValue(NatToString(n)) == n
  {
    if n >= 10 {
      var s := NatToString(n);
      assert s[..|s| - 1] == NatToString(n / 10);
      DigitsValueOfNatToString(n / 10);
    }
  }

  /** A canonical digit string with a leading non-zero digit is worth at least one. */
  lemma {:induction false} CanonicalPositive(s: string)
    requires IsDigits(s) && s[0] != '0'
    ensures DigitsValue(s) >= 1
  {
    if |s| > 1 {
      CanonicalPositive(s[..|s| - 1]);
    }
  }

  lemma {:induction false} NatToStringOfDigitsValue(s: string)
    requires IsCanonical(s)
    ensures NatToString(DigitsValue(s)) == s
  {
    if |s| > 1 {
      var p := s[..|s| - 1];
      CanonicalPositive(p);
      NatToStringOfDigitsValue(p);
      assert s == p + [s[|s| - 1]];
    }
  }

  /** Reading back what `str(n)` wrote gives `n` back, for every integer. */
  lemma ParseIntOfIntToString(n: int)
    ensures ParseInt(IntToString(n)) == Some(n)
  {
    var s := IntToString(n);
    assert !IsIntSpace(s[0]) && !IsIntSpace(s[|s| - 1]);
    ParseIntUntrimmed(s);
    if n < 0 {
      var d := NatToString(-n);
      assert s[1..] == d;
      DigitsValueOfNatToString(-n);
      assert ParseSigned(s) == Some(-(DigitsValue(d) as int));
    } else {
      DigitsValueOfNatToString(n);
      assert ParseSigned(s) == Some(DigitsValue(s));
    }
  }

  /** Conversely, a canonical digit string is reproduced by `str(int(s))`. */
  lemma IntToStringOfParseInt(s: string)
    requires IsCanonical(s)
    ensures ParseInt(s).Some? && IntToString(ParseInt(s).value) == s
  {
    ParseIntOfDigits(s);
    NatToStringOfDigitsValue(s);
  }
}
