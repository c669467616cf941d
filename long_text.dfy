/**
  Decimal text of a C# `long`: `long.ToString()` and `long.TryParse(string, out long)`
  under the invariant-culture signs `+` and `-`. `TryParse` uses
  `NumberStyles.Integer`: optional white space, an optional sign, one or more
  decimal digits, optional white space, and a value in [-2^63, 2^63 - 1].
*/
module LongText {
  import opened Wrappers
  import opened Text

  const MinLong: int := -0x8000_0000_0000_0000
  const MaxLong: int := 0x7FFF_FFFF_FFFF_FFFF

  /** The values of a C# `long` (System.Int64). */
  type Long = n: int | -0x8000_0000_0000_0000 <= n <= 0x7FFF_FFFF_FFFF_FFFF

  predicate IsDigit(c: char) {
    '0' <= c <= '9'
  }

  predicate AllDigits(s: string) {
    forall i :: 0 <= i < |s| ==> IsDigit(s[i])
  }

  function DigitChar(d: nat): (c: char)
    requires d < 10
    ensures IsDigit(c) && (c as int) - ('0' as int) == d
  {
    ('0' as int + d) as char
  }

  /** The number a string of decimal digits denotes, most significant first. */
  function DigitsValue(s: string): nat
    requires AllDigits(s)
  {
    if |s| == 0 then 0
    else 10 * DigitsValue(s[..|s| - 1]) + ((s[|s| - 1] as int) - ('0' as int))
  }

  /** Shortest decimal digits of `n`; reading them back gives `n`. */
  function FormatNat(n: nat): (r: string)
    ensures |r| > 0 && AllDigits(r)
    ensures DigitsValue(r) == n
    ensures |r| > 1 ==> r[0] != '0'
  {
    if n < 10 then [DigitChar(n)]
    else
      var r := FormatNat(n / 10) + [DigitChar(n % 10)];
      assert r[..|r| - 1] == FormatNat(n / 10);
      r
  }

  /** Decimal text of any integer: `-` then the digits of its magnitude when negative. */
  function FormatInt(n: int): (r: string)
    ensures |r| > 0 && !IsWhite(r[0]) && !IsWhite(r[|r| - 1])
    ensures (r[0] == '-') == (n < 0)
  {
    if n < 0 then "-" + FormatNat(-n) else FormatNat(n)
  }

  /** `long.ToString()`: a `-` for a negative value, then the shortest decimal digits
      of the magnitude. */
  function FormatLong(n: Long): (r: string)
    ensures |r| > 0 && (r[0] == '-') == (n < 0)
    ensures var digits := if n < 0 then r[1..] else r;
            && |digits| > 0 && AllDigits(digits)
            && DigitsValue(digits) == (if n < 0 then 0 - n as int else n as int)
            && (|digits| > 1 ==> digits[0] != '0')
  {
    var m: int := n;
    var r := FormatInt(m);
    assert m < 0 ==> r[1..] == FormatNat(-m);
    r
  }

  /** `long.TryParse(s, out v)`: `Some(v)` when it returns true. A text it accepts is,
      once trimmed, a sign or a digit followed by digits only, and a negative value
      comes only with a leading `-`. */
  function ParseLong(s: string): (r: Option<Long>)
    ensures r.Some? ==> |Trim(s)| > 0
    ensures r.Some? ==> IsDigit(Trim(s)[0]) || (|Trim(s)| > 1 && (Trim(s)[0] == '+' || Trim(s)[0] == '-'))
    ensures r.Some? ==> forall i :: 0 < i < |Trim(s)| ==> IsDigit(Trim(s)[i])
    ensures r.Some? && r.value < 0 ==> Trim(s)[0] == '-'
  {
    var t := Trim(s);
    if |t| == 0 then None
    else
      var negative := t[0] == '-';
      var digits := if t[0] == '-' || t[0] == '+' then t[1..] else t;
      if |digits| == 0 || !AllDigits(digits) then None
      else
        var v: int := if negative then 0 - DigitsValue(digits) else DigitsValue(digits);
        assert forall i :: 0 < i < |t| ==> IsDigit(t[i]) by {
          forall i | 0 < i < |t| ensures IsDigit(t[i]) {
            if t[0] == '-' || t[0] == '+' { assert t[i] == digits[i - 1]; } else { assert t[i] == digits[i]; }
          }
        }
        assert !(t[0] == '-' || t[0] == '+') ==> IsDigit(digits[0]);
        if MinLong <= v <= MaxLong then Some(v) else None
  }

  /** Unsigned digits, leading zeros allowed, are read as their value when it fits. */
  lemma ParseUnsigned(digits: string)
    requires |digits| > 0 && AllDigits(digits)
    ensures ParseLong(digits) == if DigitsValue(digits) <= MaxLong then Some(DigitsValue(digits) as Long) else None
  {
    TrimOfUnpadded(digits);
  }

  /** A leading `+` changes nothing. */
  lemma ParsePlus(digits: string)
    requires |digits| > 0 && AllDigits(digits)
    ensures ParseLong("+" + digits) == ParseLong(digits)
  {
    var s := "+" + digits;
    TrimOfUnpadded(s);
    TrimOfUnpadded(digits);
    assert s[1..] == digits;
  }

  /** A leading `-` negates the value, which must then fit; `-0` reads as 0. */
  lemma ParseMinus(digits: string)
    requires |digits| > 0 && AllDigits(digits)
    ensures ParseLong("-" + digits) ==
            if MinLong <= 0 - DigitsValue(digits) then Some((0 - DigitsValue(digits)) as Long) else None
  {
    var s := "-" + digits;
    TrimOfUnpadded(s);
    assert s[1..] == digits;
  }

  /** Reading back the text of a `long` gives the same `long`. */
  lemma ParseFormatLong(n: Long)
    ensures ParseLong(FormatLong(n)) == Some(n)
  {
    var m: int := n;
    var s := FormatInt(m);
    TrimOfUnpadded(s);
    if m < 0 {
      assert s[1..] == FormatNat(-m);
    }
  }

  /** The range check: the text of an integer outside `long` is refused. */
  lemma ParseRejectsOutOfRange(n: int)
    requires n < MinLong || MaxLong < n
    ensures ParseLong(FormatInt(n)) == None
  {
    var s := FormatInt(n);
    TrimOfUnpadded(s);
    if n < 0 {
      assert s[1..] == FormatNat(-n);
    }
  }

  /** Any run of leading and any run of trailing white space is skipped. */
  lemma ParseIgnoresSurroundingWhite(pre: string, s: string, post: string)
    requires AllWhite(pre) && AllWhite(post)
    ensures ParseLong(pre + s + post) == ParseLong(s)
  {
    TrimIgnoresSurroundingWhite(pre, s, post);
  }
}
