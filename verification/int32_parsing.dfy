/**
 * `Int32.TryParse(string, out int)` in the invariant culture, which several
 * of the utilities call: leading and trailing white space, an optional sign,
 * at least one ASCII digit, and a value in the `int` range. `Format` is the
 * decimal rendering it inverts.
 */
module Int32Parsing {

  import opened DotNet

  /** The white space `NumberStyles.Integer` allows: U+0009 to U+000D and U+0020. */
  predicate IsWhiteSpace(c: char)
  {
    c == ' ' || '\t' <= c <= '\r'
  }

  predicate IsAsciiDigit(c: char)
  {
    '0' <= c <= '9'
  }

  predicate AllDigits(s: string)
  {
    forall i :: 0 <= i < |s| ==> IsAsciiDigit(s[i])
  }

  function TrimStart(s: string): (t: string)
    ensures |t| <= |s| && t == s[|s| - |t|..]
    ensures t == [] || !IsWhiteSpace(t[0])
    ensures forall i :: 0 <= i < |s| - |t| ==> IsWhiteSpace(s[i])
  {
    if |s| > 0 && IsWhiteSpace(s[0]) then TrimStart(s[1..]) else s
  }

  function TrimEnd(s: string): (t: string)
    ensures |t| <= |s| && t == s[..|t|]
    ensures t == [] || !IsWhiteSpace(t[|t| - 1])
    ensures forall i :: |t| <= i < |s| ==> IsWhiteSpace(s[i])
  {
    if |s| > 0 && IsWhiteSpace(s[|s| - 1]) then TrimEnd(s[..|s| - 1]) else s
  }

  function DigitValue(c: char): nat
    requires IsAsciiDigit(c)
  {
    (c as int - '0' as int) as nat
  }

  function DigitChar(d: nat): (c: char)
    requires d < 10
    ensures IsAsciiDigit(c) && DigitValue(c) == d
  {
    ('0' as int + d) as char
  }

  /** The value of a run of decimal digits, most significant first. */
  function DigitsValue(ds: string): nat
    requires AllDigits(ds)
  {
    if |ds| == 0 then 0 else 10 * DigitsValue(ds[..|ds| - 1]) + DigitValue(ds[|ds| - 1])
  }

  /** Int32.TryParse: `None` is the `false` return. */
  function TryParse(s: string): (r: Option<int>)
    ensures r.Some? ==> IsInt32(r.value)
    ensures r.Some? ==> exists i :: 0 <= i < |s| && IsAsciiDigit(s[i])
  {
    var t := TrimEnd(TrimStart(s));
    if |t| == 0 then None
    else
      var negative := t[0] == '-';
      var digits := if t[0] == '-' || t[0] == '+' then t[1..] else t;
      if |digits| == 0 || !AllDigits(digits) then None
      else
        var v: int := if negative then 0 - DigitsValue(digits) as int else DigitsValue(digits);
        if IsInt32(v) then
          assert IsAsciiDigit(digits[0]);
          Some(v)
        else None
  }

  /** Decimal digits of a natural number, without leading zeros. */
  function NatDigits(n: nat): (ds: string)
    ensures |ds| >= 1 && AllDigits(ds)
  {
    if n < 10 then [DigitChar(n)] else NatDigits(n / 10) + [DigitChar(n % 10)]
  }

  /** `int.ToString()` in the invariant culture. */
  function Format(v: int): string
  {
    if v < 0 then "-" + NatDigits(-v) else NatDigits(v)
  }

  lemma {:induction false} NatDigitsValue(n: nat)
    ensures DigitsValue(NatDigits(n)) == n
  {
    if n >= 10 {
      var ds := NatDigits(n);
      assert ds[..|ds| - 1] == NatDigits(n / 10);
      NatDigitsValue(n / 10);
    }
  }

  /** A string with no white space at either end is left alone by trimming. */
  lemma Untrimmed(s: string)
    requires |s| > 0 && !IsWhiteSpace(s[0]) && !IsWhiteSpace(s[|s| - 1])
    ensures TrimEnd(TrimStart(s)) == s
  {
    assert TrimStart(s) == s;
  }

  /** An unsigned run of digits parses to its value when that is an `int`. */
  lemma ParseUnsigned(ds: string)
    requires |ds| > 0 && AllDigits(ds) && IsInt32(DigitsValue(ds))
    ensures TryParse(ds) == Some(DigitsValue(ds) as int)
  {
    assert IsAsciiDigit(ds[0]) && IsAsciiDigit(ds[|ds| - 1]);
    Untrimmed(ds);
  }

  /** A minus sign followed by a run of digits parses to the negated value when that is an `int`. */
  lemma ParseNegated(s: string)
    requires |s| > 1 && s[0] == '-' && AllDigits(s[1..]) && IsInt32(0 - DigitsValue(s[1..]))
    ensures TryParse(s) == Some(0 - DigitsValue(s[1..]))
  {
    assert IsAsciiDigit(s[1..][|s| - 2]);
    Untrimmed(s);
  }

  /** TryParse reads back every `int` that Format writes. */
  lemma ParseFormat(v: int)
    requires IsInt32(v)
    ensures TryParse(Format(v)) == Some(v)
  {
    if v < 0 {
      NatDigitsValue(-v);
      assert Format(v)[1..] == NatDigits(-v);
      ParseNegated(Format(v));
    } else {
      NatDigitsValue(v);
      ParseUnsigned(NatDigits(v));
    }
  }

  /** A one-character string parses exactly when it is a digit, to that digit's value. */
  lemma TryParseOneChar(c: char)
    ensures TryParse([c]) == if IsAsciiDigit(c) then Some(DigitValue(c)) else None
  {
    if IsAsciiDigit(c) {
      assert DigitsValue([c]) == 10 * DigitsValue([]) + DigitValue(c);
    }
  }
}
