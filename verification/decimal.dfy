/** Decimal text of Swift's `Int`: string interpolation and `Int(String)`,
    and the round trip between them. */
module Decimal {
  import opened Optional

  const Int64Min: int := -0x8000_0000_0000_0000
  const Int64Max: int := 0x7FFF_FFFF_FFFF_FFFF

  /** A value of Swift's 64-bit `Int`. */
  predicate InInt64(k: int)
  {
    Int64Min <= k <= Int64Max
  }

  predicate IsDigit(c: char)
  {
    '0' <= c <= '9'
  }

  predicate AllDigits(s: string)
  {
    forall i :: 0 <= i < |s| ==> IsDigit(s[i])
  }

  function DigitChar(d: int): (c: char)
    requires 0 <= d < 10
    ensures IsDigit(c) && c as int - '0' as int == d
  {
    ('0' as int + d) as char
  }

  /** The decimal digits of `n`, most significant first, no leading zeros. */
  function NatString(n: nat): (s: string)
    ensures |s| >= 1 && AllDigits(s)
  {
    if n < 10 then [DigitChar(n)] else NatString(n / 10) + [DigitChar(n % 10)]
  }

  /** String interpolation of an `Int`: a minus sign, then the digits. */
  function IntString(k: int): (s: string)
    ensures |s| >= 1
    ensures forall i :: 0 <= i < |s| ==> s[i] == '-' || IsDigit(s[i])
  {
    if k < 0 then "-" + NatString(-k) else NatString(k)
  }

  /** The value of a string of decimal digits. */
  function DigitsValue(s: string): nat
    requires AllDigits(s)
  {
    if s == [] then 0 else DigitsValue(s[..|s| - 1]) * 10 + (s[|s| - 1] as int - '0' as int)
  }

  /** `Int(String)`: an optional sign, then at least one digit, and the value
      must fit in 64 bits; anything else is nil. */
  function ParseInt(s: string): (r: Option<int>)
    ensures r.Some? ==> InInt64(r.value)
  {
    if s == [] then None
    else
      var body := if s[0] == '-' || s[0] == '+' then s[1..] else s;
      if body == [] || !AllDigits(body) then None
      else
        var v: int := if s[0] == '-' then -(DigitsValue(body) as int) else DigitsValue(body);
        if InInt64(v) then Some(v) else None
  }

  lemma {:induction false} DigitsOfNat(n: nat)
    ensures DigitsValue(NatString(n)) == n
  {
    if n >= 10 {
      DigitsOfNat(n / 10);
      var s := NatString(n);
      assert s[..|s| - 1] == NatString(n / 10);
    }
  }

  /** Plain digits parse to their value. */
  lemma ParseDigits(s: string)
    requires |s| >= 1 && AllDigits(s) && InInt64(DigitsValue(s))
    ensures ParseInt(s) == Some(DigitsValue(s))
  {
    assert IsDigit(s[0]);
  }

  /** A minus sign then digits parse to the negated value. */
  lemma ParseMinus(s: string)
    requires |s| >= 1 && AllDigits(s) && InInt64(-(DigitsValue(s) as int))
    ensures ParseInt("-" + s) == Some(-(DigitsValue(s) as int))
  {
    var t := "-" + s;
    assert t[0] == '-' && t[1..] == s;
  }

  /** Parsing the interpolated text of an `Int` gives it back. */
  lemma ParseIntString(k: int)
    requires InInt64(k)
    ensures ParseInt(IntString(k)) == Some(k)
  {
    if k < 0 {
      var t := NatString(-k);
      DigitsOfNat(-k);
      ParseMinus(t);
      assert IntString(k) == "-" + t;
    } else {
      var t := NatString(k);
      DigitsOfNat(k);
      ParseDigits(t);
      assert IntString(k) == t;
    }
  }
}
