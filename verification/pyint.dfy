/**
  Python's `int(s)` for the token shapes the bot passes it (an optional sign
  followed by ASCII digits) and `str(n)` for integers.
 */
module PyInt {
  import opened Optional

  predicate IsDigit(c: char) {
    '0' <= c <= '9'
  }

  predicate AllDigits(s: string) {
    forall i :: 0 <= i < |s| ==> IsDigit(s[i])
  }

  function DigitValue(c: char): (d: nat)
    requires IsDigit(c)
    ensures d < 10
  {
    c as int - '0' as int
  }

  function DigitChar(d: nat): (c: char)
    requires d < 10
    ensures IsDigit(c) && DigitValue(c) == d
  {
    ('0' as int + d) as char
  }

  /** Decimal value of a digit string, most significant digit first. */
  function DigitsValue(s: string): nat
    requires AllDigits(s)
  {
    if |s| == 0 then 0 else 10 * DigitsValue(s[..|s| - 1]) + DigitValue(s[|s| - 1])
  }

  /** The digits after an optional leading `+` or `-`. */
  function Unsigned(s: string): string {
    if |s| > 0 && (s[0] == '+' || s[0] == '-') then s[1..] else s
  }

  /** Python's `int(s)` on a token: `None` stands for the `ValueError` it raises. */
  function ParseInt(s: string): (r: Option<int>)
    ensures r.Some? <==> |Unsigned(s)| > 0 && AllDigits(Unsigned(s))
    ensures r.Some? ==> (r.value < 0 ==> s[0] == '-')
  {
    var d := Unsigned(s);
    if |d| == 0 || !AllDigits(d) then None
    else
      var v: int := DigitsValue(d);
      if s[0] == '-' then Some(-v) else Some(v)
  }

  /** A leading zero does not change the value of a digit string. */
  lemma {:induction false} ZeroFront(d: string)
    requires AllDigits(d)
    ensures AllDigits("0" + d) && DigitsValue("0" + d) == DigitsValue(d)
    decreases |d|
  {
    var s := "0" + d;
    if |d| > 0 {
      var p, q := d[..|d| - 1], s[..|s| - 1];
      assert q == "0" + p;
      assert s[|s| - 1] == d[|d| - 1];
      ZeroFront(p);
    } else {
      assert s[..|s| - 1] == [];
    }
  }

  /** `int()` of a digit string is its decimal value; leading zeros do not
      change it, a `+` keeps it and a `-` negates it. */
  lemma ParseIntLaws(d: string)
    requires |d| > 0 && AllDigits(d)
    ensures ParseInt(d) == Some(DigitsValue(d) as int)
    ensures ParseInt("0" + d) == ParseInt(d)
    ensures ParseInt("+" + d) == ParseInt(d)
    ensures ParseInt("-" + d) == Some(-ParseInt(d).value)
  {
    ParseDigits(d);
    ParseZero(d);
    ParsePlus(d);
    ParseMinus(d);
  }

  lemma ParseDigits(d: string)
    requires |d| > 0 && AllDigits(d)
    ensures ParseInt(d) == Some(DigitsValue(d) as int)
  {
    assert IsDigit(d[0]);
  }

  lemma ParseZero(d: string)
    requires |d| > 0 && AllDigits(d)
    ensures ParseInt("0" + d) == ParseInt(d)
  {
    ZeroFront(d);
    ParseDigits(d);
    ParseDigits("0" + d);
  }

  lemma ParsePlus(d: string)
    requires |d| > 0 && AllDigits(d)
    ensures ParseInt("+" + d) == ParseInt(d)
  {
    var t := "+" + d;
    assert t[0] == '+' && t[1..] == d;
    ParseDigits(d);
  }

  lemma ParseMinus(d: string)
    requires |d| > 0 && AllDigits(d)
    ensures ParseInt("-" + d) == Some(-ParseInt(d).value)
  {
    var t := "-" + d;
    assert t[0] == '-' && t[1..] == d;
    ParseDigits(d);
  }

  /** Python's `str(n)` for a natural number. */
  function NatToString(n: nat): (s: string)
    ensures |s| > 0 && AllDigits(s)
  {
    if n < 10 then [DigitChar(n)] else NatToString(n / 10) + [DigitChar(n % 10)]
  }

  /** Python's `str(n)`. */
  function IntToString(n: int): (s: string)
    ensures |s| > 0
    ensures forall i :: 0 <= i < |s| ==> IsDigit(s[i]) || s[i] == '-'
  {
    if n < 0 then "-" + NatToString(-n) else NatToString(n)
  }

  lemma {:induction false} DigitsOfNatToString(n: nat)
    ensures DigitsValue(NatToString(n)) == n
  {
    if n >= 10 {
      var s := NatToString(n / 10);
      DigitsOfNatToString(n / 10);
      assert (s + [DigitChar(n % 10)])[..|s|] == s;
    }
  }

  /** `int(str(n)) == n`: parsing undoes printing. */
  lemma ParseIntToString(n: int)
    ensures ParseInt(IntToString(n)) == Some(n)
  {
    var s := IntToString(n);
    if n < 0 {
      assert Unsigned(s) == NatToString(-n);
      DigitsOfNatToString(-n);
    } else {
      assert IsDigit(s[0]);
      assert Unsigned(s) == s;
      DigitsOfNatToString(n);
    }
  }
}
