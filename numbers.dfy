/** The handful of JavaScript number operations the server applies to table cells:
    `parseInt`, `Math.max(0, a - b)` and `Number.prototype.toString`. `None` is `NaN`. */
module Numbers {
  import opened Wrappers

  predicate IsDigit(c: char) { '0' <= c <= '9' }

  predicate AllDigits(s: string) { forall i :: 0 <= i < |s| ==> IsDigit(s[i]) }

  function DigitValue(c: char): (d: nat)
    requires IsDigit(c)
    ensures d < 10
  {
    c as int - '0' as int
  }

  function DigitChar(d: nat): (c: char)
    requires d < 10
    ensures IsDigit(c) && DigitValue(c) == d
  {
    ('0' as int + d) as char
  }

  /** The value of a decimal numeral, most significant digit first. */
  function DigitsValue(s: string): nat
    requires AllDigits(s)
    decreases |s|
  {
    if s == [] then 0 else DigitsValue(s[..|s| - 1]) * 10 + DigitValue(s[|s| - 1])
  }

  /** `parseInt(s)` for a string that is an optional sign followed by decimal digits;
      every other string, the empty one included, gives `NaN`. */
  function ParseInt(s: string): (r: Option<int>)
    ensures s == [] ==> r == None
    ensures r.Some? ==> IsDigit(s[|s| - 1])
    ensures r.Some? && r.value < 0 ==> s[0] == '-'
  {
    if |s| > 0 && (s[0] == '-' || s[0] == '+') then
      if |s| > 1 && AllDigits(s[1..]) then
        var magnitude: int := DigitsValue(s[1..]);
        Some(if s[0] == '-' then -magnitude else magnitude)
      else None
    else if |s| > 0 && AllDigits(s) then Some(DigitsValue(s))
    else None
  }

  /** `n.toString()` for a non-negative integer: its decimal numeral without leading zeros. */
  function NatToString(n: nat): (s: string)
    ensures |s| >= 1 && AllDigits(s)
    ensures s[0] == '0' ==> s == "0"
    decreases n
  {
    if n < 10 then [DigitChar(n)] else NatToString(n / 10) + [DigitChar(n % 10)]
  }

  /** `x.toString()` for a number the server writes back into a cell, `NaN` included. */
  function NumberToString(x: Option<int>): string
    requires x.Some? ==> x.value >= 0
  {
    if x.Some? then NatToString(x.value) else "NaN"
  }

  /** `Math.max(0, current - amount)`: a `NaN` operand makes the result `NaN`; otherwise
      the difference, floored at zero. */
  function ClampedSubtract(current: Option<int>, amount: Option<int>): (r: Option<int>)
    ensures r.Some? <==> current.Some? && amount.Some?
    ensures r.Some? ==> r.value >= 0 && r.value >= current.value - amount.value
    ensures r.Some? ==> r.value == 0 || r.value == current.value - amount.value
  {
    if current.Some? && amount.Some? then
      Some(if current.value - amount.value > 0 then current.value - amount.value else 0)
    else None
  }

  /** Reading a numeral back gives the number it was written from. */
  lemma {:induction false} DigitsValueOfNatToString(n: nat)
    ensures DigitsValue(NatToString(n)) == n
    decreases n
  {
    var s := NatToString(n);
    if n >= 10 {
      DigitsValueOfNatToString(n / 10);
      assert s[..|s| - 1] == NatToString(n / 10);
    }
  }

  /** `parseInt(x.toString())` is `x` for every number the server writes into a cell,
      and `NaN` stays `NaN`. */
  lemma ParseNumberToString(x: Option<int>)
    requires x.Some? ==> x.value >= 0
    ensures ParseInt(NumberToString(x)) == x
  {
    if x.Some? {
      DigitsValueOfNatToString(x.value);
    } else {
      assert NumberToString(x)[0] == 'N';
    }
  }

  /** A numeral keeps its value when it is signed: `parseInt` reads `d`, `"+" + d` and
      `"-" + d` as the value of `d` and its negation. */
  lemma ParseIntNumeral(d: string)
    requires |d| > 0 && AllDigits(d)
    ensures ParseInt(d) == Some(DigitsValue(d))
    ensures ParseInt("+" + d) == Some(DigitsValue(d))
    ensures ParseInt("-" + d) == Some(-(DigitsValue(d) as int))
  {
    assert IsDigit(d[0]);
    ParseSigned('+', d);
    ParseSigned('-', d);
  }

  /** A sign followed by a numeral: the magnitude is the numeral's value. */
  lemma ParseSigned(sign: char, d: string)
    requires sign == '+' || sign == '-'
    requires |d| > 0 && AllDigits(d)
    ensures ParseInt([sign] + d) == Some(if sign == '-' then -(DigitsValue(d) as int) else DigitsValue(d))
  {
    var m := [sign] + d;
    assert m[1..] == d;
  }

  /** A leading zero does not change the value of a numeral, so `"007"` reads as 7. */
  lemma {:induction false} LeadingZero(d: string)
    requires AllDigits(d)
    ensures AllDigits("0" + d)
    ensures DigitsValue("0" + d) == DigitsValue(d)
    decreases |d|
  {
    var z := "0" + d;
    if d == [] {
      assert z[..0] == [];
    } else {
      var init := d[..|d| - 1];
      LeadingZero(init);
      assert z[..|z| - 1] == "0" + init;
      assert z[|z| - 1] == d[|d| - 1];
    }
  }

}
