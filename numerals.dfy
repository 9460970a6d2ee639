/**
 * Python's `int(text, base)` and `str(n)` on integers, as the router uses them
 * (core/router.py): the expiry `e` of a signature is read in base 36, the size
 * in `/measure/{size}` in base 10 and written back with `str`.
 */
module Numerals {
  import opened Classes

  /** The value of one digit character: `0`-`9`, then `a`-`z` (either case) for 10 to 35. */
  function DigitValue(c: char): (r: Option<nat>)
    ensures r.Some? ==> r.value < 36
  {
    if '0' <= c <= '9' then Some(c as int - '0' as int)
    else if 'a' <= c <= 'z' then Some(c as int - 'a' as int + 10)
    else if 'A' <= c <= 'Z' then Some(c as int - 'A' as int + 10)
    else None
  }

  /** Whether every character of `s` is a digit below `base`. */
  predicate AllDigits(s: string, base: nat)
  {
    forall i :: 0 <= i < |s| ==> DigitValue(s[i]).Some? && DigitValue(s[i]).value < base
  }

  /** The value of a digit string, most significant digit first. */
  function DigitsValue(s: string, base: nat): nat
    requires AllDigits(s, base)
  {
    if s == [] then 0
    else DigitsValue(s[..|s| - 1], base) * base + DigitValue(s[|s| - 1]).value
  }

  /**
   * `int(s, base)`: an optional sign followed by at least one digit below
   * `base`; None where Python raises ValueError.
   */
  function ParseInt(s: string, base: nat): Option<int>
  {
    if |s| > 0 && (s[0] == '+' || s[0] == '-') then
      var digits := s[1..];
      if digits != [] && AllDigits(digits, base) then
        var v: int := DigitsValue(digits, base);
        Some(if s[0] == '-' then -v else v)
      else None
    else if s != [] && AllDigits(s, base) then Some(DigitsValue(s, base))
    else None
  }

  /** The decimal digit character for `d`. */
  function DecimalDigit(d: nat): char
    requires d < 10
  {
    ('0' as int + d) as char
  }

  /** The decimal numeral of `n`, with no leading zero. */
  function ShowNat(n: nat): (r: string)
    ensures |r| > 0 && AllDigits(r, 10)
    ensures |r| > 1 ==> r[0] != '0'
  {
    if n < 10 then [DecimalDigit(n)]
    else ShowNat(n / 10) + [DecimalDigit(n % 10)]
  }

  /** `str(i)`: a minus sign for a negative integer, then the decimal numeral of its magnitude. */
  function Show(i: int): string
  {
    if i < 0 then "-" + ShowNat(-i) else ShowNat(i)
  }

  /** The digits `str` writes read back as the number. */
  lemma {:induction false} ShowNatValue(n: nat)
    ensures DigitsValue(ShowNat(n), 10) == n
    decreases n
  {
    var s := ShowNat(n);
    if n >= 10 {
      ShowNatValue(n / 10);
      assert s[..|s| - 1] == ShowNat(n / 10);
    }
  }

  /** `int(str(i)) == i`. */
  lemma ParseShow(i: int)
    ensures ParseInt(Show(i), 10) == Some(i)
  {
    var n: nat := if i < 0 then -i else i;
    var digits := ShowNat(n);
    ShowNatValue(n);
    assert DigitValue(digits[0]).Some?;
    if i < 0 {
      var s := "-" + digits;
      assert Show(i) == s && s[0] == '-' && s[1..] == digits;
    } else {
      assert Show(i) == digits && digits[0] != '+' && digits[0] != '-';
    }
  }

  /** `str` is injective: distinct integers have distinct numerals. */
  lemma ShowInjective(i: int, j: int)
    requires Show(i) == Show(j)
    ensures i == j
  {
    ParseShow(i);
    ParseShow(j);
  }

  /** `int` accepts leading zeros and a plus sign, which `str` never writes back: `int("+007") == 7`. */
  lemma ParseIsNotCanonical()
    ensures ParseInt("+007", 10) == Some(7) && Show(7) == "7"
  {
    assert "+007"[1..] == "007";
    assert "007"[..2] == "00" && "00"[..1] == "0" && "0"[..0] == "";
  }
}
