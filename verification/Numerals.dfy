/**
 Writing unsigned numbers in decimal and reading them back.
 */
module Numerals {
  import opened Common

  function DigitChar(d: nat): char
    requires d < 16
  {
    "0123456789abcdef"[d]
  }

  /** The value of a digit, upper or lower case. */
  function DigitOf(c: char): (d: Option<nat>)
    ensures d.Some? ==> d.value < 16
  {
    if '0' <= c <= '9' then Some(c as int - '0' as int)
    else if 'a' <= c <= 'f' then Some(c as int - 'a' as int + 10)
    else if 'A' <= c <= 'F' then Some(c as int - 'A' as int + 10)
    else None
  }

  lemma DigitBack(d: nat)
    requires d < 16
    ensures DigitOf(DigitChar(d)) == Some(d)
  {
    var all := "0123456789abcdef";
    assert all[0] == '0' && all[1] == '1' && all[2] == '2' && all[3] == '3' && all[4] == '4' && all[5] == '5' && all[6] == '6' && all[7] == '7';
    assert all[8] == '8' && all[9] == '9' && all[10] == 'a' && all[11] == 'b' && all[12] == 'c' && all[13] == 'd' && all[14] == 'e' && all[15] == 'f';
  }

  predicate IsDecimal(c: char) {
    '0' <= c <= '9'
  }

  predicate AllDecimal(s: string) {
    forall i | 0 <= i < |s| :: IsDecimal(s[i])
  }

  function Show(n: nat): (s: string)
    ensures |s| >= 1 && AllDecimal(s)
  {
    DecimalChar(n % 10);
    (if n < 10 then [] else Show(n / 10)) + [DigitChar(n % 10)]
  }

  lemma DecimalChar(d: nat)
    requires d < 10
    ensures IsDecimal(DigitChar(d))
  {
    DigitBack(d);
    var all := "0123456789abcdef";
    assert all[0] == '0' && all[1] == '1' && all[2] == '2' && all[3] == '3' && all[4] == '4';
    assert all[5] == '5' && all[6] == '6' && all[7] == '7' && all[8] == '8' && all[9] == '9';
  }

  function DecimalValue(s: string): (n: nat)
    requires AllDecimal(s)
  {
    if s == [] then 0 else 10 * DecimalValue(s[..|s| - 1]) + (s[|s| - 1] as int - '0' as int)
  }

  /** An optional plus sign, at least one digit, and a value below the limit. */
  function ParseUnsigned(s: string, limit: nat): Option<nat> {
    var digits := if s != [] && s[0] == '+' then s[1..] else s;
    if digits == [] || !AllDecimal(digits) || DecimalValue(digits) >= limit then None else Some(DecimalValue(digits))
  }

  lemma {:induction false} ShowValue(n: nat)
    ensures DecimalValue(Show(n)) == n
  {
    var s := Show(n);
    assert s[..|s| - 1] == if n < 10 then [] else Show(n / 10);
    DigitBack(n % 10);
    DecimalChar(n % 10);
    if n >= 10 {
      ShowValue(n / 10);
    }
  }

  /** What was written is read back. */
  lemma ShowParse(n: nat, limit: nat)
    requires n < limit
    ensures ParseUnsigned(Show(n), limit) == Some(n)
  {
    ShowValue(n);
    assert IsDecimal(Show(n)[0]);
  }
}
