/**
 * Decimal text of integers, as Go's fmt and strconv produce it, together with
 * parsers that read it back.  The parsers are the partners of the printers:
 * every printer is proved to be undone by its parser.
 */
module Decimal {
  import opened Wrappers

  predicate IsDigit(c: char) {
    '0' <= c <= '9'
  }

  predicate AllDigits(s: string) {
    forall i :: 0 <= i < |s| ==> IsDigit(s[i])
  }

  function DigitChar(d: nat): (c: char)
    requires d < 10
    ensures IsDigit(c)
  {
    ('0' as int + d) as char
  }

  function DigitValue(c: char): (d: nat)
    requires IsDigit(c)
    ensures d < 10 && DigitChar(d) == c
  {
    c as int - '0' as int
  }

  /** The value of a string of decimal digits, most significant digit first. */
  function DigitsValue(s: string): nat
    requires AllDigits(s)
    decreases |s|
  {
    if s == [] then 0 else DigitsValue(s[..|s| - 1]) * 10 + DigitValue(s[|s| - 1])
  }

  /** Reads a non-empty, unsigned run of decimal digits. */
  function ParseNat(s: string): (r: Option<nat>)
    ensures r.Some? <==> |s| >= 1 && AllDigits(s)
  {
    if |s| >= 1 && AllDigits(s) then Some(DigitsValue(s)) else None
  }

  /** Reads an optionally negative decimal integer. */
  function ParseInt(s: string): (r: Option<int>)
    ensures r.Some? <==> (|s| >= 1 && AllDigits(s)) || (|s| >= 2 && s[0] == '-' && AllDigits(s[1..]))
    ensures r.Some? && r.value < 0 ==> s[0] == '-'
  {
    if |s| >= 1 && s[0] == '-' then
      match ParseNat(s[1..])
      case Some(v) => Some(-(v as int))
      case None => None
    else
      match ParseNat(s)
      case Some(v) => Some(v)
      case None => None
  }

  /**
   * The text that strconv.Itoa (and fmt's %d) gives for a non-negative value:
   * digits only, and no leading zero except for zero itself.
   */
  function NatToDecimal(n: nat): (s: string)
    ensures |s| >= 1 && AllDigits(s)
    ensures s[0] == '0' ==> s == "0"
    decreases n
  {
    if n < 10 then [DigitChar(n)] else NatToDecimal(n / 10) + [DigitChar(n % 10)]
  }

  /** Signed decimal text: a minus sign in front of the magnitude of a negative value. */
  function IntToDecimal(i: int): (s: string)
    ensures |s| >= 1 && ',' !in s
    ensures i < 0 <==> s[0] == '-'
    ensures i < 0 ==> |s| >= 2
    ensures s[if i < 0 then 1 else 0] == '0' ==> s == "0"
  {
    var m := if i < 0 then -i else i;
    if i < 0 then "-" + NatToDecimal(m) else NatToDecimal(m)
  }

  /**
   * %04d of a value below ten thousand: exactly four digits, padded on the left
   * with zeros.
   */
  function ZeroPad4(n: nat): (s: string)
    requires n < 10000
    ensures |s| == 4 && AllDigits(s)
  {
    [DigitChar(n / 1000), DigitChar(n / 100 % 10), DigitChar(n / 10 % 10), DigitChar(n % 10)]
  }

  lemma {:induction false} DigitsValueOfNatToDecimal(n: nat)
    ensures DigitsValue(NatToDecimal(n)) == n
    decreases n
  {
    var s := NatToDecimal(n);
    if n < 10 {
      assert s[..0] == [];
    } else {
      DigitsValueOfNatToDecimal(n / 10);
      assert s[..|s| - 1] == NatToDecimal(n / 10);
    }
  }

  /** Round trip: the text strconv.Itoa prints reads back as the same number. */
  lemma NatToDecimalRoundTrip(n: nat)
    ensures ParseNat(NatToDecimal(n)) == Some(n)
  {
    DigitsValueOfNatToDecimal(n);
  }

  /** Round trip for signed values. */
  lemma IntToDecimalRoundTrip(i: int)
    ensures ParseInt(IntToDecimal(i)) == Some(i)
  {
    var s := IntToDecimal(i);
    if i < 0 {
      assert s[1..] == NatToDecimal(-i);
      NatToDecimalRoundTrip(-i);
    } else {
      NatToDecimalRoundTrip(i);
    }
  }

  /** Printing is injective: distinct numbers never print alike. */
  lemma NatToDecimalInjective(n: nat, m: nat)
    requires NatToDecimal(n) == NatToDecimal(m)
    ensures n == m
  {
    NatToDecimalRoundTrip(n);
    NatToDecimalRoundTrip(m);
  }

  /** Round trip: the four padded digits read back as the number. */
  lemma ZeroPad4RoundTrip(n: nat)
    requires n < 10000
    ensures ParseNat(ZeroPad4(n)) == Some(n)
  {
    var s := ZeroPad4(n);
    assert s[..3][..2] == s[..2] && s[..2][..1] == s[..1] && s[..1][..0] == [] && s[..4] == s;
    assert DigitsValue(s[..1]) == n / 1000;
    assert n / 1000 * 10 + n / 100 % 10 == n / 100;
    assert DigitsValue(s[..2]) == n / 100;
    assert n / 100 * 10 + n / 10 % 10 == n / 10;
    assert DigitsValue(s[..3]) == n / 10;
    assert n / 10 * 10 + n % 10 == n;
  }
}
