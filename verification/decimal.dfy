/** Python's `f"{n:03d}"` for the non-negative numbers the poster captions use. */
module Decimal {

  predicate IsDigit(c: char) {
    '0' <= c <= '9'
  }

  function DigitChar(d: nat): (c: char)
    requires d < 10
    ensures IsDigit(c) && c as int - '0' as int == d
  {
    ('0' as int + d) as char
  }

  /** The decimal numeral of `n`, without leading zeros (`"0"` for zero). */
  function Numeral(n: nat): (s: string)
    ensures 1 <= |s|
    ensures forall k :: 0 <= k < |s| ==> IsDigit(s[k])
    ensures n < 10 <==> |s| == 1
    ensures n >= 1 ==> s[0] != '0'
  {
    if n < 10 then [DigitChar(n)] else Numeral(n / 10) + [DigitChar(n % 10)]
  }

  /** The number a string of digits denotes; leading zeros are allowed. */
  function Value(s: string): nat
    requires forall k :: 0 <= k < |s| ==> IsDigit(s[k])
  {
    if s == [] then 0
    else
      assert IsDigit(s[|s| - 1]);
      10 * Value(s[..|s| - 1]) + (s[|s| - 1] as int - '0' as int)
  }

  /**
   * `f"{n:03d}"`: the numeral of `n`, padded on the left with zeros to at least three
   * characters; a numeral longer than three characters has no leading zero.
   */
  function Pad3(n: nat): (s: string)
    ensures forall k :: 0 <= k < |s| ==> IsDigit(s[k])
    ensures |s| >= 3 && (|s| > 3 ==> s[0] != '0')
  {
    var digits := Numeral(n);
    if |digits| >= 3 then digits else seq(3 - |digits|, _ => '0') + digits
  }

  /** Reading the numeral of `n` back gives `n`. */
  lemma {:induction false} NumeralValue(n: nat)
    ensures Value(Numeral(n)) == n
  {
    if n >= 10 {
      NumeralValue(n / 10);
      var s := Numeral(n);
      assert s[..|s| - 1] == Numeral(n / 10);
    }
  }

  /** Leading zeros do not change the value of a numeral. */
  lemma {:induction false} LeadingZeroValue(s: string)
    requires forall k :: 0 <= k < |s| ==> IsDigit(s[k])
    ensures Value(['0'] + s) == Value(s)
  {
    if s != [] {
      var t := ['0'] + s;
      assert t[..|t| - 1] == ['0'] + s[..|s| - 1];
      LeadingZeroValue(s[..|s| - 1]);
    }
  }

  lemma {:induction false} ZerosValue(z: nat, s: string)
    requires forall k :: 0 <= k < |s| ==> IsDigit(s[k])
    ensures Value(seq(z, _ => '0') + s) == Value(s)
  {
    if z > 0 {
      var rest := seq(z - 1, _ => '0') + s;
      assert forall k :: 0 <= k < |rest| ==> IsDigit(rest[k]);
      assert seq(z, _ => '0') + s == ['0'] + rest;
      LeadingZeroValue(rest);
      ZerosValue(z - 1, s);
    } else {
      assert seq(z, _ => '0') + s == s;
    }
  }

  /**
   * The zero-padded caption number reads back as the number itself, and it is
   * exactly three characters long for the numbers below 1000; a longer one does not
   * start with a zero.
   */
  lemma Pad3Value(n: nat)
    ensures Value(Pad3(n)) == n
    ensures |Pad3(n)| >= 3
    ensures n < 1000 ==> |Pad3(n)| == 3
    ensures |Pad3(n)| > 3 ==> Pad3(n)[0] != '0'
  {
    var digits := Numeral(n);
    NumeralValue(n);
    if |digits| < 3 {
      ZerosValue(3 - |digits|, digits);
    }
    if n < 1000 {
      NumeralBelow(n);
    }
  }

  lemma {:induction false} NumeralBelow(n: nat)
    requires n < 1000
    ensures |Numeral(n)| <= 3
  {
    if n >= 10 {
      assert n / 10 < 100;
      if n / 10 >= 10 {
        assert n / 100 < 10;
        assert (n / 10) / 10 == n / 100;
      }
    }
  }
}
