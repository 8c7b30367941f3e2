/** Decimal texts of integers, as BigInt parses them and template literals print them. */
module Decimals {

  predicate IsDigit(c: char) {
    '0' <= c <= '9'
  }

  predicate AllDigits(s: string) {
    forall i :: 0 <= i < |s| ==> IsDigit(s[i])
  }

  function DigitValue(c: char): nat {
    if IsDigit(c) then c as int - '0' as int else 0
  }

  function Digit(d: nat): (c: char)
    requires d < 10
    ensures IsDigit(c) && DigitValue(c) == d
  {
    ('0' as int + d) as char
  }

  /** The number a text of digits denotes. */
  function DigitsValue(s: string): nat {
    if s == "" then 0 else DigitsValue(s[..|s| - 1]) * 10 + DigitValue(s[|s| - 1])
  }

  /** The text of a natural number, without leading zeros. */
  function NatText(n: nat): (s: string)
    ensures s != "" && AllDigits(s)
    ensures s[0] == '0' <==> n == 0
    ensures n == 0 ==> s == "0"
  {
    if n < 10 then [Digit(n)] else NatText(n / 10) + [Digit(n % 10)]
  }

  function IntText(i: int): string {
    if i < 0 then "-" + NatText(-i) else NatText(i)
  }

  /** The integer grammar `-?(0|[1-9][0-9]*)`. */
  predicate IsNatText(s: string) {
    s != "" && AllDigits(s) && (s[0] == '0' ==> s == "0")
  }

  predicate IsIntegerText(s: string) {
    if s != "" && s[0] == '-' then IsNatText(s[1..]) else IsNatText(s)
  }

  function IntegerValue(s: string): int
    requires IsIntegerText(s)
  {
    if s[0] == '-' then 0 - DigitsValue(s[1..]) else DigitsValue(s)
  }

  lemma {:induction false} NatTextValue(n: nat)
    ensures DigitsValue(NatText(n)) == n
  {
    var s := NatText(n);
    if n < 10 {
      assert s[..|s| - 1] == "";
    } else {
      NatTextValue(n / 10);
      assert s[..|s| - 1] == NatText(n / 10);
    }
  }

  lemma {:induction false} PositiveValue(s: string)
    requires AllDigits(s) && s != "" && s[0] != '0'
    ensures DigitsValue(s) > 0
  {
    if |s| == 1 {
      assert s[..|s| - 1] == "";
    } else {
      PositiveValue(s[..|s| - 1]);
    }
  }

  lemma {:induction false} NatTextOfValue(s: string)
    requires IsNatText(s)
    ensures NatText(DigitsValue(s)) == s
  {
    var init := s[..|s| - 1];
    if |s| == 1 {
      assert init == "";
      assert s == [s[0]];
    } else {
      PositiveValue(init);
      NatTextOfValue(init);
      assert s == init + [s[|s| - 1]];
    }
  }

  /** Printing then parsing an integer gives it back. */
  lemma IntTextRoundTrip(i: int)
    ensures IsIntegerText(IntText(i))
    ensures IntegerValue(IntText(i)) == i
  {
    var n := if i < 0 then -i else i;
    NatTextValue(n);
    assert ("-" + NatText(n))[1..] == NatText(n);
  }

  /** Every accepted integer text except "-0" is the one text of its value. */
  lemma IntTextUnique(s: string)
    requires IsIntegerText(s)
    ensures s != "-0" <==> IntText(IntegerValue(s)) == s
  {
    if s[0] == '-' {
      NatTextOfValue(s[1..]);
      assert s == "-" + s[1..];
      if s[1] != '0' {
        PositiveValue(s[1..]);
      }
    } else {
      NatTextOfValue(s);
    }
  }

  lemma NatTextInjective(m: nat, n: nat)
    requires NatText(m) == NatText(n)
    ensures m == n
  {
    NatTextValue(m);
    NatTextValue(n);
  }

  lemma {:induction false} DropLeadingZero(s: string)
    requires s != "" && s[0] == '0'
    ensures DigitsValue(s[1..]) == DigitsValue(s)
  {
    if |s| > 1 {
      var init := s[..|s| - 1];
      DropLeadingZero(init);
      assert init[1..] == s[1..][..|s[1..]| - 1];
    } else {
      assert s[..|s| - 1] == "" == s[1..];
    }
  }
}
