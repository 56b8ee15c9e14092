/** Amounts as decimal text: `String(bigint)` and `BigInt(text)`. */
module Decimal {

  predicate IsDecimal(s: string) {
    s != "" && forall i :: 0 <= i < |s| ==> '0' <= s[i] <= '9'
  }

  type Decimal = s: string | IsDecimal(s) witness "0"

  function Digit(d: nat): char
    requires d < 10
  {
    (48 + d) as char
  }

  function DigitValue(c: char): nat
    requires '0' <= c <= '9'
  {
    c as nat - 48
  }

  /** `String(n)` */
  function Print(n: nat): Decimal {
    if n < 10 then [Digit(n)] else Print(n / 10) + [Digit(n % 10)]
  }

  /** Read further digits after the value read so far. */
  function ReadDigits(s: string, value: nat): nat
    requires forall i :: 0 <= i < |s| ==> '0' <= s[i] <= '9'
  {
    if s == "" then value else ReadDigits(s[1..], 10 * value + DigitValue(s[0]))
  }

  /** `BigInt(s)` */
  function Parse(s: Decimal): nat {
    ReadDigits(s, 0)
  }

  lemma {:induction false} ReadDigitsAppend(s: string, c: char, value: nat)
    requires forall i :: 0 <= i < |s| ==> '0' <= s[i] <= '9'
    requires '0' <= c <= '9'
    ensures ReadDigits(s + [c], value) == 10 * ReadDigits(s, value) + DigitValue(c)
  {
    if s == "" {
      assert s + [c] == [c];
      assert [c][1..] == "";
      assert ReadDigits([c][1..], 10 * value + DigitValue(c)) == 10 * value + DigitValue(c);
    } else {
      assert (s + [c])[1..] == s[1..] + [c];
      ReadDigitsAppend(s[1..], c, 10 * value + DigitValue(s[0]));
    }
  }

  /** Printing and parsing back loses nothing. */
  lemma {:induction false} PrintParse(n: nat)
    ensures Parse(Print(n)) == n
  {
    if n < 10 {
      assert Print(n)[1..] == "";
      assert ReadDigits(Print(n)[1..], n) == n;
    } else {
      PrintParse(n / 10);
      ReadDigitsAppend(Print(n / 10), Digit(n % 10), 0);
    }
  }

  /** The way numbers are written: one digit, or no zero in front. */
  predicate IsNumeral(s: Decimal) {
    |s| == 1 || s[0] != '0'
  }

  lemma {:induction false} PrintIsNumeral(n: nat)
    ensures IsNumeral(Print(n)) && (n > 0 ==> Print(n)[0] != '0')
  {
    if n < 10 {
    } else {
      PrintIsNumeral(n / 10);
    }
  }

  lemma ParseLast(s: Decimal)
    requires |s| >= 2
    ensures Parse(s) == 10 * Parse(s[..|s| - 1]) + DigitValue(s[|s| - 1])
  {
    var t, c := s[..|s| - 1], s[|s| - 1];
    assert s == t + [c];
    ReadDigitsAppend(t, c, 0);
  }

  lemma {:induction false} ParsePositive(s: Decimal)
    requires s[0] != '0'
    ensures Parse(s) > 0
  {
    if |s| == 1 {
      assert ReadDigits(s[1..], DigitValue(s[0])) == DigitValue(s[0]);
    } else {
      ParseLast(s);
      ParsePositive(s[..|s| - 1]);
    }
  }

  /** A number is printed as its one numeral. */
  lemma {:induction false} PrintIs(n: nat, s: Decimal)
    ensures s == Print(n) <==> Parse(s) == n && IsNumeral(s)
    decreases |s|
  {
    PrintParse(n);
    PrintIsNumeral(n);
    if |s| == 1 {
      assert ReadDigits(s[1..], DigitValue(s[0])) == DigitValue(s[0]);
    } else if Parse(s) == n && IsNumeral(s) {
      var t := s[..|s| - 1];
      ParseLast(s);
      ParsePositive(t);
      PrintIs(n / 10, t);
      assert s == t + [s[|s| - 1]];
    }
  }
}
