/** Canonical decimal scalars: `std::to_string` on the way out, `std::from_chars` plus the
    no-leading-zero rule on the way in. */
module Decimal {
  import opened Common

  function DigitChar(d: nat): char
    requires d < 10
  {
    "0123456789"[d]
  }

  predicate IsDigit(c: char) {
    '0' <= c <= '9'
  }

  function DigitValue(c: char): nat
    requires IsDigit(c)
  {
    c as nat - '0' as nat
  }

  function ToDecimal(n: nat): string {
    if n < 10 then [DigitChar(n)] else ToDecimal(n / 10) + [DigitChar(n % 10)]
  }

  predicate AllDigits(text: string) {
    forall i :: 0 <= i < |text| ==> IsDigit(text[i])
  }

  /** The number a run of digits denotes. */
  function Value(text: string): nat
    requires AllDigits(text)
  {
    if text == [] then 0 else Value(text[..|text| - 1]) * 10 + DigitValue(text[|text| - 1])
  }

  /** The canonical parsers of the program: every character is a digit, there is no
      superfluous leading zero, and the value does not exceed `maximum`. */
  function ParseCanonical(text: string, maximum: nat): Option<nat> {
    if text == [] || !AllDigits(text) || (|text| > 1 && text[0] == '0') || Value(text) > maximum then None
    else Some(Value(text))
  }

  lemma DigitRoundTrip(d: nat)
    requires d < 10
    ensures IsDigit(DigitChar(d)) && DigitValue(DigitChar(d)) == d
  {
    assert d == 0 || d == 1 || d == 2 || d == 3 || d == 4 || d == 5 || d == 6 || d == 7 || d == 8 || d == 9;
  }

  lemma {:induction false} PrintedValue(n: nat)
    ensures AllDigits(ToDecimal(n)) && Value(ToDecimal(n)) == n
    ensures ToDecimal(n) != [] && (|ToDecimal(n)| > 1 ==> ToDecimal(n)[0] != '0')
    ensures n > 0 ==> ToDecimal(n)[0] != '0'
  {
    if n < 10 {
      DigitRoundTrip(n);
      assert ToDecimal(n)[..0] == [];
      assert n > 0 ==> DigitChar(n) != '0';
    } else {
      PrintedValue(n / 10);
      DigitRoundTrip(n % 10);
      assert ToDecimal(n)[..|ToDecimal(n)| - 1] == ToDecimal(n / 10);
    }
  }

  lemma DigitInverse(c: char)
    requires IsDigit(c)
    ensures DigitValue(c) < 10 && DigitChar(DigitValue(c)) == c
  {
    DigitRoundTrip(DigitValue(c));
  }

  lemma {:induction false} LeadingDigitCounts(text: string)
    requires AllDigits(text) && text != [] && text[0] != '0'
    ensures Value(text) > 0
  {
    if |text| > 1 {
      LeadingDigitCounts(text[..|text| - 1]);
    } else {
      assert text[..0] == [];
    }
  }

  lemma {:induction false} PrintsBack(text: string)
    requires AllDigits(text) && text != [] && (|text| > 1 ==> text[0] != '0')
    ensures ToDecimal(Value(text)) == text
  {
    var rest := text[..|text| - 1];
    var last := text[|text| - 1];
    DigitInverse(last);
    if |text| == 1 {
      assert rest == [];
      assert text == [last];
    } else {
      LeadingDigitCounts(rest);
      PrintsBack(rest);
      assert Value(text) / 10 == Value(rest) && Value(text) % 10 == DigitValue(last);
      assert text == rest + [last];
    }
  }

  /** A text is accepted exactly when it is the canonical printing of the number it yields. */
  lemma CanonicalText(text: string, maximum: nat, n: nat)
    ensures ParseCanonical(text, maximum) == Some(n) <==> n <= maximum && text == ToDecimal(n)
  {
    PrintedValue(n);
    if ParseCanonical(text, maximum) == Some(n) {
      PrintsBack(text);
    }
  }
}
