/**
 * Decimal notation of natural numbers.
 *
 * The digit-replacement routine works on the decimal text of a magnitude
 * (Python's `str` of a non-negative int) and parses the edited text back
 * (Python's `int`). Here that text is a sequence of digit values, most
 * significant first: `Digits` plays the role of `str` and `Value` the role
 * of `int`, which, like Python's parser, accepts leading zeros.
 */
module Decimal {

  /** A single decimal digit. */
  type Digit = d: int | 0 <= d <= 9

  /** 10 raised to the power k. */
  function Pow10(k: nat): (p: nat)
    ensures p >= 1
  {
    if k == 0 then 1 else 10 * Pow10(k - 1)
  }

  /** The k-th decimal digit of x counted from the ones place (k = 0). */
  function DigitAt(x: nat, k: nat): Digit
  {
    if k == 0 then x % 10 else DigitAt(x / 10, k - 1)
  }

  /**
   * A canonical decimal text: at least one digit and no leading zero,
   * except for the text of zero itself, which is the single digit 0.
   */
  predicate Canonical(s: seq<Digit>)
  {
    |s| >= 1 && (s[0] != 0 || |s| == 1)
  }

  /** The decimal text of x, most significant digit first. */
  function Digits(x: nat): (s: seq<Digit>)
    ensures Canonical(s)
    ensures x < Pow10(|s|)
    ensures |s| > 1 ==> Pow10(|s| - 1) <= x
  {
    if x < 10 then [x] else Digits(x / 10) + [x % 10]
  }

  /** The number a decimal text denotes; leading zeros contribute nothing. */
  function Value(s: seq<Digit>): (v: nat)
    ensures v < Pow10(|s|)
  {
    if |s| == 0 then 0 else Value(s[..|s| - 1]) * 10 + s[|s| - 1]
  }

  /** Parsing the text of a number gives the number back. */
  lemma {:induction false} ValueOfDigits(x: nat)
    ensures Value(Digits(x)) == x
  {
    if x >= 10 {
      var s := Digits(x);
      assert s[..|s| - 1] == Digits(x / 10);
      ValueOfDigits(x / 10);
    }
  }

  /** A text that starts with a non-zero digit denotes a non-zero number. */
  lemma {:induction false} ValuePositive(s: seq<Digit>)
    requires |s| >= 1 && s[0] != 0
    ensures Value(s) > 0
  {
    if |s| > 1 {
      ValuePositive(s[..|s| - 1]);
    }
  }

  /** A leading zero contributes nothing to the value of a text. */
  lemma {:induction false} LeadingZero(t: seq<Digit>)
    requires |t| >= 1 && t[0] == 0
    ensures Value(t) == Value(t[1..])
  {
    if |t| > 1 {
      var prefix := t[..|t| - 1];
      assert prefix[1..] == t[1..][..|t| - 2];
      LeadingZero(prefix);
    }
  }

  /** Printing the number a canonical text denotes gives that text back. */
  lemma {:induction false} DigitsOfValue(s: seq<Digit>)
    requires Canonical(s)
    ensures Digits(Value(s)) == s
  {
    if |s| > 1 {
      var prefix := s[..|s| - 1];
      ValuePositive(prefix);
      DigitsOfValue(prefix);
      assert Value(s) / 10 == Value(prefix);
      assert Value(s) % 10 == s[|s| - 1];
      assert prefix + [s[|s| - 1]] == s;
    }
  }

  /** Reading the k-th place of the number a text denotes reads the text. */
  lemma {:induction false} DigitAtValue(s: seq<Digit>, k: nat)
    ensures DigitAt(Value(s), k) == if k < |s| then s[|s| - 1 - k] else 0
  {
    if |s| == 0 {
      ZeroDigitAt(k);
    } else if k > 0 {
      var prefix := s[..|s| - 1];
      assert Value(s) / 10 == Value(prefix);
      DigitAtValue(prefix, k - 1);
      if k < |s| {
        assert s[|s| - 1 - k] == prefix[|prefix| - 1 - (k - 1)];
      }
    }
  }

  /** Every place of zero holds the digit 0. */
  lemma {:induction false} ZeroDigitAt(k: nat)
    ensures DigitAt(0, k) == 0
  {
    if k > 0 {
      ZeroDigitAt(k - 1);
    }
  }

  /**
   * Overwriting the digit at index i shifts the value by the difference of
   * the two digits times the weight of that index's place.
   */
  lemma {:induction false} ValueUpdate(s: seq<Digit>, i: nat, d: Digit)
    requires i < |s|
    ensures Value(s[i := d]) == Value(s) + (d - s[i]) * Pow10(|s| - 1 - i)
  {
    var last := |s| - 1;
    if i < last {
      var prefix := s[..last];
      assert s[i := d][..last] == prefix[i := d];
      ValueUpdate(prefix, i, d);
      var a, c, w := Value(prefix), d - s[i], Pow10(last - 1 - i);
      assert Value(s[i := d]) == (a + c * w) * 10 + s[last];
      ShiftPlace(a, c, w);
      assert Pow10(last - i) == 10 * w;
    } else {
      assert s[i := d][..last] == s[..last];
    }
  }

  /**
   * Overwriting the digit at index i of the text of x changes the digit in
   * that index's place and no other place.
   */
  lemma UpdateDigitAt(x: nat, i: nat, d: Digit, k: nat)
    requires i < |Digits(x)|
    ensures DigitAt(Value(Digits(x)[i := d]), k) ==
      if k == |Digits(x)| - 1 - i then d else DigitAt(x, k)
  {
    var s := Digits(x);
    ValueOfDigits(x);
    DigitAtValue(s[i := d], k);
    DigitAtValue(s, k);
  }

  /**
   * Overwriting the digit at index i of the text of x adds the difference
   * of the digits, times the weight of that index's place, to x.
   */
  lemma UpdateShift(x: nat, i: nat, d: Digit)
    requires i < |Digits(x)|
    ensures var k := |Digits(x)| - 1 - i;
      Value(Digits(x)[i := d]) == x + (d - DigitAt(x, k)) * Pow10(k)
  {
    var s := Digits(x);
    var k := |s| - 1 - i;
    assert Value(s) == x by { ValueOfDigits(x); }
    assert s[i] == DigitAt(x, k) by {
      ValueOfDigits(x);
      DigitAtValue(s, k);
    }
    ValueUpdate(s, i, d);
  }

  /**
   * Moving a term one place to the left multiplies its weight by ten; kept
   * apart so that the solver sees this product without ValueUpdate's context.
   */
  lemma ShiftPlace(a: int, c: int, w: int)
    ensures (a + c * w) * 10 == a * 10 + c * (10 * w)
  {
  }

  /** Pow10 is monotone. */
  lemma {:induction false} Pow10Monotone(j: nat, k: nat)
    requires j <= k
    ensures Pow10(j) <= Pow10(k)
  {
    if j < k {
      Pow10Monotone(j, k - 1);
    }
  }

  /** A number below 10^k has a decimal text of at most k digits. */
  lemma DigitCountBound(x: nat, k: nat)
    requires k >= 1 && x < Pow10(k)
    ensures |Digits(x)| <= k
  {
    var n := |Digits(x)|;
    if n > k {
      Pow10Monotone(k, n - 1);
    }
  }
}
