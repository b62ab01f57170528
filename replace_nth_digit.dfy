/**
 * Replacing the n-th decimal digit of an integer.
 *
 * The routine takes the decimal text of |number|, checks the replacement
 * digit and then the position, turns the 1-based position into a 0-based
 * index (from the most significant end when `fromLeft` is set, from the
 * ones digit otherwise), checks the index against the text, splices the
 * new digit in, parses the text back and restores the sign.
 */
module ReplaceNthDigit {
  import opened Decimal

  /** The three ways a request can be refused. */
  datatype Error =
    | InvalidDigit     // the replacement is not a digit 0..9
    | InvalidPosition  // the 1-based position is below 1
    | OutOfRange       // the position names no digit of the number

  datatype Result = Ok(value: int) | Err(error: Error)

  function Abs(x: int): (m: nat)
    ensures m == x || m == -x
  {
    if x < 0 then -x else x
  }

  /**
   * The decimal text of |number|: the working representation. It carries
   * no sign, has at least one digit and no leading zero.
   */
  function Magnitude(number: int): (s: seq<Digit>)
    ensures Canonical(s)
  {
    Digits(Abs(number))
  }

  /** The working text parses back to |number|. */
  lemma MagnitudeParses(number: int)
    ensures Value(Magnitude(number)) == Abs(number)
  {
    ValueOfDigits(Abs(number));
  }

  /**
   * The 0-based index into a text of length len that position n names.
   * For a position of at least 1 the index lies inside the text exactly
   * when the position is at most the text's length, from either side.
   */
  function Index(len: nat, n: int, fromLeft: bool): (i: int)
    ensures 1 <= n ==> (0 <= i < len <==> n <= len)
  {
    if fromLeft then n - 1 else len - n
  }

  /**
   * The place value (0 = ones) that position n names in a text of length
   * len, for a position that names a digit.
   */
  function Place(len: nat, n: int, fromLeft: bool): (k: nat)
    requires 1 <= n <= len
    ensures k == len - 1 - Index(len, n, fromLeft)
  {
    if fromLeft then len - n else n - 1
  }

  /** The text s with the digit at index idx rebuilt as d. */
  function Splice(s: seq<Digit>, idx: nat, d: Digit): (t: seq<Digit>)
    requires idx < |s|
    ensures |t| == |s| && t[idx] == d
    ensures forall j :: 0 <= j < |s| && j != idx ==> t[j] == s[j]
  {
    s[..idx] + [d] + s[idx + 1..]
  }

  /**
   * The routine itself. The digit is checked before the position, so a
   * request with both wrong reports the digit; a position past either end
   * of the text is out of range whichever side it is counted from.
   */
  function ReplaceNthDigit(number: int, n: int, newDigit: int, fromLeft: bool := false): (r: Result)
    ensures r == Err(InvalidDigit) <==> newDigit < 0 || newDigit > 9
    ensures r == Err(InvalidPosition) <==> 0 <= newDigit <= 9 && n <= 0
    ensures r == Err(OutOfRange) <==> 0 <= newDigit <= 9 && n > |Magnitude(number)|
    ensures r.Ok? <==> 0 <= newDigit <= 9 && 1 <= n <= |Magnitude(number)|
    ensures r.Ok? && number < 0 ==> r.value <= 0
    ensures r.Ok? && number >= 0 ==> r.value >= 0
  {
    var s := Magnitude(number);
    if newDigit < 0 || newDigit > 9 then Err(InvalidDigit)
    else if n <= 0 then Err(InvalidPosition)
    else
      var idx := Index(|s|, n, fromLeft);
      if idx < 0 || idx >= |s| then Err(OutOfRange)
      else
        var magnitude: int := Value(Splice(s, idx, newDigit));
        Ok(if number < 0 then -magnitude else magnitude)
  }

  /**
   * On success the magnitude of the result is what the spliced text
   * denotes, and the result is negative exactly when the number was
   * negative and that magnitude is not zero.
   */
  lemma SuccessValue(number: int, n: int, newDigit: int, fromLeft: bool)
    requires ReplaceNthDigit(number, n, newDigit, fromLeft).Ok?
    ensures var s := Magnitude(number);
      var idx := Index(|s|, n, fromLeft);
      var r := ReplaceNthDigit(number, n, newDigit, fromLeft).value;
      && 0 <= idx < |s|
      && Abs(r) == Value(s[idx := newDigit])
      && (r < 0 <==> number < 0 && r != 0)
  {
    var s := Magnitude(number);
    var idx := Index(|s|, n, fromLeft);
    assert Splice(s, idx, newDigit) == s[idx := newDigit];
  }

  /**
   * Only the addressed digit changes: every decimal place of the new
   * magnitude holds the old digit, except the addressed place, which holds
   * the new digit.
   */
  lemma {:induction false} OnlyAddressedDigitChanges(number: int, n: int, newDigit: int, fromLeft: bool)
    requires ReplaceNthDigit(number, n, newDigit, fromLeft).Ok?
    ensures var len := |Magnitude(number)|;
      var r := ReplaceNthDigit(number, n, newDigit, fromLeft).value;
      1 <= n <= len &&
      forall k: nat :: DigitAt(Abs(r), k) ==
        if k == Place(len, n, fromLeft) then newDigit else DigitAt(Abs(number), k)
  {
    var s := Magnitude(number);
    var idx := Index(|s|, n, fromLeft);
    var m := Abs(ReplaceNthDigit(number, n, newDigit, fromLeft).value);
    SuccessValue(number, n, newDigit, fromLeft);
    assert m == Value(Digits(Abs(number))[idx := newDigit]);
    forall k: nat
      ensures DigitAt(m, k) == if k == Place(|s|, n, fromLeft) then newDigit else DigitAt(Abs(number), k)
    {
      UpdateDigitAt(Abs(number), idx, newDigit, k);
    }
  }

  /**
   * The same change as arithmetic: the magnitude moves by the difference
   * between the new and the old digit, weighted by the place's power of ten.
   */
  lemma {:induction false} MagnitudeShift(number: int, n: int, newDigit: int, fromLeft: bool)
    requires ReplaceNthDigit(number, n, newDigit, fromLeft).Ok?
    ensures var len := |Magnitude(number)|;
      var r := ReplaceNthDigit(number, n, newDigit, fromLeft).value;
      var k := Place(len, n, fromLeft);
      Abs(r) == Abs(number) + (newDigit - DigitAt(Abs(number), k)) * Pow10(k)
  {
    var s := Magnitude(number);
    var m := Abs(ReplaceNthDigit(number, n, newDigit, fromLeft).value);
    assert 1 <= n <= |s| && m == Value(s[Index(|s|, n, fromLeft) := newDigit]) by {
      SuccessValue(number, n, newDigit, fromLeft);
    }
    PositionShift(Abs(number), n, newDigit, fromLeft);
  }

  /** MagnitudeShift on the text of a natural, apart from the routine's guards. */
  lemma PositionShift(x: nat, n: int, d: Digit, fromLeft: bool)
    requires 1 <= n <= |Digits(x)|
    ensures var s := Digits(x);
      var k := Place(|s|, n, fromLeft);
      Value(s[Index(|s|, n, fromLeft) := d]) == x + (d - DigitAt(x, k)) * Pow10(k)
  {
    UpdateShift(x, Index(|Digits(x)|, n, fromLeft), d);
  }

  /**
   * The decimal text of the new magnitude is the old text with the one
   * digit replaced, unless the replacement put a zero in front of other
   * digits: parsing drops that zero and the text gets shorter.
   */
  lemma {:induction false} ResultText(number: int, n: int, newDigit: int, fromLeft: bool)
    requires ReplaceNthDigit(number, n, newDigit, fromLeft).Ok?
    ensures var s := Magnitude(number);
      var idx := Index(|s|, n, fromLeft);
      var r := ReplaceNthDigit(number, n, newDigit, fromLeft).value;
      0 <= idx < |s| &&
      if idx == 0 && newDigit == 0 && |s| > 1
      then |Magnitude(r)| < |s|
      else Magnitude(r) == s[idx := newDigit]
  {
    var s := Magnitude(number);
    var idx := Index(|s|, n, fromLeft);
    var r := ReplaceNthDigit(number, n, newDigit, fromLeft).value;
    var t := s[idx := newDigit];
    SuccessValue(number, n, newDigit, fromLeft);
    if idx == 0 && newDigit == 0 && |s| > 1 {
      assert t[1..][..|t| - 2] == t[..|t| - 1][1..];
      LeadingZero(t);
      DigitCountBound(Abs(r), |s| - 1);
    } else {
      DigitsOfValue(t);
    }
  }

  /** The number of digits of the magnitude never grows. */
  lemma DigitCountNeverGrows(number: int, n: int, newDigit: int, fromLeft: bool)
    requires ReplaceNthDigit(number, n, newDigit, fromLeft).Ok?
    ensures |Magnitude(ReplaceNthDigit(number, n, newDigit, fromLeft).value)| <= |Magnitude(number)|
  {
    ResultText(number, n, newDigit, fromLeft);
  }

  /** Writing back the digit that is already in place gives the number back. */
  lemma SameDigitRoundTrip(number: int, n: int, fromLeft: bool)
    requires 1 <= n <= |Magnitude(number)|
    ensures var s := Magnitude(number);
      ReplaceNthDigit(number, n, s[Index(|s|, n, fromLeft)], fromLeft) == Ok(number)
  {
    var s := Magnitude(number);
    var idx := Index(|s|, n, fromLeft);
    SuccessValue(number, n, s[idx], fromLeft);
    assert s[idx := s[idx]] == s;
    ValueOfDigits(Abs(number));
  }

  /**
   * Position n from the right and position len + 1 - n from the left name
   * the same digit, so the two requests give the same outcome; in
   * particular the ones digit is position 1 from the right and position
   * len from the left.
   */
  lemma BothSidesMeet(number: int, n: int, newDigit: int)
    requires 1 <= n <= |Magnitude(number)|
    ensures var len := |Magnitude(number)|;
      ReplaceNthDigit(number, n, newDigit, false) == ReplaceNthDigit(number, len + 1 - n, newDigit, true)
  {
  }

  /** The ones digit is position 1 from the right and position len from the left. */
  lemma OnesDigitBothSides(number: int, newDigit: int)
    ensures ReplaceNthDigit(number, 1, newDigit, false)
         == ReplaceNthDigit(number, |Magnitude(number)|, newDigit, true)
  {
    BothSidesMeet(number, 1, newDigit);
  }

  /* The rows of the routine's own test table, with their expected results. */

  /** 1545, first digit from the right set to 9. */
  lemma TableOnesDigit()
    ensures ReplaceNthDigit(1545, 1, 9) == Ok(1549)
  {
    assert Magnitude(1545) == [1, 5, 4, 5];
    assert Splice([1, 5, 4, 5], 3, 9) == [1, 5, 4, 9];
    ValueOfDigits(1549);
    assert Digits(1549) == [1, 5, 4, 9];
  }

  /** 1545, second digit from the right set to 9. */
  lemma TableTensDigit()
    ensures ReplaceNthDigit(1545, 2, 9, false) == Ok(1595)
  {
    assert Magnitude(1545) == [1, 5, 4, 5];
    assert Splice([1, 5, 4, 5], 2, 9) == [1, 5, 9, 5];
    ValueOfDigits(1595);
    assert Digits(1595) == [1, 5, 9, 5];
  }

  /** 1545, fourth digit from the right set to 0: the leading zero is dropped. */
  lemma TableLeadingZero()
    ensures ReplaceNthDigit(1545, 4, 0, false) == Ok(545)
  {
    assert Magnitude(1545) == [1, 5, 4, 5];
    assert Splice([1, 5, 4, 5], 0, 0) == [0, 5, 4, 5];
    LeadingZero([0, 5, 4, 5]);
    assert [0, 5, 4, 5][1..] == [5, 4, 5];
    ValueOfDigits(545);
    assert Digits(545) == [5, 4, 5];
  }

  /** 12345, second digit from the left set to 0. */
  lemma TableFromLeft()
    ensures ReplaceNthDigit(12345, 2, 0, true) == Ok(10345)
  {
    assert Magnitude(12345) == [1, 2, 3, 4, 5];
    assert Splice([1, 2, 3, 4, 5], 1, 0) == [1, 0, 3, 4, 5];
    ValueOfDigits(10345);
    assert Digits(10345) == [1, 0, 3, 4, 5];
  }

  /** -9876, first digit from the right set to 1: the sign is kept. */
  lemma TableNegative()
    ensures ReplaceNthDigit(-9876, 1, 1, false) == Ok(-9871)
  {
    assert Magnitude(-9876) == [9, 8, 7, 6];
    assert Splice([9, 8, 7, 6], 3, 1) == [9, 8, 7, 1];
    ValueOfDigits(9871);
    assert Digits(9871) == [9, 8, 7, 1];
  }

  /** Zero has the one digit 0, addressable from either side. */
  lemma ZeroHasOneDigit()
    ensures ReplaceNthDigit(0, 1, 5, false) == Ok(5)
    ensures ReplaceNthDigit(0, 1, 0, true) == Ok(0)
    ensures ReplaceNthDigit(0, 2, 5, true) == Err(OutOfRange)
  {
  }

  /** A negative number keeps its sign, unless its magnitude becomes zero. */
  lemma NegativeEdgeCases()
    ensures ReplaceNthDigit(-105, 3, 0, true) == Ok(-100)
    ensures ReplaceNthDigit(-7, 1, 0, false) == Ok(0)
  {
    assert Magnitude(-105) == [1, 0, 5];
    assert Splice([1, 0, 5], 2, 0) == [1, 0, 0];
    ValueOfDigits(100);
    assert Digits(100) == [1, 0, 0];
    assert Magnitude(-7) == [7];
    ValueOfDigits(0);
  }

  /** Each error kind, and the digit error winning over the position error. */
  lemma ErrorCases()
    ensures ReplaceNthDigit(12, 5, 3, false) == Err(OutOfRange)
    ensures ReplaceNthDigit(12, 3, 3, true) == Err(OutOfRange)
    ensures ReplaceNthDigit(12, 1, 10, false) == Err(InvalidDigit)
    ensures ReplaceNthDigit(12, 0, 3, false) == Err(InvalidPosition)
    ensures ReplaceNthDigit(12, 0, -1, true) == Err(InvalidDigit)
  {
  }
}
