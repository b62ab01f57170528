# replace_nth_digit in Dafny

A verified model of `replace_nth_digit`, a routine that replaces one decimal digit of an integer and returns the new integer. The caller passes:

- the integer;
- a 1-based position, counted by default from the ones digit, or from the most significant digit when `from_left` is set;
- a replacement digit from 0 to 9.

The routine first converts the integer's absolute value to its decimal text and works on that text. Next it checks the digit, then the position. It then turns the position into a 0-based index and checks that index against the text. If all checks pass, it splices the new digit into the text, parses the text back (any leading zero the splice made disappears) and restores the sign.

The project has two modules:

- `Decimal` (`decimal.dfy`) models Python's `str` and `int` on natural numbers. `Digits(x)` is the decimal text of `x` as a most-significant-first sequence of digit values: `[0]` for zero, and no leading zero otherwise. `Value(s)` is the number a text denotes, and it accepts leading zeros as `int` does. `DigitAt(x, k)` is the digit in place `k` of `x` (place 0 is the ones place), defined by repeated division by ten. It is the arithmetic reference that the text-level lemmas are checked against.
- `ReplaceNthDigit` (`replace_nth_digit.dfy`) holds the routine as the pure function `ReplaceNthDigit`. The function returns a `Result`: either `Ok(value)` or `Err` with one of `InvalidDigit`, `InvalidPosition` or `OutOfRange`. The module also holds the lemmas about the function.

Because it is a function, the model is deterministic by construction.

## Model

| member | source | states |
|---|---|---|
| `Decimal.Digits` | replace_nth_digit.py:14 | the text of `x` has at least one digit and no leading zero unless `x` is 0; a text of `k` digits satisfies `10^(k-1) <= x < 10^k` (the lower bound only when `k > 1`) |
| `Decimal.Value` | replace_nth_digit.py:29 | a text of `k` digits parses to a number below `10^k`, leading zeros included |
| `Decimal.ValueOfDigits` | replace_nth_digit.py:29 | parsing the text of `x` gives `x` back: `int(str(x)) == x` |
| `Decimal.DigitsOfValue` | replace_nth_digit.py:29 | the text of the number a canonical text denotes is that text: `str(int(t)) == t` |
| `Decimal.ValuePositive` | replace_nth_digit.py:29 | a text whose first digit is not 0 parses to a positive number |
| `Decimal.LeadingZero` | replace_nth_digit.py:29 | a leading zero does not change the parsed value (`int("045") == int("45")`) |
| `Decimal.DigitAtValue` | replace_nth_digit.py:28-29 | the digit in place `k` of the parsed value is the text's digit `k` positions from its end, and 0 past the text's length |
| `Decimal.ValueUpdate` | replace_nth_digit.py:28-29 | overwriting index `i` with `d` moves the value by `(d - old digit) * 10^(len-1-i)` |
| `Decimal.UpdateDigitAt` | replace_nth_digit.py:28-29 | overwriting index `i` of the text of `x` changes the digit of place `len-1-i` to `d` and leaves every other place of `x` as it was |
| `Decimal.UpdateShift` | replace_nth_digit.py:28-29 | overwriting index `i` of the text of `x` gives `x + (d - DigitAt(x, k)) * 10^k` with `k = len-1-i` |
| `Decimal.DigitCountBound` | replace_nth_digit.py:29 | a number below `10^k` has a text of at most `k` digits |
| `ReplaceNthDigit.Abs` | replace_nth_digit.py:14 | the magnitude is `x` or `-x` and is never negative |
| `ReplaceNthDigit.Magnitude` | replace_nth_digit.py:14 | the working text of `abs(number)` has at least one digit and no leading zero unless it is the text of 0 |
| `ReplaceNthDigit.MagnitudeParses` | replace_nth_digit.py:14-29 | the working text parses back to `abs(number)`: `int(str(abs(number))) == abs(number)` |
| `ReplaceNthDigit.Index` | replace_nth_digit.py:20-26 | for a position `n >= 1`, the 0-based index lies inside a text of length `len` exactly when `n <= len`, from either side, so the bounds check rejects exactly the positions past the digit count |
| `ReplaceNthDigit.Place` | replace_nth_digit.py:20-23 | a valid position names place `len-1-idx`: `len-n` from the left and `n-1` from the right |
| `ReplaceNthDigit.Splice` | replace_nth_digit.py:28 | the rebuilt text has the old length, holds `d` at `idx` and the old digit at every other index |
| `ReplaceNthDigit.ReplaceNthDigit` | replace_nth_digit.py:13-30 | the digit error occurs exactly when the digit is outside 0..9, whatever the position; the position error occurs exactly when the digit is valid and `n <= 0`; out of range occurs exactly when both are valid and `n` exceeds the digit count, from either side; otherwise the result is `Ok`; an `Ok` result is `<= 0` for a negative number and `>= 0` otherwise |
| `ReplaceNthDigit.SuccessValue` | replace_nth_digit.py:28-30 | on success the index is inside the text and the result's magnitude is the value of the old text with only index `idx` changed; the result is negative exactly when the number is negative and the result is not 0 |
| `ReplaceNthDigit.OnlyAddressedDigitChanges` | replace_nth_digit.py:20-29 | on success every decimal place of the result's magnitude equals that of `abs(number)`, except the addressed place, which holds the new digit |
| `ReplaceNthDigit.MagnitudeShift` | replace_nth_digit.py:20-29 | on success `abs(result) == abs(number) + (new digit - old digit) * 10^place`, where `place` is `n-1` from the right |
| `ReplaceNthDigit.PositionShift` | replace_nth_digit.py:20-29 | for a valid position, overwriting the digit it names in the text of `x` gives `x + (d - old digit) * 10^place` |
| `ReplaceNthDigit.ResultText` | replace_nth_digit.py:28-29 | on success the result's text is the old text with index `idx` set to the new digit, except when a 0 is written over the first digit of a text longer than one digit; then the result's text is strictly shorter |
| `ReplaceNthDigit.DigitCountNeverGrows` | replace_nth_digit.py:28-29 | the result's magnitude never has more digits than `abs(number)` |
| `ReplaceNthDigit.SameDigitRoundTrip` | replace_nth_digit.py:14-30 | writing the digit that is already at a valid position, from either side, returns `Ok(number)` |
| `ReplaceNthDigit.BothSidesMeet` | replace_nth_digit.py:20-23 | position `n` from the right and position `len+1-n` from the left give the same outcome for every digit |
| `ReplaceNthDigit.OnesDigitBothSides` | replace_nth_digit.py:21-23 | position 1 from the right and position `len` from the left give the same outcome |
| `ReplaceNthDigit.TableOnesDigit` | replace_nth_digit.py:35 | `(1545, 1, 9)` with the default direction (from the right) gives 1549 |
| `ReplaceNthDigit.TableTensDigit` | replace_nth_digit.py:36 | `(1545, 2, 9, right)` gives 1595 |
| `ReplaceNthDigit.TableLeadingZero` | replace_nth_digit.py:37 | `(1545, 4, 0, right)` gives 545 |
| `ReplaceNthDigit.TableFromLeft` | replace_nth_digit.py:38 | `(12345, 2, 0, left)` gives 10345 |
| `ReplaceNthDigit.TableNegative` | replace_nth_digit.py:39 | `(-9876, 1, 1, right)` gives -9871 |
| `ReplaceNthDigit.ZeroHasOneDigit` | replace_nth_digit.py:14-30 | 0 has the single digit 0: `(0, 1, 5)` gives 5, `(0, 1, 0, left)` gives 0, and position 2 is out of range |
| `ReplaceNthDigit.NegativeEdgeCases` | replace_nth_digit.py:29-30 | `(-105, 3, 0, left)` gives -100; `(-7, 1, 0)` gives 0, not a negative zero |
| `ReplaceNthDigit.ErrorCases` | replace_nth_digit.py:15-26 | each error kind on concrete input; with both the digit and the position wrong, the digit error is reported |

## Left out

- `ReplaceNthDigit.ReplaceNthDigit`: the interpreter's limit on converting an int to text is not modelled. Recent CPython versions set a default limit of 4300 digits with `sys.set_int_max_str_digits`. `str(abs(number))` on replace_nth_digit.py:14 runs before the digit and position checks, so above that limit the routine raises `ValueError` for every request. The model treats magnitudes as unbounded and gives its usual outcome. For example, `(10**4300, 1, 5)` gives `Ok(10^4300 + 5)`, and `(10**4300, 1, 10)` gives `Err(InvalidDigit)`. The "exactly when" clauses of its contract hold only for magnitudes below that limit in such interpreters.
- `main` (replace_nth_digit.py:54-90) is not part of this model. It covers argument parsing, the interactive prompts, printing and exit codes, which are all I/O.
- The loop of `_run_tests` (replace_nth_digit.py:41-51) is not part of this model. It prints and returns exit codes. Its case table is modelled by the `Table*` lemmas.
- Exception classes and messages are not modelled. The source raises `ValueError` for both a bad digit and a bad position, and `IndexError` for a bad index. The model keeps the three conditions apart as the `Error` variants and has no message text.
- Arguments that are not Python `int`s are not modelled. The source's type hints do not enforce this, so floats or bools could reach the routine there. The model's parameters are mathematical integers and a boolean.
- The decimal text is a sequence of digit values, not a string of characters. `str(new_digit)` is the one-element sequence `[newDigit]`.
