/**
 * `fizzBuzz(start, end, printFunction)`: validates the bounds, then prints one message per
 * integer from `start` upwards. The print function is modelled as a trace of printed
 * messages that the call extends.
 */
module FizzBuzz {
  import opened Wrappers

  /** The two ways a typed call can be rejected, in the order they are checked. */
  datatype InputError =
    | StartAfterEnd  // thrown as "cannot start on or after end"
    | BeforeZero     // thrown as "cannot start or end before 0"

  /** The printed trace after the call, and the error it threw, if any. */
  datatype Run = Run(printed: seq<string>, error: Option<InputError>)

  /** The character of a decimal digit. */
  function DigitChar(d: nat): char
    requires d < 10
  {
    "0123456789"[d]
  }

  /** The character is a decimal digit. */
  predicate IsDigit(c: char) {
    '0' <= c <= '9'
  }

  /** The value of a decimal digit. */
  function DigitValue(c: char): nat
    requires IsDigit(c)
  {
    c as int - '0' as int
  }

  /** A non-empty run of digits with no leading zero (a lone "0" allowed). */
  predicate IsDecimal(s: string) {
    && |s| >= 1
    && (forall i :: 0 <= i < |s| ==> IsDigit(s[i]))
    && (|s| > 1 ==> s[0] != '0')
  }

  /**
   * The decimal rendering of a natural number. A template literal `${i}` gives the same
   * digits for every integer below 10^21 (from there on it switches to exponent form).
   */
  function Decimal(n: nat): (s: string)
    ensures IsDecimal(s)
    decreases n
  {
    if n < 10 then [DigitChar(n)] else Decimal(n / 10) + [DigitChar(n % 10)]
  }

  /** The number a string of digits denotes; the inverse of `Decimal`. */
  function DecimalValue(s: string): nat
    requires forall i :: 0 <= i < |s| ==> IsDigit(s[i])
  {
    if |s| == 0 then 0 else 10 * DecimalValue(s[..|s| - 1]) + DigitValue(s[|s| - 1])
  }

  /** Reading back a rendered number gives the number. */
  lemma {:induction false} DecimalRoundTrip(n: nat)
    ensures DecimalValue(Decimal(n)) == n
    decreases n
  {
    var s := Decimal(n);
    if n >= 10 {
      DecimalRoundTrip(n / 10);
      assert s[..|s| - 1] == Decimal(n / 10);
    }
  }

  /**
   * The message printed for `i`. Each of the four forms is determined by divisibility, in
   * both directions: a number is printed exactly when neither 3 nor 5 divides `i`, and it
   * reads back as `i`.
   */
  function Message(i: nat): (m: string)
    ensures m == "FizzBuzz" <==> i % 3 == 0 && i % 5 == 0
    ensures m == "Fizz" <==> i % 3 == 0 && i % 5 != 0
    ensures m == "Buzz" <==> i % 3 != 0 && i % 5 == 0
    ensures IsDecimal(m) <==> i % 3 != 0 && i % 5 != 0
    ensures IsDecimal(m) ==> DecimalValue(m) == i
  {
    var divisibleByThree := i % 3 == 0;
    var divisibleByFive := i % 5 == 0;
    if divisibleByFive && divisibleByThree then "FizzBuzz"
    else if divisibleByThree then "Fizz"
    else if divisibleByFive then "Buzz"
    else
      var s := Decimal(i);
      assert IsDigit(s[0]);
      DecimalRoundTrip(i);
      s
  }

  /**
   * `fizzBuzz`: `start > end` is rejected first, then a negative bound. Otherwise the loop
   * is a do-while: it prints the message for `start` before testing the bound, so
   * `start == end` still prints one message. Messages are appended to `printed`.
   */
  method FizzBuzz(start: int, end: int, printed: seq<string>) returns (run: Run)
    ensures start > end ==> run == Run(printed, Some(StartAfterEnd))
    ensures start <= end && (start < 0 || end < 0) ==> run == Run(printed, Some(BeforeZero))
    ensures 0 <= start <= end ==>
              && run.error == None
              && |run.printed| == |printed| + (if start == end then 1 else end - start)
              && run.printed[..|printed|] == printed
              && forall k :: |printed| <= k < |run.printed| ==> run.printed[k] == Message(start + (k - |printed|))
  {
    if start > end {
      return Run(printed, Some(StartAfterEnd));
    }
    if start < 0 || end < 0 {
      return Run(printed, Some(BeforeZero));
    }
    var i: nat := start;
    var out := printed;
    while true
      invariant start <= i && (i == start || i < end)
      invariant |out| == |printed| + (i - start)
      invariant out[..|printed|] == printed
      invariant forall k :: |printed| <= k < |out| ==> out[k] == Message(start + (k - |printed|))
      decreases end - i
    {
      out := out + [Message(i)];
      i := i + 1;
      if i >= end {
        return Run(out, None);
      }
    }
  }

  /** As written, equal bounds pass validation and print the message for `start`, although
      `end` is documented as exclusive and the first error reads "on or after end". */
  method EqualBoundsPrintOne() returns (run: Run)
    ensures run == Run(["Fizz"], None)
  {
    run := FizzBuzz(3, 3, []);
    assert run.printed[0] == Message(3);
  }

  /**
   * `fizzBuzz` with the half-open range its documentation states: `start >= end` is
   * rejected as "on or after end", so exactly the integers `start <= i < end` are printed.
   */
  method FizzBuzzExclusive(start: int, end: int, printed: seq<string>) returns (run: Run)
    ensures start >= end ==> run == Run(printed, Some(StartAfterEnd))
    ensures start < end && start < 0 ==> run == Run(printed, Some(BeforeZero))
    ensures 0 <= start < end ==>
              && run.error == None
              && |run.printed| == |printed| + (end - start)
              && run.printed[..|printed|] == printed
              && forall k :: |printed| <= k < |run.printed| ==> run.printed[k] == Message(start + (k - |printed|))
  {
    if start >= end {
      return Run(printed, Some(StartAfterEnd));
    }
    if start < 0 || end < 0 {
      return Run(printed, Some(BeforeZero));
    }
    var i: nat := start;
    var out := printed;
    while i < end
      invariant start <= i <= end
      invariant |out| == |printed| + (i - start)
      invariant out[..|printed|] == printed
      invariant forall k :: |printed| <= k < |out| ==> out[k] == Message(start + (k - |printed|))
    {
      out := out + [Message(i)];
      i := i + 1;
    }
    return Run(out, None);
  }
}
