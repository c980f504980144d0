/**
 * `buyCandyBars` on arbitrary integers, as the unchecked source runs it: JavaScript's floor
 * division and sign-of-dividend `%`, and no rejection of negative amounts. Its corrected
 * form rejects them and otherwise counts as `CandyBar.BuyCandyBars` does.
 */
module CandyBarUnchecked {
  import opened Wrappers
  import opened CandyBar

  /** The quotient of a division truncated toward zero, as JavaScript's `%` uses it. */
  function TruncatedQuotient(a: int, b: int): int
    requires b > 0
  {
    if a >= 0 then a / b else -((-a) / b)
  }

  /** JavaScript's `%` on integers: the remainder of a division truncated toward zero, so
      it takes the sign of the dividend; with its bound this fixes it. */
  function JsRemainder(a: int, b: int): (r: int)
    requires b > 0
    ensures -b < r < b
    ensures a >= 0 ==> r == a % b
    ensures a < 0 ==> r <= 0
    ensures a == TruncatedQuotient(a, b) * b + r
  {
    if a >= 0 then a % b else -((-a) % b)
  }

  /**
   * One call of `buyCandyBars` as written, on arbitrary integers: `None` when one of the two
   * exits fires, otherwise the dollars and wrappers it recurses with. On naturals it is the
   * step `ComputeRound` describes; with negative dollars neither exit can fire.
   */
  function StepOnIntegers(dollars: int, wrappers: int): (next: Option<(int, int)>)
    ensures dollars >= 0 && wrappers >= 0 ==>
              && (next.None? <==> dollars == 0 && wrappers < CostWrapper)
              && (next.Some? ==> next.value == ((dollars + wrappers) / 3, (dollars + wrappers) % 3))
    ensures dollars < 0 ==> next.Some?
  {
    if dollars == 0 && wrappers == 0 then None
    else
      var fromDollars := dollars / CostDollar;
      var remainderDollars := JsRemainder(dollars, CostDollar);
      var totalWrappers := wrappers + fromDollars;
      var fromWrappers := totalWrappers / CostWrapper;
      var remainderWrappers := JsRemainder(totalWrappers, CostWrapper);
      if fromDollars == 0 && fromWrappers == 0 then None
      else Some((fromWrappers + remainderDollars, remainderWrappers))
  }

  /** As written, negative dollars are not rejected and the first call cannot exit. With
      one dollar owed the recursion never ends: it cycles through (-1, 0), (-1, -1),
      (-1, -2) and back to (-1, 0). */
  lemma NegativeDollarsCycle()
    ensures StepOnIntegers(-1, 0) == Some((-1, -1))
    ensures StepOnIntegers(-1, -1) == Some((-1, -2))
    ensures StepOnIntegers(-1, -2) == Some((-1, 0))
  {
  }

  /** Not every negative input loops: (1, -1) recurses to (0, 0), which exits, and the
      call returns 1 bar; (-1, 10) recurses to (3, 0), which yields 4 bars, and the call
      returns 4 + (-1) = 3. */
  lemma SomeNegativeInputsEnd()
    ensures StepOnIntegers(1, -1) == Some((0, 0)) && StepOnIntegers(0, 0) == None
    ensures StepOnIntegers(-1, 10) == Some((3, 0)) && BuyCandyBars(3, 0, 1) == 4
  {
    assert StepOnIntegers(1, -1) == Some((0, 0));
    assert StepOnIntegers(-1, 10) == Some((3, 0));
    BuyCandyBarsClosedForm(3, 0, 1);
  }

  /**
   * `buyCandyBars` with the input check it lacks: a negative amount is rejected (`None`),
   * and any other input yields the count, which the closed form gives. This also rejects
   * the negative inputs on which the unchecked source happens to end with a count.
   */
  function BuyCandyBarsChecked(dollars: int, wrappers: int): (bars: Option<nat>)
    ensures bars.None? <==> dollars < 0 || wrappers < 0
    ensures bars.Some? ==> bars.value == dollars + WrapperBars(dollars + wrappers)
  {
    if dollars < 0 || wrappers < 0 then None
    else
      BuyCandyBarsClosedForm(dollars, wrappers, 0);
      Some(BuyCandyBars(dollars, wrappers, 0))
  }
}
