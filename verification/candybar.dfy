/**
 * `buyCandyBars(dollars, wrappers, round)`: a bar costs one dollar or three wrappers, and
 * every bar bought leaves one wrapper. Each round spends all dollars on bars, trades the
 * wrappers for dollars, and recurses with what is left. This module works on natural
 * numbers; `CandyBarUnchecked` shows what the unchecked source does with negative ones.
 */
module CandyBar {

  /** The price of a bar in dollars. */
  const CostDollar: nat := 1

  /** The price of a bar in wrappers. */
  const CostWrapper: nat := 3

  /** The quantities one round computes from the dollars and wrappers it starts with. */
  datatype Round = Round(fromDollars: nat, remainderDollars: nat, fromWrappers: nat, remainderWrappers: nat)

  /** The round stops the game: no bar from dollars and no dollar from wrappers. */
  predicate Exhausted(r: Round) {
    r.fromDollars == 0 && r.fromWrappers == 0
  }

  /**
   * One round's arithmetic. Since a bar costs one dollar, every dollar buys a bar and none
   * is left over; the next round then starts with `(d + w) / 3` dollars and `(d + w) % 3`
   * wrappers. Unless the round is exhausted, `2 * dollars + wrappers` strictly drops.
   */
  function ComputeRound(dollars: nat, wrappers: nat): (r: Round)
    ensures r.fromDollars == dollars && r.remainderDollars == 0
    ensures r.fromWrappers + r.remainderDollars == (dollars + wrappers) / 3
    ensures r.remainderWrappers == (dollars + wrappers) % 3
    ensures Exhausted(r) <==> dollars == 0 && wrappers < 3
    ensures !Exhausted(r) ==>
              2 * (r.fromWrappers + r.remainderDollars) + r.remainderWrappers < 2 * dollars + wrappers
  {
    var fromDollars := dollars / CostDollar;
    var remainderDollars := dollars % CostDollar;
    var totalWrappers := wrappers + fromDollars;
    Round(fromDollars, remainderDollars, totalWrappers / CostWrapper, totalWrappers % CostWrapper)
  }

  /**
   * `buyCandyBars`: no resources gives 0; an exhausted round gives 0; otherwise the bars
   * bought with dollars plus those of the next round. `round` only numbers the rounds.
   */
  function BuyCandyBars(dollars: nat, wrappers: nat, round: int): (bars: nat)
    ensures bars >= dollars
    ensures dollars == 0 && wrappers < CostWrapper ==> bars == 0
    decreases 2 * dollars + wrappers
  {
    if dollars == 0 && wrappers == 0 then 0
    else
      var r := ComputeRound(dollars, wrappers);
      if Exhausted(r) then 0
      else BuyCandyBars(r.fromWrappers + r.remainderDollars, r.remainderWrappers, round + 1) + r.fromDollars
  }

  /** Bars a pile of `w` wrappers is worth when traded three for one, each bar giving its
      wrapper back: every trade uses up two wrappers net, and the last needs three. */
  function WrapperBars(w: nat): nat {
    if w == 0 then 0 else (w - 1) / 2
  }

  /** Closed form: the dollars' bars, plus what all the resulting wrappers are worth. */
  lemma {:induction false} BuyCandyBarsClosedForm(dollars: nat, wrappers: nat, round: int)
    ensures BuyCandyBars(dollars, wrappers, round) == dollars + WrapperBars(dollars + wrappers)
    decreases 2 * dollars + wrappers
  {
    if dollars == 0 && wrappers == 0 {
    } else {
      var r := ComputeRound(dollars, wrappers);
      if !Exhausted(r) {
        var q, rem := r.fromWrappers + r.remainderDollars, r.remainderWrappers;
        BuyCandyBarsClosedForm(q, rem, round + 1);
        if dollars + wrappers >= 3 {
          assert 2 * q + (q + rem - 1) == dollars + wrappers - 1;
        }
      }
    }
  }

  /** With only dollars (the defaults `wrappers = 0`, `round = 0`), `d` dollars buy
      `d + (d - 1) / 2` bars. */
  lemma DollarsOnly(dollars: nat)
    ensures BuyCandyBars(dollars, 0, 0) == if dollars == 0 then 0 else dollars + (dollars - 1) / 2
  {
    BuyCandyBarsClosedForm(dollars, 0, 0);
  }

  /** The count never exceeds the dollars plus half of all the wrappers they produce. */
  lemma BuyCandyBarsBounds(dollars: nat, wrappers: nat, round: int)
    ensures dollars <= BuyCandyBars(dollars, wrappers, round) <= dollars + (dollars + wrappers) / 2
  {
    BuyCandyBarsClosedForm(dollars, wrappers, round);
  }

  /** The round counter does not affect the result: both counts equal the closed form,
      which does not mention it. */
  lemma RoundIrrelevant(dollars: nat, wrappers: nat, round1: int, round2: int)
    ensures BuyCandyBars(dollars, wrappers, round1) == BuyCandyBars(dollars, wrappers, round2)
  {
    BuyCandyBarsClosedForm(dollars, wrappers, round1);
    BuyCandyBarsClosedForm(dollars, wrappers, round2);
  }
}
