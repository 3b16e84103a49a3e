/**
 * The income estimator behind the assignments slider and the tier
 * highlighting. landing-new.js prices each assignment by a four-band rate
 * table and shows a ±10% range; landing-script.js shows a flat $500–$600 per
 * assignment range. Both show yearly figures as twelve times the monthly
 * ones and mark one of three tiers active.
 */
module Income {
  import opened Flags

  /** The figures shown next to the slider. */
  datatype Estimate = Estimate(monthlyLow: int, monthlyHigh: int, yearlyLow: int, yearlyHigh: int)

  /** Yearly figures are exactly twelve times the monthly ones. */
  predicate YearlyIsTwelveMonths(e: Estimate) {
    e.yearlyLow == 12 * e.monthlyLow && e.yearlyHigh == 12 * e.monthlyHigh
  }

  /** JavaScript's `Math.round` applied to the exact rational num/den: the
      nearest integer, halves rounded up. */
  function JsRound(num: int, den: int): (r: int)
    requires den > 0
    ensures 2 * den * r <= 2 * num + den < 2 * den * r + 2 * den
  {
    (2 * num + den) / (2 * den)
  }

  /** Rounding is the identity on a quotient that is already whole. */
  lemma JsRoundExact(q: int, den: int)
    requires den > 0
    ensures JsRound(q * den, den) == q
  {
    var r := JsRound(q * den, den);
    if r > q {
      assert 2 * den * r >= 2 * den * (q + 1) by { MulMonotone(2 * den, q + 1, r); }
    } else if r < q {
      assert 2 * den * (r + 1) <= 2 * den * q by { MulMonotone(2 * den, r + 1, q); }
    }
  }

  lemma MulMonotone(k: int, a: int, b: int)
    requires k >= 0 && a <= b
    ensures k * a <= k * b
  {
  }

  // ---------------------------------------------------------------------------
  // landing-new.js
  // ---------------------------------------------------------------------------

  /** Dollars per assignment: 500 up to 8 assignments, 550 up to 15, 600 up
      to 25 and 650 above. */
  function RatePerAssignment(assignments: int): (rate: int)
    ensures 500 <= rate <= 650 && rate % 50 == 0
  {
    if assignments <= 8 then 500
    else if assignments <= 15 then 550
    else if assignments <= 25 then 600
    else 650
  }

  function MonthlyIncome(assignments: int): int {
    assignments * RatePerAssignment(assignments)
  }

  /** Every rate is a multiple of 50, so every monthly income is too. */
  lemma MonthlyMultipleOf50(a: int)
    ensures MonthlyIncome(a) % 50 == 0
  {
    var k := RatePerAssignment(a) / 50;
    assert MonthlyIncome(a) == (a * k) * 50;
  }

  /** The rate never drops as assignments grow. */
  lemma RateMonotone(a: int, b: int)
    requires a <= b
    ensures RatePerAssignment(a) <= RatePerAssignment(b)
  {
  }

  /** More assignments always show a strictly larger monthly income. */
  lemma MonthlyStrictlyIncreasing(a: int, b: int)
    requires a < b
    ensures MonthlyIncome(a) < MonthlyIncome(b)
  {
    var ra, rb := RatePerAssignment(a), RatePerAssignment(b);
    if a >= 0 {
      MulMonotone(a, ra, rb);
      assert a * rb < b * rb;
    } else if b <= 8 {
      assert ra == 500 && rb == 500;
    } else {
      assert a * ra < 0;
      assert b * rb > 0;
    }
  }

  /** `updateIncome` (and its copy `window.calculateIncome`) of
      landing-new.js: the monthly range is `Math.round` of 90% and 110% of
      the monthly income, and the yearly range is twelve times it. Because the
      monthly income is a multiple of 50 the rounding loses nothing: the bounds
      are exactly nine and eleven tenths of it. */
  function TieredEstimate(assignments: int): (e: Estimate)
    ensures 10 * e.monthlyLow == 9 * MonthlyIncome(assignments)
    ensures 10 * e.monthlyHigh == 11 * MonthlyIncome(assignments)
    ensures YearlyIsTwelveMonths(e)
    ensures e.monthlyLow <= MonthlyIncome(assignments) <= e.monthlyHigh <==> assignments >= 0
  {
    var monthly := MonthlyIncome(assignments);
    var lower := JsRound(monthly * 9, 10);
    var upper := JsRound(monthly * 11, 10);
    MonthlyMultipleOf50(assignments);
    TenthsExact(monthly);
    MonthlySign(assignments);
    Estimate(lower, upper, lower * 12, upper * 12)
  }

  /** 90% and 110% of a multiple of 10 are whole, so rounding them loses nothing. */
  lemma TenthsExact(monthly: int)
    requires monthly % 10 == 0
    ensures 10 * JsRound(monthly * 9, 10) == 9 * monthly
    ensures 10 * JsRound(monthly * 11, 10) == 11 * monthly
  {
    var tenth := monthly / 10;
    assert monthly * 9 == (9 * tenth) * 10 && monthly * 11 == (11 * tenth) * 10;
    JsRoundExact(9 * tenth, 10);
    JsRoundExact(11 * tenth, 10);
  }

  lemma MonthlySign(assignments: int)
    ensures assignments >= 0 <==> MonthlyIncome(assignments) >= 0
  {
    var rate := RatePerAssignment(assignments);
    if assignments > 0 { MulMonotone(assignments, 0, rate); }
    else if assignments < 0 { assert assignments * rate < 0; }
  }

  /** The shown range grows strictly with the number of assignments. */
  lemma TieredEstimateIncreasing(a: int, b: int)
    requires a < b
    ensures TieredEstimate(a).monthlyLow < TieredEstimate(b).monthlyLow
    ensures TieredEstimate(a).monthlyHigh < TieredEstimate(b).monthlyHigh
  {
    MonthlyStrictlyIncreasing(a, b);
  }

  /** `updateTierSelection` of landing-new.js: tier 0 up to 8 assignments,
      tier 1 up to 15, tier 2 above. */
  function TierIndexNew(assignments: int): (i: nat)
    ensures i <= 2
  {
    if assignments <= 8 then 0 else if assignments <= 15 then 1 else 2
  }

  /** The tier follows the rate band, except that the 600 and 650 bands share
      tier 2. */
  lemma TierFollowsRate(a: int)
    ensures TierIndexNew(a) <= 2
    ensures TierIndexNew(a) == 0 <==> RatePerAssignment(a) == 500
    ensures TierIndexNew(a) == 1 <==> RatePerAssignment(a) == 550
    ensures TierIndexNew(a) == 2 <==> RatePerAssignment(a) >= 600
  {
  }

  // ---------------------------------------------------------------------------
  // landing-script.js
  // ---------------------------------------------------------------------------

  const MinPay: int := 500
  const MaxPay: int := 600

  /** `calculateIncome` (both copies) of landing-script.js: $500 to $600 per
      assignment a month, twelve times that a year. */
  function FlatEstimate(assignments: int): (e: Estimate)
    ensures YearlyIsTwelveMonths(e)
    ensures 6 * e.monthlyLow == 5 * e.monthlyHigh
    ensures e.monthlyLow <= e.monthlyHigh <==> assignments >= 0
    ensures e.monthlyHigh - e.monthlyLow == 100 * assignments
  {
    var monthlyMin := assignments * MinPay;
    var monthlyMax := assignments * MaxPay;
    Estimate(monthlyMin, monthlyMax, monthlyMin * 12, monthlyMax * 12)
  }

  /** The tier highlighted by landing-script.js: 0 up to 10 assignments, 1 up
      to 20, 2 above. */
  function TierIndexScript(assignments: int): (i: nat)
    ensures i <= 2
  {
    if assignments <= 10 then 0 else if assignments <= 20 then 1 else 2
  }

  /** Both tier rules are monotone and land in {0, 1, 2}; they disagree from
      9 to 10 and from 16 to 20 assignments. */
  lemma TierRulesCompared(a: int, b: int)
    requires a <= b
    ensures TierIndexNew(a) <= TierIndexNew(b) <= 2
    ensures TierIndexScript(a) <= TierIndexScript(b) <= 2
    ensures TierIndexNew(a) != TierIndexScript(a) <==> 9 <= a <= 10 || 16 <= a <= 20
  {
  }

  // ---------------------------------------------------------------------------
  // tier highlighting, shared by both files
  // ---------------------------------------------------------------------------

  /** `tiers.forEach(tier => tier.classList.remove('active'))`. */
  function ClearAll(tiers: seq<bool>): (r: seq<bool>)
    ensures |r| == |tiers| && ActiveIndices(r) == {}
  {
    seq(|tiers|, _ => false)
  }

  /** `if (tiers[i]) tiers[i].classList.add('active')` (landing-new.js) and
      `tiers[i]?.classList.add('active')` (landing-script.js): a tier the page
      does not have is skipped. */
  function Mark(tiers: seq<bool>, i: nat): (r: seq<bool>)
    ensures |r| == |tiers|
    ensures ActiveIndices(r) == if i < |tiers| then ActiveIndices(tiers) + {i} else ActiveIndices(tiers)
  {
    if i < |tiers| then tiers[i := true] else tiers
  }

  /** `updateTierSelection` of landing-new.js. */
  function HighlightNew(tiers: seq<bool>, assignments: int): seq<bool> {
    Mark(ClearAll(tiers), TierIndexNew(assignments))
  }

  /** The tier highlighting of `calculateIncome` in landing-script.js. */
  function HighlightScript(tiers: seq<bool>, assignments: int): seq<bool> {
    Mark(ClearAll(tiers), TierIndexScript(assignments))
  }

  /** Whatever was active before, afterwards exactly the tier of the new
      rule is active when the page has it, and none otherwise; the number of
      tiers is unchanged. */
  lemma HighlightNewActive(tiers: seq<bool>, assignments: int)
    ensures |HighlightNew(tiers, assignments)| == |tiers|
    ensures ActiveIndices(HighlightNew(tiers, assignments))
            == if TierIndexNew(assignments) < |tiers| then {TierIndexNew(assignments)} else {}
  {
  }

  /** As HighlightNewActive, for the tier rule of landing-script.js. */
  lemma HighlightScriptActive(tiers: seq<bool>, assignments: int)
    ensures |HighlightScript(tiers, assignments)| == |tiers|
    ensures ActiveIndices(HighlightScript(tiers, assignments))
            == if TierIndexScript(assignments) < |tiers| then {TierIndexScript(assignments)} else {}
  {
  }

  /** On a page with its three tiers, the two files highlight the same tier
      except from 9 to 10 and from 16 to 20 assignments. */
  lemma HighlightsCompared(tiers: seq<bool>, assignments: int)
    requires |tiers| == 3
    ensures ActiveIndices(HighlightNew(tiers, assignments)) == ActiveIndices(HighlightScript(tiers, assignments))
            <==> !(9 <= assignments <= 10 || 16 <= assignments <= 20)
  {
    HighlightNewActive(tiers, assignments);
    HighlightScriptActive(tiers, assignments);
    TierRulesCompared(assignments, assignments);
    var n, m := TierIndexNew(assignments), TierIndexScript(assignments);
    if n != m {
      assert n in {n};
    }
  }
}
