/**
 Exact-cents offer arithmetic. Amounts are cents, percentages are hundredths of a percent point
 (so 100% is HUNDRED), and both `Math.round` and SQL `ROUND` are RoundDiv: half up.
 */
module Offers {

  const HUNDRED: int := 10_000

  function Min(a: int, b: int): int { if a <= b then a else b }

  function Max(a: int, b: int): int { if a <= b then b else a }

  /** n/d rounded to the nearest integer, halves up. */
  function RoundDiv(n: int, d: int): (r: int)
    requires d > 0
    ensures -d <= 2 * n - 2 * r * d < d
  {
    (2 * n + d) / (2 * d)
  }

  lemma MulMono(a: int, b: int, k: int)
    requires 0 <= k
    ensures a <= b ==> a * k <= b * k
  {
  }

  lemma RoundDivMonotone(a: int, b: int, d: int)
    requires d > 0 && a <= b
    ensures RoundDiv(a, d) <= RoundDiv(b, d)
  {
    var x, y := RoundDiv(a, d), RoundDiv(b, d);
    MulMono(y + 1, x, d);
    assert 2 * (y + 1) * d == 2 * y * d + 2 * d;
  }

  lemma RoundDivExact(a: int, d: int)
    requires d > 0
    ensures RoundDiv(a * d, d) == a
  {
    var r := RoundDiv(a * d, d);
    MulMono(r + 1, a, d);
    MulMono(a + 1, r, d);
  }

  /** The value left after a discount: round(value * (1 - discount)). */
  function Discounted(cents: int, discount: int): int {
    RoundDiv(cents * (HUNDRED - discount), HUNDRED)
  }

  lemma DiscountedAntitone(cents: int, d0: int, d1: int)
    requires 0 <= cents && d0 <= d1
    ensures Discounted(cents, d1) <= Discounted(cents, d0)
  {
    assert cents * (HUNDRED - d1) <= cents * (HUNDRED - d0);
    RoundDivMonotone(cents * (HUNDRED - d1), cents * (HUNDRED - d0), HUNDRED);
  }

  lemma DiscountedBounds(cents: int, d: int)
    requires 0 <= cents && 0 <= d <= HUNDRED
    ensures 0 <= Discounted(cents, d) <= cents
  {
    DiscountedAntitone(cents, d, HUNDRED);
    DiscountedAntitone(cents, 0, d);
    RoundDivExact(cents, HUNDRED);
    assert Discounted(cents, HUNDRED) == 0;
  }

  /** The wallet columns that `calculateOffer` reads. */
  datatype OfferRules = OfferRules(
    cobcomDiscount: int,
    firstInstallmentDays: int,
    minInstallmentCents: int,
    maxInstallments: int)

  /** The four offer columns stored on a contract. */
  datatype Offer = Offer(valueCents: int, discount: int, firstInstallmentDays: int, maxInstallments: int)

  /** The installment count allowed by value: at least one, and unlimited when there is no positive minimum. */
  function InstallmentsByValue(valueCents: int, rules: OfferRules, unlimited: int): int {
    if rules.minInstallmentCents > 0
    then Max(1, valueCents / rules.minInstallmentCents)
    else unlimited
  }

  /** `calculateOffer`: the flat offer, with every clamp and default the original applies. */
  function CalculateOffer(updatedCents: int, rules: OfferRules): Offer {
    var discount := Min(HUNDRED, Max(0, rules.cobcomDiscount));
    var value := Discounted(updatedCents, discount);
    var configured := Max(1, rules.maxInstallments);
    Offer(value, discount,
          Max(1, if rules.firstInstallmentDays == 0 then 5 else rules.firstInstallmentDays),
          Min(configured, InstallmentsByValue(value, rules, configured)))
  }

  /** What a stored installment count must satisfy against the offer value it was computed from. */
  ghost predicate InstallmentsFit(count: int, valueCents: int, rules: OfferRules) {
    count == 1 || count * rules.minInstallmentCents <= valueCents
  }

  /** Splitting a non-negative value into the allowed count never goes below the positive minimum. */
  lemma InstallmentBound(valueCents: int, rules: OfferRules, configured: int)
    requires rules.minInstallmentCents > 0 && valueCents >= 0 && configured >= 1
    ensures var n := Min(configured, InstallmentsByValue(valueCents, rules, configured));
            1 <= n <= configured && InstallmentsFit(n, valueCents, rules)
  {
    var q := valueCents / rules.minInstallmentCents;
    var n := Min(configured, Max(1, q));
    if n != 1 {
      assert n * rules.minInstallmentCents <= q * rules.minInstallmentCents;
    }
  }

  lemma CalculateOfferBounds(updatedCents: int, rules: OfferRules)
    requires updatedCents >= 0
    ensures var o := CalculateOffer(updatedCents, rules);
            && 0 <= o.valueCents <= updatedCents
            && 1 <= o.maxInstallments <= Max(1, rules.maxInstallments)
            && (rules.minInstallmentCents > 0 ==> InstallmentsFit(o.maxInstallments, o.valueCents, rules))
  {
    var o := CalculateOffer(updatedCents, rules);
    DiscountedBounds(updatedCents, o.discount);
    if rules.minInstallmentCents > 0 {
      InstallmentBound(o.valueCents, rules, Max(1, rules.maxInstallments));
    }
  }

  // ---- the same, column by column ----

  /** value is cents less the discount, rounded to the nearest cent, halves up. */
  predicate IsDiscounted(cents: int, discount: int, value: int) {
    -10_000 <= 2 * (cents * (10_000 - discount)) - 2 * value * 10_000 < 10_000
  }

  /** r is n / d rounded to the nearest integer, halves up. */
  predicate IsRounded(n: int, d: int, r: int) { -d <= 2 * n - 2 * r * d < d }

  /** x is the lower of a and b. */
  predicate IsLower(x: int, a: int, b: int) { x <= a && x <= b && (x == a || x == b) }

  /** As many installments as the maximum and the minimum installment allow, and at least one. */
  predicate MostInstallments(count: int, valueCents: int, minimum: int, maximum: int) {
    && 1 <= count <= maximum
    && (count == 1 || count * minimum <= valueCents)
    && (count < maximum ==> valueCents < (count + 1) * minimum)
  }

  lemma DiscountedExactly(cents: int, discount: int)
    ensures IsDiscounted(cents, discount, Discounted(cents, discount))
  {
  }

  lemma InstallmentsExactly(valueCents: int, rules: OfferRules, configured: int)
    requires configured >= 1
    ensures var n := Min(configured, InstallmentsByValue(valueCents, rules, configured));
            if rules.minInstallmentCents > 0 then MostInstallments(n, valueCents, rules.minInstallmentCents, configured)
            else n == configured
  {
    var m := rules.minInstallmentCents;
    if m > 0 {
      var q := valueCents / m;
      var n := Min(configured, InstallmentsByValue(valueCents, rules, configured));
      MulMono(n, q, m);
      MulMono(q + 1, n + 1, m);
    }
  }

  /** The flat offer: the discount clamped to 0..100%, the value it leaves, the first due day, and the most installments. */
  lemma CalculateOfferExactly(updatedCents: int, rules: OfferRules)
    ensures var o := CalculateOffer(updatedCents, rules);
            && (0 <= rules.cobcomDiscount <= 10_000 ==> o.discount == rules.cobcomDiscount)
            && (rules.cobcomDiscount < 0 ==> o.discount == 0) && (rules.cobcomDiscount > 10_000 ==> o.discount == 10_000)
            && IsDiscounted(updatedCents, o.discount, o.valueCents)
            && (rules.firstInstallmentDays > 0 ==> o.firstInstallmentDays == rules.firstInstallmentDays)
            && (rules.firstInstallmentDays == 0 ==> o.firstInstallmentDays == 5)
            && (rules.firstInstallmentDays < 0 ==> o.firstInstallmentDays == 1)
            && var maximum := if rules.maxInstallments >= 1 then rules.maxInstallments else 1;
               if rules.minInstallmentCents > 0 then MostInstallments(o.maxInstallments, o.valueCents, rules.minInstallmentCents, maximum)
               else o.maxInstallments == maximum
  {
    var o := CalculateOffer(updatedCents, rules);
    DiscountedExactly(updatedCents, o.discount);
    InstallmentsExactly(o.valueCents, rules, Max(1, rules.maxInstallments));
  }
}
