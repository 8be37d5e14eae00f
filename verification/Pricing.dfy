/**
 Commercial pricing: the single-contract recalculation, the set-based SQL update, the price of a new
 contract and the explicit-discount edit, all over a wallet's rules and its creditor's bands.
 */
module Pricing {
  import opened Wrappers
  import opened Offers
  import opened Bands
  import ContractTable

  type Contract = ContractTable.Contract
  type Table = ContractTable.Table

  /** A strategy percentage may be NULL in rows that predate the column. */
  datatype WalletRules = WalletRules(rules: OfferRules, strategy: seq<Band<Option<int>>>)

  datatype CreditorRules = CreditorRules(ceilings: seq<Band<int>>, commission: int)

  predicate IsPercent(p: int) { 0 <= p <= HUNDRED }

  /** The percentages the request validators accept, and bands `validateBands` accepts. */
  ghost predicate ValidRules(w: WalletRules, cr: CreditorRules) {
    && IsPercent(w.rules.cobcomDiscount) && IsPercent(cr.commission)
    && w.rules.maxInstallments >= 1
    && Acceptable(w.strategy) && Acceptable(cr.ceilings)
    && (forall b :: b in cr.ceilings ==> IsPercent(b.cash) && IsPercent(b.installment))
    && (forall b :: b in w.strategy ==> (b.cash.Some? ==> IsPercent(b.cash.value)) && (b.installment.Some? ==> IsPercent(b.installment.value)))
  }

  function Pick<P>(band: Band<P>, rules: OfferRules): P {
    if rules.maxInstallments > 1 then band.installment else band.cash
  }

  /** Discounts for one age: the commercial ceiling and the operational strategy. */
  datatype Discounts = Discounts(maximum: int, strategy: int)

  /** As the TypeScript code finds them: ascending `find`, and Number(null) is 0. */
  function DiscountsJs(w: WalletRules, cr: CreditorRules, days: int): Discounts {
    var ceiling := FindAscending(Sort(cr.ceilings), days);
    var strategy := FindAscending(Sort(w.strategy), days);
    Discounts(if ceiling.Some? then Pick(ceiling.value, w.rules) else w.rules.cobcomDiscount,
              if strategy.Some? then GetOr(Pick(strategy.value, w.rules), 0) else w.rules.cobcomDiscount)
  }

  /** As the SQL finds them: descending LIMIT 1, and COALESCE takes NULL to the wallet discount. */
  function DiscountsSql(w: WalletRules, cr: CreditorRules, days: int): Discounts {
    var ceiling := FindDescending(Sort(cr.ceilings), days);
    var strategy := FindDescending(Sort(w.strategy), days);
    Discounts(if ceiling.Some? then Pick(ceiling.value, w.rules) else w.rules.cobcomDiscount,
              if strategy.Some? then GetOr(Pick(strategy.value, w.rules), w.rules.cobcomDiscount) else w.rules.cobcomDiscount)
  }

  /** The priced columns. */
  datatype Quote = Quote(offer: Offer, pricing: ContractTable.Pricing)

  /** The chain every priced contract must satisfy. */
  ghost predicate Ordered(updatedCents: int, q: Quote) {
    0 <= q.pricing.commissionCents <= q.pricing.repasseCents <= q.offer.valueCents <= updatedCents
  }

  /** Recalculation: the commission is taken on the rounded repasse. */
  function Requote(updatedCents: int, w: WalletRules, cr: CreditorRules, offerDiscount: int, maximum: int): Quote {
    var value := Discounted(updatedCents, offerDiscount);
    var repasse := Discounted(updatedCents, maximum);
    Quote(Offer(value, offerDiscount, w.rules.firstInstallmentDays,
                Min(w.rules.maxInstallments, InstallmentsByValue(value, w.rules, w.rules.maxInstallments))),
          ContractTable.Pricing(maximum, repasse, cr.commission, RoundDiv(repasse * cr.commission, HUNDRED)))
  }

  /** The SET list of the SQL update, which divides by the minimum installment unconditionally. */
  function RequoteSql(updatedCents: int, w: WalletRules, cr: CreditorRules, d: Discounts): Quote
    requires w.rules.minInstallmentCents > 0
  {
    var offerDiscount := Min(d.strategy, d.maximum);
    Quote(Offer(RoundDiv(updatedCents * (HUNDRED - offerDiscount), HUNDRED), offerDiscount, w.rules.firstInstallmentDays,
                Min(w.rules.maxInstallments,
                    Max(1, RoundDiv(updatedCents * (HUNDRED - offerDiscount), HUNDRED) / w.rules.minInstallmentCents))),
          ContractTable.Pricing(d.maximum, RoundDiv(updatedCents * (HUNDRED - d.maximum), HUNDRED), cr.commission,
                                RoundDiv(RoundDiv(updatedCents * (HUNDRED - d.maximum), HUNDRED) * cr.commission, HUNDRED)))
  }

  /** Creation: the commission is taken on the unrounded repasse, and the installments on the flat offer. */
  function CreationQuote(updatedCents: int, w: WalletRules, cr: CreditorRules, days: int): Quote {
    var d := DiscountsJs(w, cr, days);
    var offerDiscount := Min(d.strategy, d.maximum);
    Quote(CalculateOffer(updatedCents, w.rules).(discount := offerDiscount, valueCents := Discounted(updatedCents, offerDiscount)),
          ContractTable.Pricing(d.maximum, Discounted(updatedCents, d.maximum), cr.commission,
                                RoundDiv(updatedCents * (HUNDRED - d.maximum) * cr.commission, HUNDRED * HUNDRED)))
  }

  function RecalculationQuote(updatedCents: int, w: WalletRules, cr: CreditorRules, d: Discounts): Quote {
    Requote(updatedCents, w, cr, Min(d.strategy, d.maximum), d.maximum)
  }

  /** The explicit-discount branch of the contract edit; None when the discount exceeds the ceiling. */
  function EditQuote(updatedCents: int, w: WalletRules, cr: CreditorRules, days: int, discount: int): Option<Quote> {
    var maximum := DiscountsJs(w, cr, days).maximum;
    if discount > maximum then None else Some(Requote(updatedCents, w, cr, discount, maximum))
  }

  // ---- commission <= repasse <= offer <= updated value ----

  lemma DiscountsArePercents(w: WalletRules, cr: CreditorRules, days: int)
    requires ValidRules(w, cr)
    ensures var js := DiscountsJs(w, cr, days); IsPercent(js.maximum) && IsPercent(js.strategy)
    ensures var sql := DiscountsSql(w, cr, days); IsPercent(sql.maximum) && IsPercent(sql.strategy)
  {
    AscendingFinds(Sort(cr.ceilings), days);
    AscendingFinds(Sort(w.strategy), days);
    DescendingFinds(Sort(cr.ceilings), days);
    DescendingFinds(Sort(w.strategy), days);
  }

  lemma RequoteOrdered(updatedCents: int, w: WalletRules, cr: CreditorRules, offerDiscount: int, maximum: int)
    requires updatedCents >= 0 && IsPercent(cr.commission) && 0 <= offerDiscount <= maximum <= HUNDRED
    ensures Ordered(updatedCents, Requote(updatedCents, w, cr, offerDiscount, maximum))
  {
    DiscountedBounds(updatedCents, offerDiscount);
    DiscountedBounds(updatedCents, maximum);
    DiscountedAntitone(updatedCents, offerDiscount, maximum);
    CommissionBounds(Discounted(updatedCents, maximum), cr.commission);
  }

  lemma CommissionBounds(baseCents: int, commission: int)
    requires baseCents >= 0 && IsPercent(commission)
    ensures 0 <= RoundDiv(baseCents * commission, HUNDRED) <= baseCents
  {
    assert 0 <= baseCents * commission <= baseCents * HUNDRED;
    RoundDivMonotone(0, baseCents * commission, HUNDRED);
    RoundDivMonotone(baseCents * commission, baseCents * HUNDRED, HUNDRED);
    RoundDivExact(baseCents, HUNDRED);
  }

  /** Creation, both recalculations and the explicit edit keep commission <= repasse <= offer <= updated value. */
  lemma QuotesOrdered(updatedCents: int, w: WalletRules, cr: CreditorRules, days: int, discount: int)
    requires updatedCents >= 0 && ValidRules(w, cr) && IsPercent(discount) && w.rules.minInstallmentCents > 0
    ensures Ordered(updatedCents, CreationQuote(updatedCents, w, cr, days))
    ensures Ordered(updatedCents, RecalculationQuote(updatedCents, w, cr, DiscountsJs(w, cr, days)))
    ensures Ordered(updatedCents, RequoteSql(updatedCents, w, cr, DiscountsSql(w, cr, days)))
    ensures var e := EditQuote(updatedCents, w, cr, days, discount); e.Some? ==> Ordered(updatedCents, e.value)
  {
    DiscountsArePercents(w, cr, days);
    var js, sql := DiscountsJs(w, cr, days), DiscountsSql(w, cr, days);
    RequoteOrdered(updatedCents, w, cr, Min(js.strategy, js.maximum), js.maximum);
    RequoteOrdered(updatedCents, w, cr, Min(sql.strategy, sql.maximum), sql.maximum);
    if discount <= js.maximum {
      RequoteOrdered(updatedCents, w, cr, discount, js.maximum);
    }
    CreationOrdered(updatedCents, w, cr, days);
  }

  lemma CreationOrdered(updatedCents: int, w: WalletRules, cr: CreditorRules, days: int)
    requires updatedCents >= 0 && IsPercent(cr.commission)
    requires IsPercent(DiscountsJs(w, cr, days).maximum) && IsPercent(DiscountsJs(w, cr, days).strategy)
    ensures Ordered(updatedCents, CreationQuote(updatedCents, w, cr, days))
  {
    var d := DiscountsJs(w, cr, days);
    var offerDiscount := Min(d.strategy, d.maximum);
    DiscountedBounds(updatedCents, offerDiscount);
    DiscountedAntitone(updatedCents, offerDiscount, d.maximum);
    CreationCommission(updatedCents, d.maximum, cr.commission);
  }

  lemma CreationCommission(updatedCents: int, maximum: int, commission: int)
    requires updatedCents >= 0 && IsPercent(maximum) && IsPercent(commission)
    ensures 0 <= RoundDiv(updatedCents * (HUNDRED - maximum) * commission, HUNDRED * HUNDRED)
              <= Discounted(updatedCents, maximum)
  {
    CreationCommissionBounds(updatedCents * (HUNDRED - maximum), commission);
  }

  /** Rounding once at the end cannot exceed the rounded base. */
  lemma CreationCommissionBounds(scaled: int, commission: int)
    requires scaled >= 0 && IsPercent(commission)
    ensures 0 <= RoundDiv(scaled * commission, HUNDRED * HUNDRED) <= RoundDiv(scaled, HUNDRED)
  {
    assert 0 <= scaled * commission <= scaled * HUNDRED;
    RoundDivMonotone(0, scaled * commission, HUNDRED * HUNDRED);
    RoundDivMonotone(scaled * commission, scaled * HUNDRED, HUNDRED * HUNDRED);
    RoundDivCancel(scaled);
  }

  lemma RoundDivCancel(n: int)
    ensures RoundDiv(n * HUNDRED, HUNDRED * HUNDRED) == RoundDiv(n, HUNDRED)
  {
  }

  /** The commission stored at creation is within one cent of the recalculated one. */
  lemma CommissionWithinOneCent(updatedCents: int, w: WalletRules, cr: CreditorRules, days: int)
    requires updatedCents >= 0 && ValidRules(w, cr)
    ensures var a := CreationQuote(updatedCents, w, cr, days).pricing.commissionCents;
            var b := RecalculationQuote(updatedCents, w, cr, DiscountsJs(w, cr, days)).pricing.commissionCents;
            -1 <= a - b <= 1
  {
    DiscountsArePercents(w, cr, days);
    var scaled := updatedCents * (HUNDRED - DiscountsJs(w, cr, days).maximum);
    RoundingGap(scaled, cr.commission);
    TwoRoundings(scaled * cr.commission, RoundDiv(scaled, HUNDRED) * cr.commission);
    assert CreationQuote(updatedCents, w, cr, days).pricing.commissionCents
        == RoundDiv(scaled * cr.commission, HUNDRED * HUNDRED);
  }

  lemma RoundingGap(scaled: int, k: int)
    requires IsPercent(k)
    ensures -HUNDRED * HUNDRED <= 2 * (scaled * k) - 2 * (RoundDiv(scaled, HUNDRED) * k) * HUNDRED <= HUNDRED * HUNDRED
  {
    GapTimes(2 * scaled - 2 * RoundDiv(scaled, HUNDRED) * HUNDRED, k);
    Distribute(scaled, RoundDiv(scaled, HUNDRED), k);
  }

  lemma GapTimes(gap: int, k: int)
    requires -HUNDRED <= gap <= HUNDRED && IsPercent(k)
    ensures -HUNDRED * HUNDRED <= gap * k <= HUNDRED * HUNDRED
  {
    MulMono(-HUNDRED, gap, k);
    MulMono(gap, HUNDRED, k);
  }

  lemma Distribute(scaled: int, repasse: int, k: int)
    ensures (2 * scaled - 2 * repasse * HUNDRED) * k == 2 * (scaled * k) - 2 * (repasse * k) * HUNDRED
  {
  }

  lemma TwoRoundings(exact: int, rounded: int)
    requires -HUNDRED * HUNDRED <= 2 * exact - 2 * rounded * HUNDRED <= HUNDRED * HUNDRED
    ensures -1 <= RoundDiv(exact, HUNDRED * HUNDRED) - RoundDiv(rounded, HUNDRED) <= 1
  {
  }

  /** The installment count of both recalculations and of the edit is 1 or fits the minimum, and within the maximum. */
  lemma RequoteInstallments(updatedCents: int, w: WalletRules, cr: CreditorRules, offerDiscount: int, maximum: int)
    requires updatedCents >= 0 && IsPercent(offerDiscount)
    requires w.rules.maxInstallments >= 1 && w.rules.minInstallmentCents > 0
    ensures var o := Requote(updatedCents, w, cr, offerDiscount, maximum).offer;
            1 <= o.maxInstallments <= w.rules.maxInstallments && InstallmentsFit(o.maxInstallments, o.valueCents, w.rules)
  {
    DiscountedBounds(updatedCents, offerDiscount);
    InstallmentBound(Discounted(updatedCents, offerDiscount), w.rules, w.rules.maxInstallments);
  }

  // ---- the set-based update against the single-contract code ----

  function Apply(c: Contract, q: Quote): Contract { c.(offer := q.offer, pricing := Some(q.pricing)) }

  /** `recalculateOffer` on an eligible row: it also refreshes the stored aging. */
  function RecalculateJs(c: Contract, w: WalletRules, cr: CreditorRules, today: int -> int): Contract {
    var days := today(Due(c));
    Apply(c, RecalculationQuote(c.details.updatedCents, w, cr, DiscountsJs(w, cr, days))).(agingDays := days)
  }

  /** The debt date: due date, or the occurrence date of legacy rows. */
  function Due(c: Contract): int { GetOr(c.dueDate, c.details.occurrenceDate) }

  /** One row of the SQL update, which reads the stored aging. */
  function RecalculateSql(c: Contract, w: WalletRules, cr: CreditorRules): Contract
    requires w.rules.minInstallmentCents > 0
  {
    Apply(c, RequoteSql(c.details.updatedCents, w, cr, DiscountsSql(w, cr, c.agingDays)))
  }

  predicate Eligible(c: Contract) { !c.deleted && c.status.Active? && !c.payment.Paid? }

  /** `recalculateOffers`: the whole table after the set-based update of one wallet. */
  function RecalculateWallet(t: Table, wallet: ContractTable.Wallet, w: WalletRules, cr: CreditorRules): (r: Table)
    requires w.rules.minInstallmentCents > 0
    ensures |r| == |t|
  {
    seq(|t|, i requires 0 <= i < |t| =>
      if t[i].wallet == wallet && Eligible(t[i]) then RecalculateSql(t[i], w, cr) else t[i])
  }

  /** A NULL strategy in the band found for this age makes no difference. */
  predicate NullStrategyHarmless(c: Contract, w: WalletRules, cr: CreditorRules) {
    var band := FindAscending(Sort(w.strategy), c.agingDays);
    band.Some? && Pick(band.value, w.rules).None? ==>
      w.rules.cobcomDiscount == 0 || DiscountsJs(w, cr, c.agingDays).maximum == 0
  }

  /** With a positive minimum the two formula lists give the same quote from the same discounts. */
  lemma RequotesAgree(updatedCents: int, w: WalletRules, cr: CreditorRules, d: Discounts)
    requires w.rules.minInstallmentCents > 0
    ensures RequoteSql(updatedCents, w, cr, d) == RecalculationQuote(updatedCents, w, cr, d)
  {
  }

  lemma RequoteDiscount(updatedCents: int, w: WalletRules, cr: CreditorRules, d: Discounts)
    ensures RecalculationQuote(updatedCents, w, cr, d).offer.discount == Min(d.strategy, d.maximum)
  {
  }

  /** The discounts are all that matters: equal clipped strategy and ceiling, equal quote. */
  lemma SameDiscountsSameQuote(updatedCents: int, w: WalletRules, cr: CreditorRules, a: Discounts, b: Discounts)
    requires a.maximum == b.maximum && Min(a.strategy, a.maximum) == Min(b.strategy, b.maximum)
    ensures RecalculationQuote(updatedCents, w, cr, a) == RecalculationQuote(updatedCents, w, cr, b)
  {
  }

  /** For one age, the two lookups price alike exactly when no NULL strategy shows. */
  lemma DiscountsAgreeExactly(c: Contract, w: WalletRules, cr: CreditorRules)
    requires ValidRules(w, cr)
    ensures var js, sql := DiscountsJs(w, cr, c.agingDays), DiscountsSql(w, cr, c.agingDays);
            && js.maximum == sql.maximum
            && (Min(js.strategy, js.maximum) == Min(sql.strategy, sql.maximum) <==> NullStrategyHarmless(c, w, cr))
  {
    LookupsAgree(cr.ceilings, c.agingDays);
    LookupsAgree(w.strategy, c.agingDays);
    DiscountsArePercents(w, cr, c.agingDays);
  }

  /** The SQL row is the single-contract row exactly when the stored aging is fresh and no NULL strategy shows. */
  lemma RowsAgreeExactly(c: Contract, w: WalletRules, cr: CreditorRules, today: int -> int)
    requires ValidRules(w, cr) && w.rules.minInstallmentCents > 0
    ensures RecalculateSql(c, w, cr) == RecalculateJs(c, w, cr, today) <==>
            c.agingDays == today(Due(c)) && NullStrategyHarmless(c, w, cr)
  {
    var u := c.details.updatedCents;
    var js, sql := DiscountsJs(w, cr, c.agingDays), DiscountsSql(w, cr, c.agingDays);
    DiscountsAgreeExactly(c, w, cr);
    RequotesAgree(u, w, cr, sql);
    RequoteDiscount(u, w, cr, sql);
    RequoteDiscount(u, w, cr, js);
    if NullStrategyHarmless(c, w, cr) {
      SameDiscountsSameQuote(u, w, cr, js, sql);
    }
  }

  // ---- what every price is made of ----

  /** The ceiling for an age: the covering creditor band's installment or cash percentage, or the wallet's flat discount. */
  ghost predicate IsCeiling(w: WalletRules, cr: CreditorRules, days: int, maximum: int) {
    && (forall x :: x in cr.ceilings && Covers(x.range, days) ==>
          maximum == if w.rules.maxInstallments > 1 then x.installment else x.cash)
    && ((forall x :: x in cr.ceilings ==> !Covers(x.range, days)) ==> maximum == w.rules.cobcomDiscount)
  }

  /**
   The offer discount for an age: the lower of the ceiling and of the covering strategy band's installment or cash
   percentage, where a NULL counts as ifNull, or of the wallet's flat discount if no strategy band covers the age.
   */
  ghost predicate IsOfferDiscount(w: WalletRules, days: int, ifNull: int, maximum: int, discount: int) {
    && (forall y :: y in w.strategy && Covers(y.range, days) ==>
          IsLower(discount, if w.rules.maxInstallments > 1 then GetOr(y.installment, ifNull) else GetOr(y.cash, ifNull), maximum))
    && ((forall y :: y in w.strategy ==> !Covers(y.range, days)) ==> IsLower(discount, w.rules.cobcomDiscount, maximum))
  }

  /** Ceiling, offer value, repasse and commission percentage of a price. */
  ghost predicate Priced(updatedCents: int, w: WalletRules, cr: CreditorRules, days: int, offer: Offer, p: ContractTable.Pricing) {
    && IsCeiling(w, cr, days, p.maximumDiscount)
    && IsDiscounted(updatedCents, offer.discount, offer.valueCents)
    && IsDiscounted(updatedCents, p.maximumDiscount, p.repasseCents)
    && p.commissionPercent == cr.commission
  }

  /** The commission is the percentage of the rounded repasse, to the nearest cent. */
  predicate CommissionOnRepasse(p: ContractTable.Pricing) {
    -10_000 <= 2 * (p.repasseCents * p.commissionPercent) - 2 * p.commissionCents * 10_000 < 10_000
  }

  /** First due day and installments as a recalculation sets them. */
  predicate Terms(w: WalletRules, offer: Offer) {
    && offer.firstInstallmentDays == w.rules.firstInstallmentDays
    && if w.rules.minInstallmentCents > 0
       then MostInstallments(offer.maxInstallments, offer.valueCents, w.rules.minInstallmentCents, w.rules.maxInstallments)
       else offer.maxInstallments == w.rules.maxInstallments
  }

  lemma DiscountsMean(w: WalletRules, cr: CreditorRules, days: int)
    requires Acceptable(w.strategy) && Acceptable(cr.ceilings)
    ensures var js, sql := DiscountsJs(w, cr, days), DiscountsSql(w, cr, days);
            && IsCeiling(w, cr, days, js.maximum) && IsCeiling(w, cr, days, sql.maximum)
            && IsOfferDiscount(w, days, 0, js.maximum, Min(js.strategy, js.maximum))
            && IsOfferDiscount(w, days, w.rules.cobcomDiscount, sql.maximum, Min(sql.strategy, sql.maximum))
  {
    LookupsAgree(cr.ceilings, days);
    LookupsAgree(w.strategy, days);
    AscendingFinds(Sort(cr.ceilings), days);
    AscendingFinds(Sort(w.strategy), days);
    hide Sort, FindAscending, FindDescending, Acceptable, Covers;
  }

  lemma RequoteMeans(updatedCents: int, w: WalletRules, cr: CreditorRules, days: int, discount: int, maximum: int)
    requires w.rules.maxInstallments >= 1 && IsCeiling(w, cr, days, maximum)
    ensures var q := Requote(updatedCents, w, cr, discount, maximum);
            && Priced(updatedCents, w, cr, days, q.offer, q.pricing) && q.offer.discount == discount
            && CommissionOnRepasse(q.pricing) && Terms(w, q.offer)
  {
    hide IsCeiling;
    DiscountedExactly(updatedCents, discount);
    DiscountedExactly(updatedCents, maximum);
    InstallmentsExactly(Discounted(updatedCents, discount), w.rules, w.rules.maxInstallments);
  }

  lemma CommissionRounded(n: int)
    ensures IsRounded(n, 100_000_000, RoundDiv(n, HUNDRED * HUNDRED))
  {
  }

  /** The price of a new contract; its commission is rounded once and its terms are those of the flat offer. */
  lemma CreationPriced(updatedCents: int, w: WalletRules, cr: CreditorRules, days: int)
    requires Acceptable(w.strategy) && Acceptable(cr.ceilings)
    ensures var q := CreationQuote(updatedCents, w, cr, days);
            && Priced(updatedCents, w, cr, days, q.offer, q.pricing)
            && IsOfferDiscount(w, days, 0, q.pricing.maximumDiscount, q.offer.discount)
            && IsRounded(updatedCents * (10_000 - q.pricing.maximumDiscount) * cr.commission, 100_000_000, q.pricing.commissionCents)
            && q.offer.firstInstallmentDays == CalculateOffer(updatedCents, w.rules).firstInstallmentDays
            && q.offer.maxInstallments == CalculateOffer(updatedCents, w.rules).maxInstallments
  {
    DiscountsMean(w, cr, days);
    var d := DiscountsJs(w, cr, days);
    CreationColumns(updatedCents, w, cr, days);
    DiscountedExactly(updatedCents, Min(d.strategy, d.maximum));
    DiscountedExactly(updatedCents, d.maximum);
    CommissionRounded(updatedCents * (10_000 - d.maximum) * cr.commission);
    hide IsCeiling, IsOfferDiscount, DiscountsJs, CalculateOffer, Acceptable, Discounted, IsDiscounted, IsRounded, RoundDiv, CreationQuote;
  }

  lemma CreationColumns(updatedCents: int, w: WalletRules, cr: CreditorRules, days: int)
    ensures var q, d := CreationQuote(updatedCents, w, cr, days), DiscountsJs(w, cr, days);
            && q.offer.discount == Min(d.strategy, d.maximum) && q.offer.valueCents == Discounted(updatedCents, Min(d.strategy, d.maximum))
            && q.offer.firstInstallmentDays == CalculateOffer(updatedCents, w.rules).firstInstallmentDays
            && q.offer.maxInstallments == CalculateOffer(updatedCents, w.rules).maxInstallments
            && q.pricing.maximumDiscount == d.maximum && q.pricing.repasseCents == Discounted(updatedCents, d.maximum)
            && q.pricing.commissionPercent == cr.commission
            && q.pricing.commissionCents == RoundDiv(updatedCents * (10_000 - d.maximum) * cr.commission, HUNDRED * HUNDRED)
  {
    hide DiscountsJs, CalculateOffer, Discounted;
  }

  /** The single-contract recalculation: the price for today's age, and no other column. */
  lemma RecalculationPriced(c: Contract, w: WalletRules, cr: CreditorRules, today: int -> int)
    requires Acceptable(w.strategy) && Acceptable(cr.ceilings) && w.rules.maxInstallments >= 1
    ensures var r := RecalculateJs(c, w, cr, today);
            var days := today(if c.dueDate.Some? then c.dueDate.value else c.details.occurrenceDate);
            && r.pricing.Some?
            && r == c.(agingDays := days, offer := r.offer, pricing := r.pricing)
            && Priced(c.details.updatedCents, w, cr, days, r.offer, r.pricing.value)
            && IsOfferDiscount(w, days, 0, r.pricing.value.maximumDiscount, r.offer.discount)
            && CommissionOnRepasse(r.pricing.value) && Terms(w, r.offer)
  {
    var days := today(Due(c));
    var d := DiscountsJs(w, cr, days);
    DiscountsMean(w, cr, days);
    RequoteMeans(c.details.updatedCents, w, cr, days, Min(d.strategy, d.maximum), d.maximum);
    hide IsCeiling, IsOfferDiscount, DiscountsJs, Requote;
  }

  /** The set-based recalculation: the price for the stored age on live, active, unpaid rows of the wallet, and nothing else. */
  lemma WalletPriced(t: Table, wallet: ContractTable.Wallet, w: WalletRules, cr: CreditorRules, i: nat)
    requires Acceptable(w.strategy) && Acceptable(cr.ceilings) && w.rules.maxInstallments >= 1 && w.rules.minInstallmentCents > 0
    requires i < |t|
    ensures var c, r := t[i], RecalculateWallet(t, wallet, w, cr)[i];
            if c.wallet == wallet && !c.deleted && c.status.Active? && !c.payment.Paid? then
              && r.pricing.Some?
              && r == c.(offer := r.offer, pricing := r.pricing)
              && Priced(c.details.updatedCents, w, cr, c.agingDays, r.offer, r.pricing.value)
              && IsOfferDiscount(w, c.agingDays, w.rules.cobcomDiscount, r.pricing.value.maximumDiscount, r.offer.discount)
              && CommissionOnRepasse(r.pricing.value) && Terms(w, r.offer)
            else r == c
  {
    var c := t[i];
    var d := DiscountsSql(w, cr, c.agingDays);
    DiscountsMean(w, cr, c.agingDays);
    RequotesAgree(c.details.updatedCents, w, cr, d);
    RequoteMeans(c.details.updatedCents, w, cr, c.agingDays, Min(d.strategy, d.maximum), d.maximum);
    hide IsCeiling, IsOfferDiscount, DiscountsSql, Requote, RequoteSql;
  }

  /** The explicit edit is refused exactly above the ceiling, and otherwise sets its own discount and the ceiling's repasse. */
  lemma EditPriced(updatedCents: int, w: WalletRules, cr: CreditorRules, days: int, discount: int, maximum: int)
    requires Acceptable(cr.ceilings) && w.rules.maxInstallments >= 1 && IsCeiling(w, cr, days, maximum)
    ensures var e := EditQuote(updatedCents, w, cr, days, discount);
            && (e.None? <==> discount > maximum)
            && (e.Some? ==>
                  && Priced(updatedCents, w, cr, days, e.value.offer, e.value.pricing) && e.value.offer.discount == discount
                  && CommissionOnRepasse(e.value.pricing) && Terms(w, e.value.offer))
  {
    LookupsAgree(cr.ceilings, days);
    AscendingFinds(Sort(cr.ceilings), days);
    assert DiscountsJs(w, cr, days).maximum == maximum;
    RequoteMeans(updatedCents, w, cr, days, discount, maximum);
    hide Sort, FindAscending, FindDescending, DiscountsJs, Requote, Acceptable, IsCeiling;
  }

  /** The former implementation: one contract after another. */
  method RecalculateOneByOne(t: Table, wallet: ContractTable.Wallet, w: WalletRules, cr: CreditorRules, today: int -> int)
    returns (r: Table)
    requires ValidRules(w, cr) && w.rules.minInstallmentCents > 0
    requires forall i :: 0 <= i < |t| && t[i].wallet == wallet && Eligible(t[i]) ==>
               t[i].agingDays == today(Due(t[i])) && NullStrategyHarmless(t[i], w, cr)
    ensures r == RecalculateWallet(t, wallet, w, cr)
    ensures forall i :: 0 <= i < |t| && !(t[i].wallet == wallet && Eligible(t[i])) ==> r[i] == t[i]
  {
    r := t;
    for k := 0 to |t|
      invariant |r| == |t| && r[k..] == t[k..]
      invariant r[..k] == RecalculateWallet(t, wallet, w, cr)[..k]
    {
      if t[k].wallet == wallet && Eligible(t[k]) {
        RowsAgreeExactly(t[k], w, cr, today);
        r := r[k := RecalculateJs(t[k], w, cr, today)];
      }
    }
  }
}
