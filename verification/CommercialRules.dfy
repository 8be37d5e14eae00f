/**
 Creditor ceilings and wallet strategies: wallet creation, wallet edits and the replacement of a creditor's
 rules, and what every sequence of them keeps.
 */
module CommercialRules {
  import opened Wrappers
  import opened Offers
  import opened Bands
  import Pricing
  import Runs

  type CreditorId = nat
  type WalletId = nat

  datatype CreditorRow = CreditorRow(bands: seq<Band<int>>, commission: int, live: bool)

  datatype WalletRow = WalletRow(creditor: CreditorId, rules: OfferRules, bands: seq<Band<Option<int>>>, live: bool)

  datatype Db = Db(creditors: map<CreditorId, CreditorRow>, wallets: map<WalletId, WalletRow>)

  datatype Op =
    | CreateCreditor(creditor: CreditorId)
    | CreateWallet(wallet: WalletId, owner: CreditorId, rules: OfferRules)
    | UpdateWallet(wallet: WalletId, newRules: OfferRules, strategy: Option<seq<Band<int>>>)
    | ReplaceRules(creditor: CreditorId, bands: seq<Band<int>>, commission: int)
    | DeleteWallet(wallet: WalletId)
    | DeleteCreditor(creditor: CreditorId)

  // ---- what the request validators let through ----

  predicate PercentBands(bands: seq<Band<int>>) {
    forall i :: 0 <= i < |bands| ==> Pricing.IsPercent(bands[i].cash) && Pricing.IsPercent(bands[i].installment)
  }

  predicate RulesOk(r: OfferRules) {
    Pricing.IsPercent(r.cobcomDiscount) && r.maxInstallments >= 1 && r.minInstallmentCents >= 1
  }

  predicate RequestOk(op: Op) {
    match op
    case CreateWallet(_, _, rules) => RulesOk(rules)
    case UpdateWallet(_, rules, strategy) => RulesOk(rules) && (strategy.Some? ==> PercentBands(strategy.value))
    case ReplaceRules(_, bands, commission) => PercentBands(bands) && Pricing.IsPercent(commission)
    case _ => true
  }

  // ---- the operations ----

  /** `find` by exact range. */
  function FindRange<P>(bands: seq<Band<P>>, range: Range): (r: Option<Band<P>>)
    ensures r.Some? ==> r.value in bands && r.value.range == range
    ensures r.None? ==> forall i :: 0 <= i < |bands| ==> bands[i].range != range
  {
    if bands == [] then None
    else if bands[0].range == range then Some(bands[0])
    else FindRange(bands[1..], range)
  }

  /** One band of a new wallet: the flat discount, clipped by the ceiling. */
  function Initial(rules: OfferRules, ceiling: Band<int>): Band<Option<int>> {
    Band(ceiling.range, Some(Min(rules.cobcomDiscount, ceiling.cash)), Some(Min(rules.cobcomDiscount, ceiling.installment)))
  }

  /** The largest percentages at most the flat discount and at most the ceiling. */
  predicate ClippedTo(b: Band<Option<int>>, rules: OfferRules, ceiling: Band<int>) {
    && b.range == ceiling.range && b.cash.Some? && b.installment.Some?
    && IsLower(b.cash.value, rules.cobcomDiscount, ceiling.cash)
    && IsLower(b.installment.value, rules.cobcomDiscount, ceiling.installment)
  }

  function InitialBands(rules: OfferRules, ceilings: seq<Band<int>>): (r: seq<Band<Option<int>>>)
    ensures |r| == |ceilings| && forall i :: 0 <= i < |r| ==> r[i] == Initial(rules, ceilings[i])
  {
    seq(|ceilings|, i requires 0 <= i < |ceilings| => Initial(rules, ceilings[i]))
  }

  /** One band of an edited wallet. */
  function AsStrategy(b: Band<int>): Band<Option<int>> { Band(b.range, Some(b.cash), Some(b.installment)) }

  function StrategyBands(bands: seq<Band<int>>): (r: seq<Band<Option<int>>>)
    ensures |r| == |bands| && forall i :: 0 <= i < |r| ==> r[i] == AsStrategy(bands[i])
  {
    seq(|bands|, i requires 0 <= i < |bands| => AsStrategy(bands[i]))
  }

  /** One band after a rule replacement: the strategy of the same range survives, clipped by the new ceiling. */
  function Carried(w: WalletRow, ceiling: Band<int>): Band<Option<int>> {
    var previous := FindRange(w.bands, ceiling.range);
    var cash := if previous.Some? then GetOr(previous.value.cash, w.rules.cobcomDiscount) else w.rules.cobcomDiscount;
    var installment := if previous.Some? then GetOr(previous.value.installment, w.rules.cobcomDiscount) else w.rules.cobcomDiscount;
    Band(ceiling.range, Some(Min(cash, ceiling.cash)), Some(Min(installment, ceiling.installment)))
  }

  function CarriedBands(w: WalletRow, ceilings: seq<Band<int>>): (r: seq<Band<Option<int>>>)
    ensures |r| == |ceilings| && forall i :: 0 <= i < |r| ==> r[i] == Carried(w, ceilings[i])
  {
    seq(|ceilings|, i requires 0 <= i < |ceilings| => Carried(w, ceilings[i]))
  }

  /** The edit's acceptance test: bands that do not overlap, each within the ceiling of the same range. */
  ghost predicate StrategyAccepted(bands: seq<Band<int>>, ceilings: seq<Band<int>>) {
    Acceptable(bands) && forall i :: 0 <= i < |bands| ==> WithinCeiling(bands[i], ceilings)
  }

  predicate WithinCeiling(b: Band<int>, ceilings: seq<Band<int>>) {
    var c := FindRange(ceilings, b.range);
    c.Some? && b.cash <= c.value.cash && b.installment <= c.value.installment
  }

  /** The database after one request; rejected requests change nothing. */
  ghost function Step(db: Db, op: Op): Db {
    if !RequestOk(op) then db else
      match op
      case CreateCreditor(id) =>
        if id in db.creditors then db else db.(creditors := db.creditors[id := CreditorRow([], 0, true)])
      case CreateWallet(id, owner, rules) =>
        if id in db.wallets || owner !in db.creditors || !db.creditors[owner].live then db
        else db.(wallets := db.wallets[id := WalletRow(owner, rules, InitialBands(rules, db.creditors[owner].bands), true)])
      case UpdateWallet(id, rules, strategy) =>
        if id !in db.wallets || !db.wallets[id].live || db.wallets[id].creditor !in db.creditors then db
        else if strategy.None? then db.(wallets := db.wallets[id := db.wallets[id].(rules := rules)])
        else if !StrategyAccepted(strategy.value, db.creditors[db.wallets[id].creditor].bands) then db
        else db.(wallets := db.wallets[id := db.wallets[id].(rules := rules, bands := StrategyBands(strategy.value))])
      case ReplaceRules(id, bands, commission) =>
        if id !in db.creditors || !db.creditors[id].live || !Acceptable(bands) then db
        else Db(db.creditors[id := CreditorRow(bands, commission, true)],
                map w | w in db.wallets :: Replaced(db.wallets[w], id, bands))
      case DeleteWallet(id) =>
        if id !in db.wallets then db else db.(wallets := db.wallets[id := db.wallets[id].(live := false)])
      case DeleteCreditor(id) =>
        if id !in db.creditors then db
        else Db(db.creditors[id := db.creditors[id].(live := false)],
                map w | w in db.wallets :: if db.wallets[w].creditor == id then db.wallets[w].(live := false) else db.wallets[w])
  }

  function Replaced(w: WalletRow, creditor: CreditorId, bands: seq<Band<int>>): WalletRow {
    if w.live && w.creditor == creditor then w.(bands := CarriedBands(w, bands)) else w
  }

  ghost function Run(db: Db, ops: seq<Op>): Db {
    Runs.Fold(db, ops, (d: Db, op: Op) => Step(d, op))
  }

  // ---- what a request stores ----

  /** A wallet edit is accepted exactly for a live wallet and bands within the ceilings; it stores what the request says. */
  lemma UpdateStores(db: Db, id: WalletId, rules: OfferRules, strategy: Option<seq<Band<int>>>)
    requires RequestOk(UpdateWallet(id, rules, strategy)) && Inv(db)
    ensures var db' := Step(db, UpdateWallet(id, rules, strategy));
            var accepted := && id in db.wallets && db.wallets[id].live
                            && (strategy.Some? ==> StrategyAccepted(strategy.value, db.creditors[db.wallets[id].creditor].bands));
            && db'.creditors == db.creditors && db'.wallets.Keys == db.wallets.Keys
            && (!accepted ==> db' == db)
            && (accepted ==>
                  && (forall x :: x in db.wallets && x != id ==> db'.wallets[x] == db.wallets[x])
                  && var w, w' := db.wallets[id], db'.wallets[id];
                     && w'.live && w'.creditor == w.creditor && w'.rules == rules
                     && (strategy.None? ==> w'.bands == w.bands)
                     && (strategy.Some? ==> StoredAs(strategy.value, w'.bands)))
  {
    hide StrategyAccepted, Within, Acceptable;
    assert id in db.wallets && db.wallets[id].live ==> WalletOk(db.wallets[id], db.creditors);
  }

  /** Band by band the request's range and its two percentages. */
  predicate StoredAs(bands: seq<Band<int>>, stored: seq<Band<Option<int>>>) {
    && |stored| == |bands|
    && forall i :: 0 <= i < |bands| ==>
         && stored[i].range == bands[i].range
         && stored[i].cash == Some(bands[i].cash) && stored[i].installment == Some(bands[i].installment)
  }

  /** A rule replacement is accepted exactly for a live creditor and acceptable bands; bands, commission and wallet bands follow. */
  lemma ReplaceStores(db: Db, id: CreditorId, bands: seq<Band<int>>, commission: int)
    requires RequestOk(ReplaceRules(id, bands, commission))
    ensures var db' := Step(db, ReplaceRules(id, bands, commission));
            var accepted := id in db.creditors && db.creditors[id].live && Acceptable(bands);
            && db'.creditors.Keys == db.creditors.Keys && db'.wallets.Keys == db.wallets.Keys
            && (!accepted ==> db' == db)
            && (accepted ==>
                  && db'.creditors[id].bands == bands && db'.creditors[id].commission == commission && db'.creditors[id].live
                  && (forall x :: x in db.creditors && x != id ==> db'.creditors[x] == db.creditors[x])
                  && (forall x :: x in db.wallets ==>
                        var w, w' := db.wallets[x], db'.wallets[x];
                        if w.live && w.creditor == id then w' == w.(bands := w'.bands) && |w'.bands| == |bands|
                        else w' == w))
  {
    hide Acceptable;
  }

  /** Creation and deletion touch their own row; deleting a creditor retires its wallets with it. */
  lemma LifecycleStores(db: Db, c: CreditorId, w: WalletId)
    ensures var db' := Step(db, CreateCreditor(c));
            && db'.wallets == db.wallets && c in db'.creditors
            && (c in db.creditors ==> db' == db)
            && (c !in db.creditors ==> db'.creditors == db.creditors[c := CreditorRow([], 0, true)])
    ensures var db' := Step(db, DeleteWallet(w));
            && db'.creditors == db.creditors && db'.wallets.Keys == db.wallets.Keys
            && forall x :: x in db.wallets ==> db'.wallets[x] == if x == w then db.wallets[x].(live := false) else db.wallets[x]
    ensures var db' := Step(db, DeleteCreditor(c));
            && db'.creditors.Keys == db.creditors.Keys && db'.wallets.Keys == db.wallets.Keys
            && (forall x :: x in db.creditors ==>
                  db'.creditors[x] == if x == c then db.creditors[x].(live := false) else db.creditors[x])
            && (forall x :: x in db.wallets ==>
                  db'.wallets[x] == if db.wallets[x].creditor == c && c in db.creditors then db.wallets[x].(live := false)
                                    else db.wallets[x])
  {
  }

  // ---- the invariant ----

  /** A strategy band: percentages present, and within the ceiling that has its range. */
  ghost predicate Within(b: Band<Option<int>>, ceilings: seq<Band<int>>) {
    && b.cash.Some? && b.installment.Some?
    && Pricing.IsPercent(b.cash.value) && Pricing.IsPercent(b.installment.value)
    && exists i :: 0 <= i < |ceilings| && ceilings[i].range == b.range
                   && b.cash.value <= ceilings[i].cash && b.installment.value <= ceilings[i].installment
  }

  ghost predicate WalletOk(w: WalletRow, creditors: map<CreditorId, CreditorRow>) {
    && RulesOk(w.rules)
    && w.creditor in creditors
    && Acceptable(w.bands)
    && forall i :: 0 <= i < |w.bands| ==> Within(w.bands[i], creditors[w.creditor].bands)
  }

  ghost predicate CreditorOk(c: CreditorRow) {
    Acceptable(c.bands) && PercentBands(c.bands) && Pricing.IsPercent(c.commission)
  }

  ghost predicate Inv(db: Db) {
    && (forall c :: c in db.creditors ==> CreditorOk(db.creditors[c]))
    && (forall w :: w in db.wallets && db.wallets[w].live ==> WalletOk(db.wallets[w], db.creditors))
  }

  /** Bands that copy the ranges of an acceptable list are acceptable. */
  lemma SameRangesAcceptable(s: seq<Band<int>>, r: seq<Band<Option<int>>>)
    requires Acceptable(s) && |r| == |s| && forall i :: 0 <= i < |s| ==> r[i].range == s[i].range
    ensures Acceptable(r)
  {
  }

  lemma InitialOk(rules: OfferRules, ceilings: seq<Band<int>>)
    requires RulesOk(rules) && Acceptable(ceilings) && PercentBands(ceilings)
    ensures var r := InitialBands(rules, ceilings);
            Acceptable(r) && forall i :: 0 <= i < |r| ==> Within(r[i], ceilings)
  {
    SameRangesAcceptable(ceilings, InitialBands(rules, ceilings));
  }

  lemma StrategyOk(bands: seq<Band<int>>, ceilings: seq<Band<int>>)
    requires StrategyAccepted(bands, ceilings) && PercentBands(bands)
    ensures var r := StrategyBands(bands);
            Acceptable(r) && forall i :: 0 <= i < |r| ==> Within(r[i], ceilings)
  {
    var r := StrategyBands(bands);
    SameRangesAcceptable(bands, r);
    forall i | 0 <= i < |r|
      ensures Within(r[i], ceilings)
    {
      assert WithinCeiling(bands[i], ceilings);
      assert FindRange(ceilings, bands[i].range).value in ceilings;
    }
  }

  lemma CarriedOk(w: WalletRow, ceilings: seq<Band<int>>, ceilings0: seq<Band<int>>)
    requires RulesOk(w.rules) && Acceptable(ceilings) && PercentBands(ceilings)
    requires forall i :: 0 <= i < |w.bands| ==> Within(w.bands[i], ceilings0)
    ensures var r := CarriedBands(w, ceilings);
            Acceptable(r) && forall i :: 0 <= i < |r| ==> Within(r[i], ceilings)
  {
    var r := CarriedBands(w, ceilings);
    SameRangesAcceptable(ceilings, r);
    forall i | 0 <= i < |r|
      ensures Within(r[i], ceilings)
    {
      var previous := FindRange(w.bands, ceilings[i].range);
      if previous.Some? {
        var k :| 0 <= k < |w.bands| && w.bands[k] == previous.value;
        assert Within(w.bands[k], ceilings0);
      }
      assert r[i] == Carried(w, ceilings[i]);
    }
  }

  /**
   A rule replacement conserves strategy: a wallet band whose range continues and whose percentages fit under the new
   ceiling is carried over as it is.
   */
  lemma ReplacementConserves(w: WalletRow, ceilings: seq<Band<int>>, k: nat, i: nat)
    requires Acceptable(w.bands) && k < |w.bands| && i < |ceilings| && ceilings[i].range == w.bands[k].range
    requires w.bands[k].cash.Some? && w.bands[k].cash.value <= ceilings[i].cash
    requires w.bands[k].installment.Some? && w.bands[k].installment.value <= ceilings[i].installment
    ensures CarriedBands(w, ceilings)[i] == w.bands[k]
  {
    var previous := FindRange(w.bands, ceilings[i].range);
    assert previous.Some?;
    var first := w.bands[k].range.first;
    assert WellFormed(w.bands[k].range) && Covers(w.bands[k].range, first);
    CoveringUnique(w.bands, previous.value, w.bands[k], first);
  }

  /**
   Percentage by percentage: a continuing range keeps what fits and is cut to the new ceiling where it does not; a new
   range starts, as in a new wallet, with the flat discount under the ceiling. There is one band per ceiling.
   */
  lemma ReplacementClips(w: WalletRow, ceilings: seq<Band<int>>, i: nat)
    requires Acceptable(w.bands) && i < |ceilings|
    requires forall k :: 0 <= k < |w.bands| ==> w.bands[k].cash.Some? && w.bands[k].installment.Some?
    ensures var r := CarriedBands(w, ceilings);
            && |r| == |ceilings| && r[i].range == ceilings[i].range && r[i].cash.Some? && r[i].installment.Some?
            && (forall k :: 0 <= k < |w.bands| && w.bands[k].range == ceilings[i].range ==>
                  && (w.bands[k].cash.value <= ceilings[i].cash ==> r[i].cash == w.bands[k].cash)
                  && (w.bands[k].cash.value > ceilings[i].cash ==> r[i].cash == Some(ceilings[i].cash))
                  && (w.bands[k].installment.value <= ceilings[i].installment ==> r[i].installment == w.bands[k].installment)
                  && (w.bands[k].installment.value > ceilings[i].installment ==> r[i].installment == Some(ceilings[i].installment)))
            && ((forall k :: 0 <= k < |w.bands| ==> w.bands[k].range != ceilings[i].range) ==> r[i] == Initial(w.rules, ceilings[i]))
  {
    var previous := FindRange(w.bands, ceilings[i].range);
    forall k | 0 <= k < |w.bands| && w.bands[k].range == ceilings[i].range
      ensures previous == Some(w.bands[k])
    {
      var first := w.bands[k].range.first;
      assert WellFormed(w.bands[k].range) && Covers(w.bands[k].range, first);
      CoveringUnique(w.bands, previous.value, w.bands[k], first);
    }
    assert (forall k :: 0 <= k < |w.bands| ==> w.bands[k].range != ceilings[i].range) ==> previous.None?;
  }

  lemma StepKeeps(db: Db, op: Op)
    requires Inv(db)
    ensures Inv(Step(db, op))
  {
    if RequestOk(op) {
      match op
      case CreateWallet(id, owner, rules) =>
        if owner in db.creditors {
          assert CreditorOk(db.creditors[owner]);
          InitialOk(rules, db.creditors[owner].bands);
        }
      case UpdateWallet(id, rules, strategy) =>
        if id in db.wallets && db.wallets[id].creditor in db.creditors && strategy.Some? {
          var ceilings := db.creditors[db.wallets[id].creditor].bands;
          if StrategyAccepted(strategy.value, ceilings) {
            StrategyOk(strategy.value, ceilings);
          }
        }
      case ReplaceRules(id, bands, commission) =>
        ReplaceKeeps(db, id, bands, commission);
      case _ =>
    }
  }

  lemma ReplaceKeeps(db: Db, id: CreditorId, bands: seq<Band<int>>, commission: int)
    requires Inv(db) && RequestOk(ReplaceRules(id, bands, commission))
    ensures Inv(Step(db, ReplaceRules(id, bands, commission)))
  {
    var db' := Step(db, ReplaceRules(id, bands, commission));
    if db' != db {
      forall w | w in db'.wallets && db'.wallets[w].live
        ensures WalletOk(db'.wallets[w], db'.creditors)
      {
        assert WalletOk(db.wallets[w], db.creditors);
        if db.wallets[w].creditor == id {
          CarriedOk(db.wallets[w], bands, db.creditors[id].bands);
        }
      }
    }
  }

  lemma {:induction false} RunKeeps(db: Db, ops: seq<Op>)
    requires Inv(db)
    ensures Inv(Run(db, ops))
  {
    if ops != [] {
      RunKeeps(db, ops[..|ops| - 1]);
      StepKeeps(Run(db, ops[..|ops| - 1]), ops[|ops| - 1]);
    }
  }

  const EMPTY := Db(map[], map[])

  // ---- consequences for pricing ----

  ghost function WalletRulesOf(db: Db, w: WalletId): Pricing.WalletRules
    requires w in db.wallets
  {
    Pricing.WalletRules(db.wallets[w].rules, db.wallets[w].bands)
  }

  ghost function CreditorRulesOf(db: Db, w: WalletId): Pricing.CreditorRules
    requires w in db.wallets && db.wallets[w].creditor in db.creditors
  {
    var c := db.creditors[db.wallets[w].creditor];
    Pricing.CreditorRules(c.bands, c.commission)
  }

  /** A strategy band found for this age sits under a ceiling of the same range and is not clipped by it. */
  ghost predicate Unclipped(wr: Pricing.WalletRules, cr: Pricing.CreditorRules, days: int) {
    var strategy := FindAscending(Sort(wr.strategy), days);
    var ceiling := FindAscending(Sort(cr.ceilings), days);
    strategy.Some? ==>
      && ceiling.Some? && ceiling.value.range == strategy.value.range
      && Pricing.Pick(strategy.value, wr.rules).Some?
      && var d := Pricing.DiscountsJs(wr, cr, days);
         d.strategy == Pricing.Pick(strategy.value, wr.rules).value && Min(d.strategy, d.maximum) == d.strategy
  }

  lemma WithinMeansUnclipped(wr: Pricing.WalletRules, cr: Pricing.CreditorRules, days: int)
    requires Acceptable(cr.ceilings) && forall i :: 0 <= i < |wr.strategy| ==> Within(wr.strategy[i], cr.ceilings)
    ensures Unclipped(wr, cr, days)
  {
    hide Sort, FindAscending;
    AscendingFinds(Sort(wr.strategy), days);
    var strategy := FindAscending(Sort(wr.strategy), days);
    if strategy.Some? {
      assert strategy.value in wr.strategy;
      var k :| 0 <= k < |wr.strategy| && wr.strategy[k] == strategy.value;
      assert Within(wr.strategy[k], cr.ceilings);
      var i :| 0 <= i < |cr.ceilings| && cr.ceilings[i].range == strategy.value.range
               && strategy.value.cash.value <= cr.ceilings[i].cash && strategy.value.installment.value <= cr.ceilings[i].installment;
      LookupsAgree(cr.ceilings, days);
      assert cr.ceilings[i] in cr.ceilings;
    }
  }

  lemma RowsOkMeanValid(w: WalletRow, creditors: map<CreditorId, CreditorRow>)
    requires WalletOk(w, creditors) && CreditorOk(creditors[w.creditor])
    ensures var c := creditors[w.creditor];
            Pricing.ValidRules(Pricing.WalletRules(w.rules, w.bands), Pricing.CreditorRules(c.bands, c.commission))
  {
    var c := creditors[w.creditor];
    forall b | b in w.bands
      ensures b.cash.Some? && b.installment.Some? && Pricing.IsPercent(b.cash.value) && Pricing.IsPercent(b.installment.value)
    {
      var i :| 0 <= i < |w.bands| && w.bands[i] == b;
      assert Within(w.bands[i], c.bands);
    }
  }

  /**
   In every database reachable from the empty one, for every live wallet and every age: the pricing preconditions hold,
   a found strategy is never clipped by the ceiling, and no NULL strategy can show.
   */
  lemma NeverClipped(ops: seq<Op>, w: WalletId, days: int)
    requires w in Run(EMPTY, ops).wallets && Run(EMPTY, ops).wallets[w].live
    ensures var db := Run(EMPTY, ops);
            && db.wallets[w].creditor in db.creditors
            && Pricing.ValidRules(WalletRulesOf(db, w), CreditorRulesOf(db, w))
            && db.wallets[w].rules.minInstallmentCents > 0
            && Unclipped(WalletRulesOf(db, w), CreditorRulesOf(db, w), days)
  {
    RunKeeps(EMPTY, ops);
    hide Run, Sort, FindAscending, Unclipped;
    var db := Run(EMPTY, ops);
    assert WalletOk(db.wallets[w], db.creditors);
    RowsOkMeanValid(db.wallets[w], db.creditors);
    WithinMeansUnclipped(WalletRulesOf(db, w), CreditorRulesOf(db, w), days);
  }

  /** So in every reachable database the set-based recalculation prices a freshly aged row as the single-contract code does. */
  lemma RecalculationsAgree(ops: seq<Op>, w: WalletId, c: Pricing.Contract, today: int -> int)
    requires w in Run(EMPTY, ops).wallets && Run(EMPTY, ops).wallets[w].live && c.agingDays == today(Pricing.Due(c))
    ensures var db := Run(EMPTY, ops);
            && db.wallets[w].creditor in db.creditors && db.wallets[w].rules.minInstallmentCents > 0
            && Pricing.RecalculateSql(c, WalletRulesOf(db, w), CreditorRulesOf(db, w))
               == Pricing.RecalculateJs(c, WalletRulesOf(db, w), CreditorRulesOf(db, w), today)
  {
    NeverClipped(ops, w, c.agingDays);
    hide Run, Sort, FindAscending, Pricing.RecalculateSql, Pricing.RecalculateJs;
    var db := Run(EMPTY, ops);
    Pricing.RowsAgreeExactly(c, WalletRulesOf(db, w), CreditorRulesOf(db, w), today);
  }

  // ---- the stored tables ----

  class Tables {
    var creditors: map<CreditorId, CreditorRow>
    var wallets: map<WalletId, WalletRow>

    ghost function View(): Db
      reads this
    {
      Db(creditors, wallets)
    }

    /** `validateWalletStrategyBands`. */
    static method ValidateStrategy(bands: seq<Band<int>>, ceilings: seq<Band<int>>) returns (ok: bool)
      ensures ok <==> StrategyAccepted(bands, ceilings)
    {
      ok := ValidateBands(bands);
      if !ok {
        return;
      }
      for i := 0 to |bands|
        invariant forall j :: 0 <= j < i ==> WithinCeiling(bands[j], ceilings)
      {
        var ceiling := FindRange(ceilings, bands[i].range);
        if ceiling.None? || bands[i].cash > ceiling.value.cash || bands[i].installment > ceiling.value.installment {
          assert !WithinCeiling(bands[i], ceilings);
          return false;
        }
      }
    }

    /**
     `create`. A refused request changes nothing. An accepted one adds a wallet whose bands are the creditor's ranges,
     each percentage the flat discount where the ceiling allows it and the ceiling where it does not.
     */
    method CreateWallet(id: WalletId, owner: CreditorId, rules: OfferRules)
      requires Inv(View()) && RequestOk(Op.CreateWallet(id, owner, rules))
      modifies this
      ensures Inv(View()) && View() == Step(old(View()), Op.CreateWallet(id, owner, rules))
      ensures creditors == old(creditors) && old(wallets).Keys <= wallets.Keys <= old(wallets).Keys + {id}
      ensures forall w :: w in old(wallets) ==> wallets[w] == old(wallets)[w]
      ensures id in wallets && id !in old(wallets) <==> id !in old(wallets) && owner in creditors && creditors[owner].live
      ensures id in wallets && id !in old(wallets) ==>
                && wallets[id].live && wallets[id].creditor == owner && wallets[id].rules == rules
                && WalletOk(wallets[id], creditors)
                && |wallets[id].bands| == |creditors[owner].bands|
                && forall i :: 0 <= i < |creditors[owner].bands| ==> ClippedTo(wallets[id].bands[i], rules, creditors[owner].bands[i])
    {
      StepKeeps(View(), Op.CreateWallet(id, owner, rules));
      if id !in wallets && owner in creditors && creditors[owner].live {
        wallets := wallets[id := WalletRow(owner, rules, InitialBands(rules, creditors[owner].bands), true)];
      }
    }

    /** `update`. */
    method UpdateWallet(id: WalletId, rules: OfferRules, strategy: Option<seq<Band<int>>>)
      requires Inv(View()) && RequestOk(Op.UpdateWallet(id, rules, strategy))
      modifies this
      ensures Inv(View()) && View() == Step(old(View()), Op.UpdateWallet(id, rules, strategy))
    {
      StepKeeps(View(), Op.UpdateWallet(id, rules, strategy));
      hide Inv;
      if id in wallets && wallets[id].live && wallets[id].creditor in creditors {
        if strategy.None? {
          wallets := wallets[id := wallets[id].(rules := rules)];
        } else {
          var ok := ValidateStrategy(strategy.value, creditors[wallets[id].creditor].bands);
          if ok {
            wallets := wallets[id := wallets[id].(rules := rules, bands := StrategyBands(strategy.value))];
          }
        }
      }
    }

    /** `upsertCommercialRules`: wallet after wallet. */
    method ReplaceRules(id: CreditorId, bands: seq<Band<int>>, commission: int)
      requires Inv(View()) && RequestOk(Op.ReplaceRules(id, bands, commission))
      modifies this
      ensures Inv(View()) && View() == Step(old(View()), Op.ReplaceRules(id, bands, commission))
    {
      StepKeeps(View(), Op.ReplaceRules(id, bands, commission));
      hide Inv;
      if id !in creditors || !creditors[id].live {
        return;
      }
      var ok := ValidateBands(bands);
      if !ok {
        return;
      }
      creditors := creditors[id := CreditorRow(bands, commission, true)];
      var pending := wallets.Keys;
      while pending != {}
        invariant creditors == old(creditors)[id := CreditorRow(bands, commission, true)]
        invariant wallets.Keys == old(wallets).Keys && pending <= wallets.Keys
        invariant forall w :: w in wallets ==>
                    wallets[w] == if w in pending then old(wallets)[w] else Replaced(old(wallets)[w], id, bands)
        decreases |pending|
      {
        var w :| w in pending;
        if wallets[w].live && wallets[w].creditor == id {
          wallets := wallets[w := wallets[w].(bands := CarriedBands(wallets[w], bands))];
        }
        pending := pending - {w};
      }
    }
  }
}
