/**
 The other writers of the contract table: the API upsert, the bulk transfer and the soft delete.
 Together with import lines they keep at most one live contract per business identity.
 */
module ContractUpsert {
  import opened Wrappers
  import opened ContractTable
  import ImportEngine
  import Offers
  import ImportRetry
  import Pricing
  import Runs

  datatype WalletInfo = WalletInfo(account: Account, active: bool, rules: Pricing.WalletRules, commercial: Pricing.CreditorRules)

  /** Live wallets, the creditor of every wallet, the end of today, and the aging of a debt date. */
  datatype World = World(wallets: map<Wallet, WalletInfo>, creditorOf: CreditorOf, todayEnd: Instant, today: int -> int)

  /** The upsert request, its document already in canonical form; None leaves an optional column alone. */
  datatype UpsertRequest = UpsertRequest(
    wallet: Wallet, document: string, number: string, dueDate: Instant, debtType: string,
    originalCents: int, updatedCents: int, debtOrigin: Option<string>, debtor: Debtor,
    birthDate: Option<Instant>, cancelledAt: Option<Instant>)

  datatype Op =
    | ImportLine(account: Account, wallet: Wallet, defaultDebtType: string, line: ImportEngine.FileLine)
    | Upsert(account: Account, request: UpsertRequest)
    | BulkTransfer(account: Account, source: Wallet, destination: Wallet, serasa: Option<Serasa>, filter: Contract -> bool)
    | SoftDelete(account: Account, id: nat)

  /** Provider statuses that allow editing and deleting. */
  predicate Editable(s: Serasa) { s.NotEnabled? || s.Pending? || s.Failed? || s.Removed? }

  function Prefer<T>(a: Option<T>, b: Option<T>): Option<T> { if a.Some? then a else b }

  /** The columns an update of a matched row writes. The key column is left alone. */
  function Merge(w: World, info: WalletInfo, row: Contract, r: UpsertRequest): Contract {
    var stored, given := row.details.debtor, r.debtor;
    var quote := Pricing.CreationQuote(r.updatedCents, info.rules, info.commercial, w.today(r.dueDate));
    var merged := row.(
      document := r.document, number := r.number, dueDate := Some(r.dueDate), agingDays := w.today(r.dueDate),
      details := Details(
        r.debtType, r.dueDate, r.originalCents, r.updatedCents, Prefer(r.debtOrigin, row.details.debtOrigin),
        stored.(name := Prefer(given.name, stored.name), product := Prefer(given.product, stored.product),
             street := Prefer(given.street, stored.street), city := Prefer(given.city, stored.city),
             phone := Prefer(given.phone, stored.phone), email := Prefer(given.email, stored.email)),
        Prefer(r.birthDate, row.details.birthDate), Prefer(r.cancelledAt, row.details.cancelledAt)));
    if row.payment.Paid? then merged else Pricing.Apply(merged, quote)
  }

  function Fresh(w: World, info: WalletInfo, account: Account, r: UpsertRequest): Contract {
    var quote := Pricing.CreationQuote(r.updatedCents, info.rules, info.commercial, w.today(r.dueDate));
    Contract(account, r.wallet, r.document, r.number, Some(r.dueDate),
             Details(r.debtType, r.dueDate, r.originalCents, r.updatedCents, r.debtOrigin, r.debtor, r.birthDate, r.cancelledAt),
             w.today(r.dueDate), quote.offer, KeyOf(RequestIdentity(w, account, r)), Some(quote.pricing),
             Active, None, Open, NotEnabled, false)
  }

  function RequestIdentity(w: World, account: Account, r: UpsertRequest): Identity {
    Identity(account, w.creditorOf(r.wallet), r.document, r.number, Some(r.dueDate))
  }

  /** `createOrUpdate`; None is any of its rejections, or the unique index refusing the new row. */
  function CreateOrUpdate(w: World, t: Table, account: Account, r: UpsertRequest): Option<Table> {
    if r.wallet !in w.wallets || w.wallets[r.wallet].account != account then None
    else
      var info := w.wallets[r.wallet];
      if !info.active || r.dueDate > w.todayEnd then None
      else
        var m := Matches(t, w.creditorOf, RequestIdentity(w, account, r));
        if |m| > 1 then None
        else if |m| == 1 then
          assert m[0] in m;
          if t[m[0]].wallet != r.wallet then None else Some(t[m[0] := Merge(w, info, t[m[0]], r)])
        else if KeyHeldByOther(t, |t|, KeyOf(RequestIdentity(w, account, r))) then None
        else Some(t + [Fresh(w, info, account, r)])
  }

  /** The provider-status filter replaces the editable test instead of adding to it. */
  predicate Transferable(c: Contract, account: Account, source: Wallet, serasa: Option<Serasa>, filter: Contract -> bool) {
    && c.account == account && c.wallet == source && !c.deleted
    && (if serasa.Some? then c.serasa == serasa.value else Editable(c.serasa))
    && filter(c)
  }

  /** `bulkTransfer`: only between two different live wallets of one creditor. */
  function Transfer(w: World, t: Table, account: Account, source: Wallet, destination: Wallet, serasa: Option<Serasa>, filter: Contract -> bool)
    : Option<Table>
  {
    if || source == destination || source !in w.wallets || destination !in w.wallets
       || w.wallets[source].account != account || w.wallets[destination].account != account
       || !w.wallets[destination].active || w.creditorOf(source) != w.creditorOf(destination)
    then None
    else Some(seq(|t|, i requires 0 <= i < |t| =>
      if Transferable(t[i], account, source, serasa, filter) then t[i].(wallet := destination) else t[i]))
  }

  /** The request passes the transfer's own checks. */
  predicate MayTransfer(w: World, account: Account, source: Wallet, destination: Wallet) {
    && source != destination && source in w.wallets && destination in w.wallets
    && w.wallets[source].account == account && w.wallets[destination].account == account
    && w.wallets[destination].active && w.creditorOf(source) == w.creditorOf(destination)
  }

  /** An accepted transfer, whatever the table and the other filters, moves editable rows only. */
  ghost predicate MovesEditableOnly(w: World, account: Account, source: Wallet, destination: Wallet, serasa: Option<Serasa>)
    requires MayTransfer(w, account, source, destination)
  {
    forall t: Table, filter, i ::
      0 <= i < |t| && Transfer(w, t, account, source, destination, serasa, filter).value[i] != t[i] ==> Editable(t[i].serasa)
  }

  /** It does so exactly when there is no provider-status filter, or the filter itself names an editable status. */
  lemma TransfersEditableExactly(w: World, account: Account, source: Wallet, destination: Wallet, serasa: Option<Serasa>)
    requires MayTransfer(w, account, source, destination)
    ensures MovesEditableOnly(w, account, source, destination, serasa) <==> serasa.None? || Editable(serasa.value)
  {
    if serasa.Some? && !Editable(serasa.value) {
      MovesRegistered(w, account, source, destination, serasa.value);
    }
  }

  /** For example, the filter "registered" moves a registered contract. */
  lemma MovesRegistered(w: World, account: Account, source: Wallet, destination: Wallet, status: Serasa)
    requires MayTransfer(w, account, source, destination) && !Editable(status)
    ensures !MovesEditableOnly(w, account, source, destination, Some(status))
  {
    var debtor := Debtor(None, None, None, None, None, None, None, None, None, None, None);
    var c := Contract(account, source, "", "", None, Details("", 0, 0, 0, None, debtor, None, None), 0, Offers.Offer(0, 0, 0, 1),
                      LegacyKey(""), None, Active, None, Open, status, false);
    var filter := (_: Contract) => true;
    assert Transfer(w, [c], account, source, destination, Some(status), filter).value[0].wallet == destination;
  }

  function Delete(t: Table, account: Account, id: nat): Option<Table> {
    if id >= |t| || t[id].account != account || t[id].deleted || !Editable(t[id].serasa) then None
    else Some(t[id := t[id].(deleted := true)])
  }

  /** One operation; a rejected one leaves the table as it was. */
  function Step(w: World, t: Table, op: Op): Table {
    match op
    case ImportLine(account, wallet, defaultDebtType, line) =>
      if wallet !in w.wallets || w.wallets[wallet].account != account then t else
        var b := ImportEngine.Batch(account, wallet, w.wallets[wallet].rules.rules, defaultDebtType, w.creditorOf);
        (match ImportEngine.ApplyLine(b, t, line)
         case UniqueViolation => t
         case Done(t', _) => t')
    case Upsert(account, request) => GetOr(CreateOrUpdate(w, t, account, request), t)
    case BulkTransfer(account, source, destination, serasa, filter) =>
      GetOr(Transfer(w, t, account, source, destination, serasa, filter), t)
    case SoftDelete(account, id) => GetOr(Delete(t, account, id), t)
  }

  function Run(w: World, t: Table, ops: seq<Op>): Table {
    Runs.Fold(t, ops, (table: Table, op: Op) => Step(w, table, op))
  }

  // ---- what a writer stores ----

  /** The request's own columns, as creation and update both store them. */
  predicate CarriesRequest(w: World, c: Contract, r: UpsertRequest) {
    && c.wallet == r.wallet && c.document == r.document && c.number == r.number && c.dueDate == Some(r.dueDate)
    && c.agingDays == w.today(r.dueDate)
    && c.details.debtType == r.debtType && c.details.occurrenceDate == r.dueDate
    && c.details.originalCents == r.originalCents && c.details.updatedCents == r.updatedCents
  }

  /** A column the request gives is stored; one it leaves out keeps its value. */
  predicate Given<T(==)>(requested: Option<T>, before: Option<T>, after: Option<T>) {
    (requested.Some? ==> after == requested) && (requested.None? ==> after == before)
  }

  predicate GivenDetails(r: UpsertRequest, before: Details, after: Details) {
    var d, d' := before.debtor, after.debtor;
    && Given(r.debtOrigin, before.debtOrigin, after.debtOrigin)
    && Given(r.birthDate, before.birthDate, after.birthDate) && Given(r.cancelledAt, before.cancelledAt, after.cancelledAt)
    && Given(r.debtor.name, d.name, d'.name) && Given(r.debtor.product, d.product, d'.product)
    && Given(r.debtor.street, d.street, d'.street) && Given(r.debtor.city, d.city, d'.city)
    && Given(r.debtor.phone, d.phone, d'.phone) && Given(r.debtor.email, d.email, d'.email)
    && d'.addressNumber == d.addressNumber && d'.complement == d.complement && d'.neighborhood == d.neighborhood
    && d'.state == d.state && d'.zipCode == d.zipCode
  }

  /** The row has the price of a new contract for the request and today's age. */
  predicate PricedAnew(w: World, c: Contract, r: UpsertRequest)
    requires r.wallet in w.wallets
  {
    var q := Pricing.CreationQuote(r.updatedCents, w.wallets[r.wallet].rules, w.wallets[r.wallet].commercial, w.today(r.dueDate));
    c.offer == q.offer && c.pricing == Some(q.pricing)
  }

  /**
   What an accepted upsert stores: it updates the one live row with the identity, whose price it leaves alone if it is
   paid, or else appends a new active row; every other row stays.
   */
  lemma UpsertStores(w: World, t: Table, account: Account, r: UpsertRequest)
    requires CreateOrUpdate(w, t, account, r).Some?
    ensures var t' := CreateOrUpdate(w, t, account, r).value;
            && r.wallet in w.wallets && |t| <= |t'| <= |t| + 1
            && (|t'| == |t| ==> exists i :: 0 <= i < |t| && Hit(t[i], w.creditorOf, RequestIdentity(w, account, r))
                                 && Updates(w, t[i], t'[i], r) && forall j :: 0 <= j < |t| && j != i ==> t'[j] == t[j])
            && (|t'| > |t| ==> Creates(w, account, t'[|t|], r) && t'[..|t|] == t
                               && forall j :: 0 <= j < |t| ==> !Hit(t[j], w.creditorOf, RequestIdentity(w, account, r)))
  {
    var m := Matches(t, w.creditorOf, RequestIdentity(w, account, r));
    assert forall i :: 0 <= i < |t| && Hit(t[i], w.creditorOf, RequestIdentity(w, account, r)) ==> i in m;
    if |m| == 1 {
      assert m[0] in m;
      MergeStores(w, t[m[0]], r);
    } else {
      FreshStores(w, account, r);
    }
    hide Merge, Fresh, Updates, Creates, Hit;
  }

  predicate Updates(w: World, c: Contract, c': Contract, r: UpsertRequest)
    requires r.wallet in w.wallets
  {
    && c.wallet == r.wallet && CarriesRequest(w, c', r) && GivenDetails(r, c.details, c'.details)
    && c'.account == c.account && c'.key == c.key && c'.status == c.status && c'.cancellationReason == c.cancellationReason
    && c'.payment == c.payment && c'.serasa == c.serasa && c'.deleted == c.deleted
    && if c.payment.Paid? then c'.offer == c.offer && c'.pricing == c.pricing else PricedAnew(w, c', r)
  }

  predicate Creates(w: World, account: Account, c: Contract, r: UpsertRequest)
    requires r.wallet in w.wallets
  {
    && CarriesRequest(w, c, r) && PricedAnew(w, c, r)
    && c.details.debtOrigin == r.debtOrigin && c.details.debtor == r.debtor
    && c.details.birthDate == r.birthDate && c.details.cancelledAt == r.cancelledAt
    && c.account == account && c.key == Key(w.creditorOf(r.wallet), r.document, r.number, Some(Day(r.dueDate)))
    && c.status.Active? && c.payment.Open? && c.serasa.NotEnabled? && !c.deleted && c.cancellationReason.None?
  }

  lemma MergeStores(w: World, c: Contract, r: UpsertRequest)
    requires r.wallet in w.wallets
    ensures c.wallet == r.wallet ==> Updates(w, c, Merge(w, w.wallets[r.wallet], c, r), r)
  {
    hide Pricing.CreationQuote;
  }

  lemma FreshStores(w: World, account: Account, r: UpsertRequest)
    requires r.wallet in w.wallets
    ensures Creates(w, account, Fresh(w, w.wallets[r.wallet], account, r), r)
  {
    hide Pricing.CreationQuote;
  }

  /** An upsert is refused exactly for a foreign or inactive wallet, a future date, a second match, another wallet's contract, or a taken key. */
  lemma UpsertRefusedExactly(w: World, t: Table, account: Account, r: UpsertRequest)
    ensures CreateOrUpdate(w, t, account, r).None? <==>
            || r.wallet !in w.wallets || w.wallets[r.wallet].account != account || !w.wallets[r.wallet].active
            || r.dueDate > w.todayEnd
            || (exists i, j :: 0 <= i < j < |t| && Hit(t[i], w.creditorOf, RequestIdentity(w, account, r))
                                && Hit(t[j], w.creditorOf, RequestIdentity(w, account, r)))
            || (exists i :: 0 <= i < |t| && Hit(t[i], w.creditorOf, RequestIdentity(w, account, r)) && t[i].wallet != r.wallet)
            || ((forall i :: 0 <= i < |t| ==> !Hit(t[i], w.creditorOf, RequestIdentity(w, account, r)))
                && exists i :: 0 <= i < |t| && t[i].key == Key(w.creditorOf(r.wallet), r.document, r.number, Some(Day(r.dueDate))))
  {
    var id := RequestIdentity(w, account, r);
    var m := Matches(t, w.creditorOf, id);
    hide Merge, Fresh, Hit;
    assert forall i :: 0 <= i < |t| && Hit(t[i], w.creditorOf, id) ==> i in m;
    assert |m| >= 1 ==> m[0] in m;
    assert |m| > 1 ==> m[1] in m && m[0] < m[1];
    assert |m| == 1 ==> forall i :: i in m ==> i == m[0];
  }

  /** An accepted transfer moves the rows its filters name to the destination, and changes nothing else of them or of others. */
  lemma TransferStores(w: World, t: Table, account: Account, source: Wallet, destination: Wallet, serasa: Option<Serasa>, filter: Contract -> bool)
    ensures Transfer(w, t, account, source, destination, serasa, filter).Some? <==> MayTransfer(w, account, source, destination)
    ensures MayTransfer(w, account, source, destination) ==>
              var t' := Transfer(w, t, account, source, destination, serasa, filter).value;
              && |t'| == |t|
              && forall i :: 0 <= i < |t| ==>
                   t'[i] == if && t[i].account == account && t[i].wallet == source && !t[i].deleted && filter(t[i])
                               && (serasa == Some(t[i].serasa) || (serasa.None? && Editable(t[i].serasa)))
                            then t[i].(wallet := destination) else t[i]
  {
  }

  /** The provider statuses that count as editable. */
  lemma EditableStatuses(s: Serasa)
    ensures Editable(s) <==> s in {NotEnabled, Serasa.Pending, Serasa.Failed, Serasa.Removed}
  {
  }

  /** A deletion is accepted exactly for a live, editable contract of the account, and marks it and nothing else. */
  lemma DeleteStores(t: Table, account: Account, id: nat)
    ensures Delete(t, account, id).Some? <==> id < |t| && t[id].account == account && !t[id].deleted && Editable(t[id].serasa)
    ensures Delete(t, account, id).Some? ==>
              var t' := Delete(t, account, id).value;
              |t'| == |t| && t'[id] == t[id].(deleted := true) && forall j :: 0 <= j < |t| && j != id ==> t'[j] == t[j]
  {
  }

  /** Rows that keep or lose liveness, and keep their identity, cannot clash. */
  lemma ShrinkKeepsUnique(t: Table, t': Table, creditorOf: CreditorOf)
    requires UniqueIdentities(t, creditorOf) && |t'| == |t|
    requires forall i :: 0 <= i < |t| && !t'[i].deleted ==>
               !t[i].deleted && IdentityOf(t'[i], creditorOf) == IdentityOf(t[i], creditorOf)
    ensures UniqueIdentities(t', creditorOf)
  {
  }

  lemma AppendKeepsUnique(t: Table, c: Contract, creditorOf: CreditorOf)
    requires UniqueIdentities(t, creditorOf)
    requires forall i :: 0 <= i < |t| ==> !Hit(t[i], creditorOf, IdentityOf(c, creditorOf))
    ensures UniqueIdentities(t + [c], creditorOf)
  {
  }

  lemma ImportKeepsUnique(b: ImportEngine.Batch, t: Table, line: ImportEngine.FileLine)
    requires UniqueIdentities(t, b.creditorOf) && ImportEngine.ApplyLine(b, t, line).Done?
    ensures UniqueIdentities(ImportEngine.ApplyLine(b, t, line).table, b.creditorOf)
  {
    var t' := ImportEngine.ApplyLine(b, t, line).table;
    ImportRetry.ApplyLineFrame(b, t, line);
    if |t'| == |t| {
      ShrinkKeepsUnique(t, t', b.creditorOf);
    } else {
      assert forall i :: 0 <= i < |t| ==> !ImportRetry.HitBy(b, t[i], line);
      AppendKeepsUnique(t, ImportEngine.NewContract(b, line), b.creditorOf);
    }
  }

  lemma UpsertKeepsUnique(w: World, t: Table, account: Account, r: UpsertRequest)
    requires UniqueIdentities(t, w.creditorOf) && CreateOrUpdate(w, t, account, r).Some?
    ensures UniqueIdentities(CreateOrUpdate(w, t, account, r).value, w.creditorOf)
  {
    var t' := CreateOrUpdate(w, t, account, r).value;
    var info, id := w.wallets[r.wallet], RequestIdentity(w, account, r);
    var m := Matches(t, w.creditorOf, id);
    if |m| == 1 {
      assert m[0] in m;
      assert IdentityOf(Merge(w, info, t[m[0]], r), w.creditorOf) == id;
      assert Merge(w, info, t[m[0]], r).deleted == t[m[0]].deleted;
      ShrinkKeepsUnique(t, t', w.creditorOf);
    } else {
      assert forall i :: 0 <= i < |t| && Hit(t[i], w.creditorOf, id) ==> i in m;
      AppendKeepsUnique(t, Fresh(w, info, account, r), w.creditorOf);
    }
  }

  /** Sending the same request again changes nothing. */
  lemma UpsertIdempotent(w: World, t: Table, account: Account, r: UpsertRequest)
    requires CreateOrUpdate(w, t, account, r).Some?
    ensures var t1 := CreateOrUpdate(w, t, account, r).value; CreateOrUpdate(w, t1, account, r) == Some(t1)
  {
    hide Merge, Fresh, Matches;
    var t1 := CreateOrUpdate(w, t, account, r).value;
    var info, id := w.wallets[r.wallet], RequestIdentity(w, account, r);
    var m := Matches(t, w.creditorOf, id);
    var i := if |m| == 1 then m[0] else |t|;
    assert |m| == 1 ==> m[0] in m;
    forall j | 0 <= j < |t1| && j != i
      ensures !Hit(t1[j], w.creditorOf, id)
    {
      assert t1[j] == t[j] && (Hit(t[j], w.creditorOf, id) ==> j in m);
    }
    var row := if |m| == 1 then t[i] else t1[i];
    MergeHit(w, info, account, row, r);
    MergeAgain(w, info, account, row, r);
    OnlyMatch(t1, w.creditorOf, id, i);
    assert t1[i := t1[i]] == t1;
  }

  lemma OnlyMatch(t: Table, creditorOf: CreditorOf, id: Identity, i: nat)
    requires i < |t| && Hit(t[i], creditorOf, id)
    requires forall j :: 0 <= j < |t| && j != i ==> !Hit(t[j], creditorOf, id)
    ensures Matches(t, creditorOf, id) == [i]
  {
    hide Matches;
    MatchesOne(t, creditorOf, id);
    assert Sole(t, creditorOf, i);
  }

  lemma MergeHit(w: World, info: WalletInfo, account: Account, row: Contract, r: UpsertRequest)
    ensures Hit(row, w.creditorOf, RequestIdentity(w, account, r)) && row.wallet == r.wallet ==>
            var c := Merge(w, info, row, r); Hit(c, w.creditorOf, RequestIdentity(w, account, r)) && c.wallet == r.wallet
    ensures var c := Fresh(w, info, account, r); Hit(c, w.creditorOf, RequestIdentity(w, account, r)) && c.wallet == r.wallet
  {
    hide Pricing.CreationQuote;
  }

  lemma MergeAgain(w: World, info: WalletInfo, account: Account, row: Contract, r: UpsertRequest)
    ensures Merge(w, info, Merge(w, info, row, r), r) == Merge(w, info, row, r)
    ensures Merge(w, info, Fresh(w, info, account, r), r) == Fresh(w, info, account, r)
  {
    hide Pricing.CreationQuote;
  }

  lemma StepKeepsUnique(w: World, t: Table, op: Op)
    requires UniqueIdentities(t, w.creditorOf)
    ensures UniqueIdentities(Step(w, t, op), w.creditorOf)
  {
    match op
    case ImportLine(account, wallet, defaultDebtType, line) =>
      if wallet in w.wallets {
        var b := ImportEngine.Batch(account, wallet, w.wallets[wallet].rules.rules, defaultDebtType, w.creditorOf);
        if ImportEngine.ApplyLine(b, t, line).Done? {
          ImportKeepsUnique(b, t, line);
        }
      }
    case Upsert(account, request) =>
      if CreateOrUpdate(w, t, account, request).Some? {
        UpsertKeepsUnique(w, t, account, request);
      }
    case BulkTransfer(account, source, destination, serasa, filter) =>
      ShrinkKeepsUnique(t, Step(w, t, op), w.creditorOf);
    case SoftDelete(account, id) =>
      ShrinkKeepsUnique(t, Step(w, t, op), w.creditorOf);
  }

  /** After any sequence of writers, at most one live contract per identity. */
  lemma {:induction false} RunKeepsUnique(w: World, t: Table, ops: seq<Op>)
    requires UniqueIdentities(t, w.creditorOf)
    ensures UniqueIdentities(Run(w, t, ops), w.creditorOf)
  {
    if ops != [] {
      RunKeepsUnique(w, t, ops[..|ops| - 1]);
      StepKeepsUnique(w, Run(w, t, ops[..|ops| - 1]), ops[|ops| - 1]);
    }
  }

  /**
   So in every reachable table an identity query finds at most one row: the "more than one contract" rejections
   of the import and of the upsert never fire.
   */
  lemma DuplicatesNeverFound(w: World, t: Table, ops: seq<Op>, id: Identity)
    requires UniqueIdentities(t, w.creditorOf)
    ensures |Matches(Run(w, t, ops), w.creditorOf, id)| <= 1
  {
    RunKeepsUnique(w, t, ops);
    var t' := Run(w, t, ops);
    var m := Matches(t', w.creditorOf, id);
    MatchesOne(t', w.creditorOf, id);
    if |m| >= 1 {
      assert m[0] in m;
      assert Sole(t', w.creditorOf, m[0]);
    }
  }
}
