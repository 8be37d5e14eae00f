/**
 The contract table: rows in creation order (the position is the id), the columns that the import,
 the upsert, the bulk transfer and the pricing code read or write, and the two notions of sameness
 the code uses: the business identity (an exact due instant) and the unique key (the due day).
 */
module ContractTable {
  import opened Wrappers
  import opened Offers

  type Account = nat
  type Creditor = nat
  type Wallet = nat

  /** Milliseconds; dates compare either exactly or by their UTC day. */
  type Instant = int

  function Day(t: Instant): (d: int)
    ensures d * 86_400_000 <= t < (d + 1) * 86_400_000
  {
    t / 86_400_000
  }

  datatype Status = Active | Suspended | Cancelled
  datatype Payment = Open | InAgreement | Installment | AgreementBreached | Paid
  datatype Serasa = NotEnabled | Pending | Sent | Registered | Updated | Removing | Removed | Failed

  /** Nullable debtor text columns. */
  datatype Debtor = Debtor(
    name: Option<string>, product: Option<string>, street: Option<string>, addressNumber: Option<string>,
    complement: Option<string>, neighborhood: Option<string>, city: Option<string>, state: Option<string>,
    zipCode: Option<string>, phone: Option<string>, email: Option<string>)

  /** The columns that `valuesAreDifferent` looks at, apart from the due date. */
  datatype Details = Details(
    debtType: string, occurrenceDate: Instant, originalCents: int, updatedCents: int,
    debtOrigin: Option<string>, debtor: Debtor, birthDate: Option<Instant>, cancelledAt: Option<Instant>)

  /** The unique deduplication key; SHA-256 is taken to be injective, so its input stands for it. */
  datatype Key = Key(creditor: Creditor, document: string, number: string, dueDay: Option<int>)
    | LegacyKey(text: string)

  /** Ceiling, repasse and commission columns. */
  datatype Pricing = Pricing(maximumDiscount: int, repasseCents: int, commissionPercent: int, commissionCents: int)

  datatype Contract = Contract(
    account: Account, wallet: Wallet, document: string, number: string, dueDate: Option<Instant>,
    details: Details, agingDays: int, offer: Offer, key: Key, pricing: Option<Pricing>,
    status: Status, cancellationReason: Option<string>, payment: Payment, serasa: Serasa, deleted: bool)

  type Table = seq<Contract>

  /** Which creditor a wallet belongs to. A wallet never changes creditor. */
  type CreditorOf = Wallet -> Creditor

  datatype Identity = Identity(account: Account, creditor: Creditor, document: string, number: string, dueDate: Option<Instant>)

  function IdentityOf(c: Contract, creditorOf: CreditorOf): Identity {
    Identity(c.account, creditorOf(c.wallet), c.document, c.number, c.dueDate)
  }

  function KeyOf(id: Identity): Key {
    Key(id.creditor, id.document, id.number,
        if id.dueDate.Some? then Some(Day(id.dueDate.value)) else None)
  }

  /** Two identities share a key exactly when they differ at most in the account and in the time of the due day. */
  lemma KeysSeparate(a: Identity, b: Identity)
    ensures KeyOf(a) == KeyOf(b) <==>
            && a.creditor == b.creditor && a.document == b.document && a.number == b.number
            && (a.dueDate.None? <==> b.dueDate.None?)
            && (a.dueDate.Some? && b.dueDate.Some? ==> a.dueDate.value / 86_400_000 == b.dueDate.value / 86_400_000)
  {
  }

  /** A row answers the query for its own five identity columns, if it is live, and for no other identity. */
  lemma HitsExactly(c: Contract, creditorOf: CreditorOf, id: Identity)
    ensures Hit(c, creditorOf, id) <==>
            && !c.deleted && c.account == id.account && creditorOf(c.wallet) == id.creditor
            && c.document == id.document && c.number == id.number && c.dueDate == id.dueDate
  {
  }

  /** The row answers the identity query: live, and with this identity. */
  predicate Hit(c: Contract, creditorOf: CreditorOf, id: Identity) {
    !c.deleted && IdentityOf(c, creditorOf) == id
  }

  /** The identity query: positions of all live rows with this identity. */
  function Matches(t: Table, creditorOf: CreditorOf, id: Identity): (m: seq<nat>)
    ensures forall i :: i in m <==> 0 <= i < |t| && Hit(t[i], creditorOf, id)
    ensures forall a, b :: 0 <= a < b < |m| ==> m[a] < m[b]
  {
    if t == [] then [] else
      var n := |t| - 1;
      var rest := Matches(t[..n], creditorOf, id);
      assert forall a :: 0 <= a < |rest| ==> rest[a] in rest;
      if Hit(t[n], creditorOf, id) then rest + [n] else rest
  }

  /** Row i is the only live row with its identity. */
  ghost predicate Sole(t: Table, creditorOf: CreditorOf, i: nat)
    requires i < |t|
  {
    && !t[i].deleted
    && forall j :: 0 <= j < |t| && Hit(t[j], creditorOf, IdentityOf(t[i], creditorOf)) ==> j == i
  }

  /** Exactly one match means a sole row, and a sole row is the only match. */
  lemma MatchesOne(t: Table, creditorOf: CreditorOf, id: Identity)
    ensures var m := Matches(t, creditorOf, id);
            && (|m| == 1 ==> m[0] < |t| && Hit(t[m[0]], creditorOf, id) && Sole(t, creditorOf, m[0]))
            && (forall i :: 0 <= i < |t| && Hit(t[i], creditorOf, id) && Sole(t, creditorOf, i) ==> m == [i])
            && (|m| > 1 ==> forall i :: 0 <= i < |t| && Hit(t[i], creditorOf, id) ==> !Sole(t, creditorOf, i))
  {
    var m := Matches(t, creditorOf, id);
    assert |m| >= 1 ==> m[0] in m;
    assert |m| > 1 ==> m[1] in m && m[0] < m[1];
    forall i | 0 <= i < |t| && Hit(t[i], creditorOf, id) && Sole(t, creditorOf, i)
      ensures m == [i]
    {
      assert i in m;
      assert forall a :: 0 <= a < |m| ==> m[a] in m && m[a] == i;
      assert |m| == 1;
    }
  }

  /** The unique index on the deduplication key, deleted rows included. */
  ghost predicate UniqueKeys(t: Table) {
    forall i, j :: 0 <= i < j < |t| ==> t[i].key != t[j].key
  }

  predicate KeyHeldByOther(t: Table, i: nat, key: Key) {
    exists j :: 0 <= j < |t| && j != i && t[j].key == key
  }

  /** At most one live row per business identity. */
  ghost predicate UniqueIdentities(t: Table, creditorOf: CreditorOf) {
    forall i, j :: 0 <= i < j < |t| && !t[i].deleted && !t[j].deleted ==>
      IdentityOf(t[i], creditorOf) != IdentityOf(t[j], creditorOf)
  }
}
