/**
 The import application engine: a chunked, restartable upsert of file lines into the contract table.
 Dates and amounts arrive parsed; the date of the run is fixed, so aging and birth-date checks are
 already part of a line.
 */
module ImportEngine {
  import opened Wrappers
  import opened Offers
  import opened ContractTable
  import Text

  /** A mapped file line. */
  datatype FileLine = FileLine(
    debtorDocument: string, contractNumber: string, debtType: string, dueDate: Option<Instant>,
    birthDate: Option<Instant>, cancelledAt: Option<Instant>,
    originalCents: Option<int>, updatedCents: Option<int>,
    debtOrigin: Option<string>, debtor: Debtor, agingDays: int)

  /** The batch: account, target wallet, its rules, and the creditor of every wallet. */
  datatype Batch = Batch(account: Account, wallet: Wallet, rules: OfferRules, defaultDebtType: string, creditorOf: CreditorOf)

  const VALID_DEBT_TYPES: set<string> :=
    {"COMMERCIAL", "BANKING", "SERVICES", "UTILITIES", "TELECOM", "EDUCATION", "HEALTH", "CONDOMINIAL", "OTHER"}

  predicate IsCpf(d: string) { |d| == 11 && Text.All(d, Text.IsDigit) }

  predicate IsCnpj(d: string) {
    |d| == 14 && Text.All(d, Text.IsUpperAlnum) && Text.IsDigit(d[12]) && Text.IsDigit(d[13])
  }

  function DebtTypeOf(line: FileLine, defaultDebtType: string): string {
    Text.Upper(if line.debtType == "" then defaultDebtType else line.debtType)
  }

  predicate IsLineValid(line: FileLine, defaultDebtType: string) {
    var document := Text.CleanDocument(line.debtorDocument);
    && (IsCpf(document) || IsCnpj(document))
    && Text.Trim(line.contractNumber) != ""
    && DebtTypeOf(line, defaultDebtType) in VALID_DEBT_TYPES
    && line.dueDate.Some?
    && line.originalCents.Some? && line.originalCents.value >= 1
    && line.updatedCents.Some? && line.updatedCents.value >= 1
  }

  /** A line is valid exactly with a CPF or CNPJ, a contract number, a known debt type, a due date and two amounts of a cent or more. */
  lemma ValidExactly(line: FileLine, defaultDebtType: string)
    ensures var d := Text.Keep(Text.Upper(line.debtorDocument), Text.IsUpperAlnum);
            var debtType := Text.Upper(if line.debtType == "" then defaultDebtType else line.debtType);
            IsLineValid(line, defaultDebtType) <==>
              && ((|d| == 11 && forall i :: 0 <= i < 11 ==> '0' <= d[i] <= '9')
                  || (|d| == 14 && '0' <= d[12] <= '9' && '0' <= d[13] <= '9'))
              && Text.Trim(line.contractNumber) != ""
              && debtType in {"COMMERCIAL", "BANKING", "SERVICES", "UTILITIES", "TELECOM", "EDUCATION", "HEALTH", "CONDOMINIAL", "OTHER"}
              && line.dueDate.Some?
              && line.originalCents.Some? && line.originalCents.value > 0
              && line.updatedCents.Some? && line.updatedCents.value > 0
  {
    hide Text.Keep, Text.Upper, Text.Trim;
  }

  function ValidLines(lines: seq<FileLine>, defaultDebtType: string): (valid: seq<FileLine>)
    ensures forall l :: l in valid <==> l in lines && IsLineValid(l, defaultDebtType)
  {
    Filter(lines, l => IsLineValid(l, defaultDebtType))
  }

  /** The filter keeps the order and every repeat: each line, wherever it stands, is kept in its place or dropped alone. */
  lemma ValidLinesInOrder(before: seq<FileLine>, line: FileLine, after: seq<FileLine>, defaultDebtType: string)
    ensures ValidLines(before + [line] + after, defaultDebtType) ==
            ValidLines(before, defaultDebtType) + (if IsLineValid(line, defaultDebtType) then [line] else [])
            + ValidLines(after, defaultDebtType)
  {
    hide IsLineValid, Filter;
    var p := l => IsLineValid(l, defaultDebtType);
    FilterConcat(before + [line], after, p);
    FilterConcat(before, [line], p);
    FilterOne(line, p);
  }

  function LineIdentity(b: Batch, line: FileLine): Identity {
    Identity(b.account, b.creditorOf(b.wallet), Text.CleanDocument(line.debtorDocument), line.contractNumber, line.dueDate)
  }

  /** The details a line carries; only called once the due date is known to be there. */
  function LineDetails(b: Batch, line: FileLine): Details {
    Details(DebtTypeOf(line, b.defaultDebtType), GetOr(line.dueDate, 0),
            GetOr(line.originalCents, 0), GetOr(line.updatedCents, 0),
            line.debtOrigin, line.debtor, line.birthDate, line.cancelledAt)
  }

  // ---- "update unless equivalent" ----

  /** `value || null` */
  function OrNull(s: Option<string>): Option<string> { if s == Some("") then None else s }

  predicate SameDay(a: Option<Instant>, b: Option<Instant>) {
    match (a, b)
    case (Some(x), Some(y)) => Day(x) == Day(y)
    case (None, None) => true
    case _ => false
  }

  predicate DebtorsDiffer(a: Debtor, b: Debtor) {
    || OrNull(a.name) != OrNull(b.name) || OrNull(a.product) != OrNull(b.product)
    || OrNull(a.street) != OrNull(b.street) || OrNull(a.addressNumber) != OrNull(b.addressNumber)
    || OrNull(a.complement) != OrNull(b.complement) || OrNull(a.neighborhood) != OrNull(b.neighborhood)
    || OrNull(a.city) != OrNull(b.city) || OrNull(a.state) != OrNull(b.state)
    || OrNull(a.zipCode) != OrNull(b.zipCode) || OrNull(a.phone) != OrNull(b.phone) || OrNull(a.email) != OrNull(b.email)
  }

  /** `valuesAreDifferent`; the due dates are passed apart because they belong to the identity. */
  predicate ValuesAreDifferent(existing: Details, existingDue: Option<Instant>, incoming: Details, incomingDue: Option<Instant>) {
    || existing.debtType != incoming.debtType
    || Day(existing.occurrenceDate) != Day(incoming.occurrenceDate)
    || existing.originalCents != incoming.originalCents
    || existing.updatedCents != incoming.updatedCents
    || OrNull(existing.debtOrigin) != OrNull(incoming.debtOrigin)
    || !SameDay(existingDue, incomingDue)
    || !SameDay(existing.cancelledAt, incoming.cancelledAt)
    || !SameDay(existing.birthDate, incoming.birthDate)
    || DebtorsDiffer(existing.debtor, incoming.debtor)
  }

  /** What two equivalent detail records have in common: dates by day, blank text as missing. */
  function Canon(d: Details): Details {
    var p := d.debtor;
    d.(occurrenceDate := Day(d.occurrenceDate),
       debtOrigin := OrNull(d.debtOrigin),
       birthDate := CanonDate(d.birthDate),
       cancelledAt := CanonDate(d.cancelledAt),
       debtor := Debtor(OrNull(p.name), OrNull(p.product), OrNull(p.street), OrNull(p.addressNumber), OrNull(p.complement),
                        OrNull(p.neighborhood), OrNull(p.city), OrNull(p.state), OrNull(p.zipCode), OrNull(p.phone), OrNull(p.email)))
  }

  function CanonDate(t: Option<Instant>): Option<Instant> {
    if t.Some? then Some(Day(t.value)) else None
  }

  /** On rows of one identity the field-by-field comparison is an equivalence: the kernel of Canon. */
  lemma DifferentIffCanon(a: Details, b: Details, due: Option<Instant>)
    ensures ValuesAreDifferent(a, due, b, due) <==> Canon(a) != Canon(b)
  {
  }

  // ---- one line ----

  datatype Effect = Create | Update | Ignore

  /** A line either takes effect or hits the unique index, which aborts the chunk's transaction. */
  datatype LineOutcome = Done(table: Table, effect: Effect) | UniqueViolation

  /** A paid or cancelled contract is never touched by an import. */
  predicate Terminal(c: Contract) { c.payment.Paid? || c.status.Cancelled? }

  /** The columns every update writes. */
  function Overwrite(b: Batch, row: Contract, line: FileLine): Contract {
    var id := LineIdentity(b, line);
    row.(wallet := b.wallet, document := id.document, number := id.number, dueDate := id.dueDate,
         details := LineDetails(b, line), agingDays := line.agingDays,
         offer := if row.payment.Paid? then row.offer else CalculateOffer(GetOr(line.updatedCents, 0), b.rules),
         key := KeyOf(id))
  }

  function Reactivate(row: Contract): Contract {
    row.(status := Active, cancellationReason := None, details := row.details.(cancelledAt := None))
  }

  /** The matched, non-terminal row after the line, and what was counted. */
  function ApplyToRow(b: Batch, row: Contract, line: FileLine): (Contract, Effect) {
    if row.wallet == b.wallet then
      var inactive := row.status.Suspended? || row.status.Cancelled?;
      if ValuesAreDifferent(row.details, row.dueDate, LineDetails(b, line), line.dueDate) then
        var updated := Overwrite(b, row, line);
        (if inactive then Reactivate(updated) else updated, Update)
      else if inactive then (Reactivate(row), Update)
      else (row, Ignore)
    else (Overwrite(b, row, line), Update)
  }

  function NewContract(b: Batch, line: FileLine): Contract {
    var id := LineIdentity(b, line);
    Contract(b.account, b.wallet, id.document, id.number, id.dueDate, LineDetails(b, line), line.agingDays,
             CalculateOffer(GetOr(line.updatedCents, 0), b.rules), KeyOf(id), None,
             Active, None, Open, NotEnabled, false)
  }

  function ApplyLine(b: Batch, t: Table, line: FileLine): LineOutcome {
    if line.dueDate.None? then Done(t, Ignore) else
      var m := Matches(t, b.creditorOf, LineIdentity(b, line));
      if |m| > 1 then Done(t, Ignore)
      else if |m| == 1 then
        assert m[0] in m;
        if Terminal(t[m[0]]) then Done(t, Ignore) else
          var (row, effect) := ApplyToRow(b, t[m[0]], line);
          if KeyHeldByOther(t, m[0], row.key) then UniqueViolation else Done(t[m[0] := row], effect)
      else
        if KeyHeldByOther(t, |t|, KeyOf(LineIdentity(b, line))) then UniqueViolation
        else Done(t + [NewContract(b, line)], Create)
  }

  // ---- many lines ----

  datatype Counts = Counts(created: nat, updated: nat, ignored: nat) {
    function Total(): nat { created + updated + ignored }

    function Add(e: Effect): Counts {
      match e
      case Create => this.(created := created + 1)
      case Update => this.(updated := updated + 1)
      case Ignore => this.(ignored := ignored + 1)
    }
  }

  datatype RunOutcome = Finished(table: Table, counts: Counts) | Aborted {
    /** The outcome without the counters, which a rerun counts afresh. */
    function Result(): Option<Table> { if Finished? then Some(table) else None }
  }

  /** All lines in order, one transaction; the unit from which chunks and whole runs are built. */
  function RunLines(b: Batch, t: Table, lines: seq<FileLine>): RunOutcome {
    if lines == [] then Finished(t, Counts(0, 0, 0)) else
      match RunLines(b, t, lines[..|lines| - 1])
      case Aborted => Aborted
      case Finished(mid, counts) =>
        match ApplyLine(b, mid, lines[|lines| - 1])
        case UniqueViolation => Aborted
        case Done(after, effect) => Finished(after, counts.Add(effect))
  }
}
