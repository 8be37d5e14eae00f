/**
 What an import writes, column by column: the row a line creates, the row a line updates, and the row that answers the
 last line for an identity once the run is over.
 */
module ImportColumns {
  import opened Wrappers
  import opened ContractTable
  import opened ImportEngine
  import opened ImportRetry
  import Offers
  import Text

  /** The same text, where an empty one and a missing one are the same. */
  predicate SameText(a: Option<string>, b: Option<string>) {
    a == b || ((a.None? || a.value == "") && (b.None? || b.value == ""))
  }

  predicate SameDebtor(a: Debtor, b: Debtor) {
    && SameText(a.name, b.name) && SameText(a.product, b.product) && SameText(a.street, b.street)
    && SameText(a.addressNumber, b.addressNumber) && SameText(a.complement, b.complement)
    && SameText(a.neighborhood, b.neighborhood) && SameText(a.city, b.city) && SameText(a.state, b.state)
    && SameText(a.zipCode, b.zipCode) && SameText(a.phone, b.phone) && SameText(a.email, b.email)
  }

  /** Both missing, or instants of one UTC day. */
  predicate SameDate(a: Option<Instant>, b: Option<Instant>) {
    (a.None? && b.None?) || (a.Some? && b.Some? && Day(a.value) == Day(b.value))
  }

  /** The debt type of a line, or the wallet's default, in capitals. */
  function DebtTypeText(b: Batch, line: FileLine): string {
    Text.Upper(if line.debtType == "" then b.defaultDebtType else line.debtType)
  }

  /** Every detail column but the cancellation date shows the line, dates by the day and empty text as missing. */
  predicate ShowsLine(b: Batch, d: Details, line: FileLine)
    requires line.dueDate.Some?
  {
    && d.debtType == DebtTypeText(b, line)
    && Day(d.occurrenceDate) == Day(line.dueDate.value)
    && d.originalCents == GetOr(line.originalCents, 0) && d.updatedCents == GetOr(line.updatedCents, 0)
    && SameText(d.debtOrigin, line.debtOrigin) && SameDebtor(d.debtor, line.debtor)
    && SameDate(d.birthDate, line.birthDate)
  }

  /** Every detail column but the cancellation date is the line's, letter by letter. */
  predicate CopiesLine(b: Batch, d: Details, line: FileLine)
    requires line.dueDate.Some?
  {
    && d.debtType == DebtTypeText(b, line)
    && d.occurrenceDate == line.dueDate.value
    && d.originalCents == GetOr(line.originalCents, 0) && d.updatedCents == GetOr(line.updatedCents, 0)
    && d.debtOrigin == line.debtOrigin && d.debtor == line.debtor && d.birthDate == line.birthDate
  }

  /** Identity, aging, offer and key columns as a line sets them. */
  predicate FiledUnder(b: Batch, c: Contract, line: FileLine)
    requires line.dueDate.Some?
  {
    && c.wallet == b.wallet
    && c.document == Text.Keep(Text.Upper(line.debtorDocument), Text.IsUpperAlnum)
    && c.number == line.contractNumber && c.dueDate == line.dueDate
    && c.agingDays == line.agingDays
    && c.offer == Offers.CalculateOffer(GetOr(line.updatedCents, 0), b.rules)
    && c.key == Key(b.creditorOf(b.wallet), c.document, line.contractNumber, Some(Day(line.dueDate.value)))
  }

  lemma CanonShows(b: Batch, d: Details, line: FileLine)
    requires line.dueDate.Some? && Canon(d) == Canon(LineDetails(b, line))
    ensures ShowsLine(b, d, line) && SameDate(d.cancelledAt, line.cancelledAt)
  {
  }

  /** The row a line creates copies the line, and starts active, open and outside the provider. */
  lemma CreatedRow(b: Batch, t: Table, line: FileLine)
    requires ApplyLine(b, t, line).Done? && |ApplyLine(b, t, line).table| > |t|
    ensures line.dueDate.Some? && |ApplyLine(b, t, line).table| == |t| + 1
    ensures var c := ApplyLine(b, t, line).table[|t|];
            && CopiesLine(b, c.details, line) && c.details.cancelledAt == line.cancelledAt && FiledUnder(b, c, line)
            && c.account == b.account && c.pricing.None? && c.cancellationReason.None? && !c.deleted
            && c.status.Active? && c.payment.Open? && c.serasa.NotEnabled?
  {
  }

  /**
   What a line does to the one row it matches. A row of another wallet is moved and copies the line; its status stays. A
   row of the target wallet shows the line: as it was if it showed it already, and otherwise copied; a suspended one
   becomes active and loses its cancellation date and reason. No other column changes.
   */
  lemma UpdatedRow(b: Batch, t: Table, line: FileLine, i: nat)
    requires ApplyLine(b, t, line).Done? && i < |t| && HitBy(b, t[i], line) && Sole(t, b.creditorOf, i)
    requires !t[i].payment.Paid? && !t[i].status.Cancelled?
    ensures i < |ApplyLine(b, t, line).table|
    ensures var c, c' := t[i], ApplyLine(b, t, line).table[i];
            && c'.account == c.account && c'.payment == c.payment && c'.serasa == c.serasa && c'.deleted == c.deleted
            && c'.pricing == c.pricing && c'.wallet == b.wallet
            && (c.wallet != b.wallet ==>
                  && CopiesLine(b, c'.details, line) && c'.details.cancelledAt == line.cancelledAt && FiledUnder(b, c', line)
                  && c'.status == c.status && c'.cancellationReason == c.cancellationReason)
            && (c.wallet == b.wallet ==>
                  && c'.status.Active? && ShowsLine(b, c'.details, line)
                  && (c.status.Active? ==>
                        && c'.cancellationReason == c.cancellationReason && SameDate(c'.details.cancelledAt, line.cancelledAt))
                  && (c.status.Suspended? ==> c'.cancellationReason.None? && c'.details.cancelledAt.None?)
                  && if ShowsLine(b, c.details, line) && SameDate(c.details.cancelledAt, line.cancelledAt)
                     then c' == c.(status := c'.status, cancellationReason := c'.cancellationReason, details := c'.details)
                          && c'.details == c.details.(cancelledAt := c'.details.cancelledAt)
                          && (c.status.Active? ==> c'.details.cancelledAt == c.details.cancelledAt)
                     else CopiesLine(b, c'.details, line) && FiledUnder(b, c', line)
                          && (c.status.Active? ==> c'.details.cancelledAt == line.cancelledAt))
  {
    ApplyLineFrame(b, t, line);
    hide ApplyLine, Sole;
    TouchedRow(b, t[i], line);
  }

  lemma TouchedRow(b: Batch, c: Contract, line: FileLine)
    requires HitBy(b, c, line) && !c.payment.Paid? && !c.status.Cancelled?
    ensures var c' := Touch(b, c, line);
            && c'.account == c.account && c'.payment == c.payment && c'.serasa == c.serasa && c'.deleted == c.deleted
            && c'.pricing == c.pricing && c'.wallet == b.wallet
            && (c.wallet != b.wallet ==>
                  && CopiesLine(b, c'.details, line) && c'.details.cancelledAt == line.cancelledAt && FiledUnder(b, c', line)
                  && c'.status == c.status && c'.cancellationReason == c.cancellationReason)
            && (c.wallet == b.wallet ==>
                  && c'.status.Active? && ShowsLine(b, c'.details, line)
                  && (c.status.Active? ==>
                        && c'.cancellationReason == c.cancellationReason && SameDate(c'.details.cancelledAt, line.cancelledAt))
                  && (c.status.Suspended? ==> c'.cancellationReason.None? && c'.details.cancelledAt.None?)
                  && if ShowsLine(b, c.details, line) && SameDate(c.details.cancelledAt, line.cancelledAt)
                     then c' == c.(status := c'.status, cancellationReason := c'.cancellationReason, details := c'.details)
                          && c'.details == c.details.(cancelledAt := c'.details.cancelledAt)
                          && (c.status.Active? ==> c'.details.cancelledAt == c.details.cancelledAt)
                     else CopiesLine(b, c'.details, line) && FiledUnder(b, c', line)
                          && (c.status.Active? ==> c'.details.cancelledAt == line.cancelledAt))
  {
    DifferExactly(b, c, line);
    WrittenRow(b, c, line);
    hide Overwrite, ShowsLine, CopiesLine, FiledUnder, SameDate, ValuesAreDifferent, LineDetails;
  }

  lemma TextsDiffer(a: Option<string>, b: Option<string>)
    ensures OrNull(a) != OrNull(b) <==> !SameText(a, b)
  {
  }

  lemma DebtorsDifferExactly(a: Debtor, b: Debtor)
    ensures DebtorsDiffer(a, b) <==> !SameDebtor(a, b)
  {
    TextsDiffer(a.name, b.name);
    TextsDiffer(a.product, b.product);
    TextsDiffer(a.street, b.street);
    TextsDiffer(a.addressNumber, b.addressNumber);
    TextsDiffer(a.complement, b.complement);
    TextsDiffer(a.neighborhood, b.neighborhood);
    TextsDiffer(a.city, b.city);
    TextsDiffer(a.state, b.state);
    TextsDiffer(a.zipCode, b.zipCode);
    TextsDiffer(a.phone, b.phone);
    TextsDiffer(a.email, b.email);
    hide OrNull, SameText;
  }

  /** The comparison sees a difference exactly when some column does not show the line. */
  lemma DifferExactly(b: Batch, c: Contract, line: FileLine)
    requires line.dueDate.Some? && c.dueDate == line.dueDate
    ensures ValuesAreDifferent(c.details, c.dueDate, LineDetails(b, line), line.dueDate) <==>
            !(ShowsLine(b, c.details, line) && SameDate(c.details.cancelledAt, line.cancelledAt))
  {
    DebtorsDifferExactly(c.details.debtor, line.debtor);
    TextsDiffer(c.details.debtOrigin, line.debtOrigin);
    hide DebtorsDiffer, SameDebtor, OrNull, SameText, Text.Upper, Day;
  }

  lemma WrittenRow(b: Batch, c: Contract, line: FileLine)
    requires line.dueDate.Some? && !c.payment.Paid?
    ensures var c' := Overwrite(b, c, line);
            && CopiesLine(b, c'.details, line) && ShowsLine(b, c'.details, line) && FiledUnder(b, c', line)
            && c'.details.cancelledAt == line.cancelledAt && SameDate(c'.details.cancelledAt, line.cancelledAt)
            && c'.account == c.account && c'.payment == c.payment && c'.serasa == c.serasa && c'.deleted == c.deleted
            && c'.pricing == c.pricing && c'.status == c.status && c'.cancellationReason == c.cancellationReason
    ensures forall d: Details, e: Option<Instant> ::
              && (ShowsLine(b, d.(cancelledAt := e), line) <==> ShowsLine(b, d, line))
              && (CopiesLine(b, d.(cancelledAt := e), line) <==> CopiesLine(b, d, line))
    ensures forall x: Contract, y: Contract ::
              && x.wallet == y.wallet && x.document == y.document && x.number == y.number && x.dueDate == y.dueDate
              && x.agingDays == y.agingDays && x.offer == y.offer && x.key == y.key
              ==> (FiledUnder(b, x, line) <==> FiledUnder(b, y, line))
  {
  }

  /** Neither paid nor cancelled, and not already in the target wallet, active and showing the line. */
  predicate NeedsUpdate(b: Batch, c: Contract, line: FileLine)
    requires line.dueDate.Some?
  {
    && !c.payment.Paid? && !c.status.Cancelled?
    && !(c.wallet == b.wallet && c.status.Active? && ShowsLine(b, c.details, line) && SameDate(c.details.cancelledAt, line.cancelledAt))
  }

  /** A line is counted as a creation, an update or ignored by what it does to the table. */
  lemma EffectMeans(b: Batch, t: Table, line: FileLine)
    requires ApplyLine(b, t, line).Done?
    ensures var r := ApplyLine(b, t, line);
            && (r.effect.Create? <==> |r.table| == |t| + 1)
            && (r.effect.Ignore? ==> r.table == t)
            && (r.effect.Update? ==> exists i :: 0 <= i < |t| && HitBy(b, t[i], line) && NeedsUpdate(b, t[i], line))
  {
    if line.dueDate.Some? {
      var m := Matches(t, b.creditorOf, LineIdentity(b, line));
      assert |m| > 0 ==> m[0] in m;
      if |m| == 1 {
        DifferExactly(b, t[m[0]], line);
        hide ShowsLine, SameDate, ValuesAreDifferent, LineDetails, Overwrite;
        assert ApplyLine(b, t, line).effect.Update? ==> HitBy(b, t[m[0]], line) && NeedsUpdate(b, t[m[0]], line);
      }
    }
  }

  /** A run of one more line counts it once, under what it did. */
  lemma CountedOnce(b: Batch, t: Table, ms: seq<FileLine>, line: FileLine)
    requires RunLines(b, t, ms + [line]).Finished?
    ensures RunLines(b, t, ms).Finished? && ApplyLine(b, RunLines(b, t, ms).table, line).Done?
    ensures var before, after := RunLines(b, t, ms).counts, RunLines(b, t, ms + [line]).counts;
            var effect := ApplyLine(b, RunLines(b, t, ms).table, line).effect;
            && after.created == before.created + (if effect.Create? then 1 else 0)
            && after.updated == before.updated + (if effect.Update? then 1 else 0)
            && after.ignored == before.ignored + (if effect.Ignore? then 1 else 0)
  {
    assert (ms + [line])[..|ms|] == ms && (ms + [line])[|ms|] == line;
    hide ApplyLine;
  }

  /** The counters of a run: as many rows are created as the table grows by. */
  lemma {:induction false} CreatedCount(b: Batch, t: Table, lines: seq<FileLine>)
    requires RunLines(b, t, lines).Finished?
    ensures RunLines(b, t, lines).counts.created == |RunLines(b, t, lines).table| - |t|
  {
    if lines != [] {
      var n := |lines| - 1;
      CreatedCount(b, t, lines[..n]);
      var mid := RunLines(b, t, lines[..n]).table;
      EffectMeans(b, mid, lines[n]);
      ApplyLineFrame(b, mid, lines[n]);
      hide ApplyLine;
    }
  }

  /**
   After a run over a safe file the row that answers the last line for an identity shows that line in every column, the
   cancellation date included, and is active in the target wallet, unless it is ambiguous or terminal.
   */
  lemma LastLineShows(b: Batch, t: Table, lines: seq<FileLine>, p: nat) returns (i: nat)
    requires RunLines(b, t, lines).Finished? && Safe(b, t, lines) && p < |lines| && lines[p].dueDate.Some?
    requires forall q :: p < q < |lines| ==> !Addressed(b, LineIdentity(b, lines[p]), lines[q])
    ensures var t' := RunLines(b, t, lines).table;
            && i < |t'| && HitBy(b, t'[i], lines[p])
            && (Sole(t', b.creditorOf, i) && !t'[i].payment.Paid? && !t'[i].status.Cancelled? ==>
                  && t'[i].wallet == b.wallet && t'[i].status.Active?
                  && ShowsLine(b, t'[i].details, lines[p]) && SameDate(t'[i].details.cancelledAt, lines[p].cancelledAt))
  {
    i := LastLineDecides(b, t, lines, p);
    var c := RunLines(b, t, lines).table[i];
    if Canon(c.details) == Canon(LineDetails(b, lines[p])) {
      CanonShows(b, c.details, lines[p]);
    }
    hide RunLines, Sole, ShowsLine, SameDate, Canon, LineDetails;
  }

  /** The last line for an identity, whatever the file: its row shows the line, but for the cancellation date of a row it woke. */
  lemma LastLineReads(b: Batch, t: Table, ms: seq<FileLine>, line: FileLine, i: nat)
    requires RunLines(b, t, ms + [line]).Finished? && line.dueDate.Some?
    requires RunLines(b, t, ms).Finished? && i < |RunLines(b, t, ms).table|
    requires var mid := RunLines(b, t, ms).table;
             && HitBy(b, mid[i], line) && Sole(mid, b.creditorOf, i)
             && !mid[i].payment.Paid? && !mid[i].status.Cancelled?
    ensures var t' := RunLines(b, t, ms + [line]).table;
            i < |t'| && t'[i].wallet == b.wallet && ShowsLine(b, t'[i].details, line)
  {
    assert (ms + [line])[..|ms|] == ms && (ms + [line])[|ms|] == line;
    UpdatedRow(b, RunLines(b, t, ms).table, line, i);
    CopiedShows(b, ApplyLine(b, RunLines(b, t, ms).table, line).table[i].details, line);
    hide ApplyLine, ShowsLine, CopiesLine, FiledUnder;
  }

  lemma CopiedShows(b: Batch, d: Details, line: FileLine)
    requires line.dueDate.Some?
    ensures CopiesLine(b, d, line) ==> ShowsLine(b, d, line)
  {
  }
}
