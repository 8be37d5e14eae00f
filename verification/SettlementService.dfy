/** The services that write the ledger, as methods over the stored rows. */
module SettlementService {
  import opened Wrappers
  import opened Ledger
  import PixCharge

  datatype Event = Event(provider: string, externalEventId: string, reference: string, amount: int, paidAt: int)

  function MapProvider(provider: string): Source {
    if provider == "BANCO_DO_BRASIL" then Pix
    else if provider == "SERASA_LNOP" then Serasa
    else Manual
  }

  lemma Providers()
    ensures MapProvider("BANCO_DO_BRASIL").Pix? && MapProvider("SERASA_LNOP").Serasa?
    ensures forall p :: p != "BANCO_DO_BRASIL" && p != "SERASA_LNOP" ==> MapProvider(p).Manual?
  {
  }

  /** The key of an event is recorded. */
  predicate Known(rows: seq<Row>, source: Source, externalId: string) {
    exists i :: 0 <= i < |rows| && rows[i].source == source && rows[i].externalId == externalId
  }

  /** The row an event offers, given which contract its reference finds. */
  function EventOffer(resolve: string -> Option<nat>, status: RowStatus): Event -> Option<Row> {
    (e: Event) =>
      var c := resolve(e.reference);
      if c.None? then None
      else Some(Row(MapProvider(e.provider), e.externalEventId, c.value, status, e.amount, e.paidAt))
  }

  type Entry = PixCharge.Entry

  /** The columns of a charge that matter when nobody else writes. */
  datatype ChargeRow = ChargeRow(contract: nat, paid: bool, version: nat, paidAt: Option<int>)

  /** The row a Pix entry offers, given the charges by txid. */
  function PixOffer(contractOf: map<string, nat>): Entry -> Option<Row> {
    (e: Entry) =>
      if !Posts(contractOf, e) then None
      else Some(Row(Pix, e.endToEndId, contractOf[e.txid], Confirmed, e.amount, e.paidAt))
  }

  /** `last ?? stored` */
  function Keep(last: Option<int>, stored: Option<int>): Option<int> { if last.None? then stored else last }

  class Store {
    var rows: seq<Row>
    var contracts: map<nat, Projection>
    var charges: map<string, ChargeRow>

    ghost function Books(): Book
      reads this
    {
      Book(rows, contracts)
    }

    ghost function ContractOf(): map<string, nat>
      reads this
    {
      map t | t in charges :: charges[t].contract
    }

    /** `findUnique` on the unique index. */
    method FindSettlement(source: Source, externalId: string) returns (found: bool)
      ensures found <==> exists i :: 0 <= i < |rows| && rows[i].source == source && rows[i].externalId == externalId
    {
      found := false;
      for i := 0 to |rows|
        invariant !found && forall j :: 0 <= j < i ==> !(rows[j].source == source && rows[j].externalId == externalId)
      {
        if rows[i].source == source && rows[i].externalId == externalId {
          return true;
        }
      }
    }

    /** The aggregate over a contract's rows of one status: sum and latest date. */
    method Aggregate(c: nat, status: RowStatus) returns (sum: int, last: Option<int>)
      ensures sum == SumOf(rows, c, status)
      ensures status.Confirmed? ==> last == LastOf(rows, c)
    {
      sum, last := 0, None;
      for i := 0 to |rows|
        invariant sum == SumOf(rows[..i], c, status)
        invariant status.Confirmed? ==> last == LastOf(rows[..i], c)
      {
        assert rows[..i + 1][..i] == rows[..i];
        if rows[i].contract == c && rows[i].status == status {
          sum := sum + rows[i].amount;
          if last.None? || last.value <= rows[i].paidAt {
            last := Some(rows[i].paidAt);
          }
        }
      }
      assert rows[..|rows|] == rows;
    }

    /**
     `processEvent`. An event whose reference finds a contract and whose key is free adds one confirmed row, and that
     contract then shows the sum and the latest date of its confirmed rows; any other event changes nothing.
     */
    method ProcessEvent(e: Event, resolve: string -> Option<nat>)
      modifies this
      ensures charges == old(charges)
      ensures resolve(e.reference).None? || Known(old(rows), MapProvider(e.provider), e.externalEventId) ==>
                rows == old(rows) && contracts == old(contracts)
      ensures resolve(e.reference).Some? && !Known(old(rows), MapProvider(e.provider), e.externalEventId) ==>
                var c := resolve(e.reference).value;
                && rows == old(rows) + [Row(MapProvider(e.provider), e.externalEventId, c, Confirmed, e.amount, e.paidAt)]
                && contracts.Keys == old(contracts).Keys
                && (forall d :: d in contracts && d != c ==> contracts[d] == old(contracts)[d])
                && (c in contracts ==> contracts[c] == Projection(SumOf(rows, c, Confirmed), LastOf(rows, c)))
      ensures var offer := EventOffer(resolve, Confirmed)(e);
              Books() == if offer.None? then old(Books()) else Post(old(Books()), offer.value)
    {
      var source := MapProvider(e.provider);
      var existing := FindSettlement(source, e.externalEventId);
      var contract := resolve(e.reference);
      if contract.None? {
        return;
      }
      var row := Row(source, e.externalEventId, contract.value, Confirmed, e.amount, e.paidAt);
      assert existing <==> Recorded(rows, row);
      if existing {
        return;
      }
      rows := rows + [row];
      assert rows[|rows| - 1] == row;
      RefreshProjection(contract.value);
    }

    /**
     `processReversal`. An event whose reference finds a contract and whose key is free adds one reversed row; what that
     contract then shows as paid and what is reversed make up what is confirmed, or nothing is paid when more is reversed;
     any other event changes nothing.
     */
    method ProcessReversal(e: Event, resolve: string -> Option<nat>)
      modifies this
      ensures charges == old(charges)
      ensures resolve(e.reference).None? || Known(old(rows), MapProvider(e.provider), e.externalEventId) ==>
                rows == old(rows) && contracts == old(contracts)
      ensures resolve(e.reference).Some? && !Known(old(rows), MapProvider(e.provider), e.externalEventId) ==>
                var c := resolve(e.reference).value;
                && rows == old(rows) + [Row(MapProvider(e.provider), e.externalEventId, c, Reversed, e.amount, e.paidAt)]
                && contracts.Keys == old(contracts).Keys
                && (forall d :: d in contracts && d != c ==> contracts[d] == old(contracts)[d])
                && (c in contracts ==>
                      && contracts[c].lastPaymentAt == LastOf(rows, c)
                      && (SumOf(rows, c, Reversed) <= SumOf(rows, c, Confirmed) ==>
                            contracts[c].totalPaid + SumOf(rows, c, Reversed) == SumOf(rows, c, Confirmed))
                      && (SumOf(rows, c, Reversed) > SumOf(rows, c, Confirmed) ==> contracts[c].totalPaid == 0))
      ensures var offer := EventOffer(resolve, Reversed)(e);
              Books() == if offer.None? then old(Books()) else Post(old(Books()), offer.value)
    {
      var source := MapProvider(e.provider);
      var existing := FindSettlement(source, e.externalEventId);
      var contract := resolve(e.reference);
      if contract.None? {
        return;
      }
      var row := Row(source, e.externalEventId, contract.value, Reversed, e.amount, e.paidAt);
      assert existing <==> Recorded(rows, row);
      if existing {
        return;
      }
      rows := rows + [row];
      var confirmed, last := Aggregate(contract.value, Confirmed);
      var reversed, _ := Aggregate(contract.value, Reversed);
      var net := confirmed - reversed;
      if contract.value in contracts {
        contracts := contracts[contract.value := Projection(if net < 0 then 0 else net, last)];
      }
    }

    /**
     The totals of `processEvent` and of `refreshContractPaymentProjection`; the stored date stays when nothing is
     confirmed, and otherwise the contract shows its gross projection.
     */
    method RefreshProjection(c: nat)
      modifies this`contracts
      ensures c !in old(contracts) ==> contracts == old(contracts)
      ensures c in old(contracts) ==>
                contracts == old(contracts)[c := Projection(SumOf(rows, c, Confirmed),
                                                            Keep(LastOf(rows, c), old(contracts)[c].lastPaymentAt))]
      ensures c in old(contracts) && (exists i :: 0 <= i < |rows| && rows[i].contract == c && rows[i].status.Confirmed?) ==>
                contracts[c] == Gross(rows, c)
    {
      var sum, last := Aggregate(c, Confirmed);
      LastIsMaximum(rows, c);
      if c in contracts {
        contracts := contracts[c := Projection(sum, Keep(last, contracts[c].lastPaymentAt))];
      }
    }

    /**
     `processPixEntry` with nobody else writing: the versioned write always lands. An entry that posts adds one confirmed
     row and pays its charge, once, with its own date; any other entry changes nothing, and nobody else's charge changes.
     */
    method ProcessPixEntry(e: Entry)
      modifies this
      ensures ContractOf() == old(ContractOf())
      ensures charges.Keys == old(charges).Keys && forall t :: t in charges && t != e.txid ==> charges[t] == old(charges)[t]
      ensures !Posts(old(ContractOf()), e) || Known(old(rows), Pix, e.endToEndId) ==>
                rows == old(rows) && contracts == old(contracts) && charges == old(charges)
      ensures Posts(old(ContractOf()), e) && !Known(old(rows), Pix, e.endToEndId) ==>
                && e.txid in old(charges)
                && var charge := old(charges)[e.txid];
                   && rows == old(rows) + [Row(Pix, e.endToEndId, charge.contract, Confirmed, e.amount, e.paidAt)]
                   && charges[e.txid] == (if charge.paid then charge
                                          else ChargeRow(charge.contract, true, charge.version + 1, Some(e.paidAt)))
      ensures var offer := PixOffer(old(ContractOf()))(e);
              && Books() == (if offer.None? then old(Books()) else Post(old(Books()), offer.value))
              && (offer.Some? ==> Recorded(rows, offer.value) && (!Recorded(old(rows), offer.value) ==> charges[e.txid].paid))
    {
      if e.txid == "" || e.endToEndId == "" {
        return;
      }
      var existing := FindSettlement(Pix, e.endToEndId);
      if existing {
        assert e.txid in charges ==> Recorded(rows, PixOffer(ContractOf())(e).value);
        return;
      }
      if e.txid !in charges {
        return;
      }
      var charge := charges[e.txid];
      if !charge.paid {
        charges := charges[e.txid := charge.(paid := true, version := charge.version + 1, paidAt := Some(e.paidAt))];
        assert ContractOf() == old(ContractOf());
      }
      var row := Row(Pix, e.endToEndId, charge.contract, Confirmed, e.amount, e.paidAt);
      assert !Recorded(rows, row);
      rows := rows + [row];
      assert rows[|rows| - 1] == row;
      RefreshProjection(charge.contract);
    }

    /** `processPixWebhook`: the entries one after another. */
    method ProcessPixWebhook(entries: seq<Entry>)
      modifies this
      ensures ContractOf() == old(ContractOf())
      ensures Books() == PostAll(old(Books()), Offered(entries, PixOffer(old(ContractOf()))))
    {
      ghost var offer := PixOffer(ContractOf());
      for i := 0 to |entries|
        invariant ContractOf() == old(ContractOf())
        invariant Books() == PostAll(old(Books()), Offered(entries[..i], offer))
      {
        assert entries[..i + 1][..i] == entries[..i];
        ghost var before := Offered(entries[..i], offer);
        ProcessPixEntry(entries[i]);
        ghost var after := Offered(entries[..i + 1], offer);
        if offer(entries[i]).Some? {
          assert after == before + [offer(entries[i]).value];
          assert after[..|before|] == before;
        }
      }
      assert entries[..|entries|] == entries;
    }
  }

  /** The entry finds its charge and carries both ids. */
  predicate Posts(contractOf: map<string, nat>, e: Entry) {
    e.txid != "" && e.endToEndId != "" && e.txid in contractOf
  }

  /** Two entries for one end-to-end id would post the same row. */
  predicate Agree(contractOf: map<string, nat>, x: Entry, y: Entry)
    requires Posts(contractOf, x) && Posts(contractOf, y)
  {
    contractOf[x.txid] == contractOf[y.txid] && x.amount == y.amount && x.paidAt == y.paidAt
  }

  /** No settlement has this end-to-end id yet. */
  predicate Unsettled(rows: seq<Row>, endToEndId: string) {
    forall i :: 0 <= i < |rows| ==> !(rows[i].source.Pix? && rows[i].externalId == endToEndId)
  }

  /** Entries that find a charge agree on every end-to-end id not yet settled. */
  ghost predicate Consistent(b: Book, contractOf: map<string, nat>, es: seq<Entry>) {
    forall x, y ::
      && x in es && y in es && Posts(contractOf, x) && Posts(contractOf, y)
      && x.endToEndId == y.endToEndId && Unsettled(b.rows, x.endToEndId)
      ==> Agree(contractOf, x, y)
  }

  lemma ConflictOfEntries(b: Book, contractOf: map<string, nat>, es: seq<Entry>, x: Entry, y: Entry)
    requires x in es && y in es && Posts(contractOf, x) && Posts(contractOf, y) && x.endToEndId == y.endToEndId
    requires NoConflict(b, Offered(es, PixOffer(contractOf))) && Unsettled(b.rows, x.endToEndId)
    ensures Agree(contractOf, x, y)
  {
    hide Offered;
    var offer := PixOffer(contractOf);
    var r, r' := offer(x).value, offer(y).value;
    OfferedMember(es, offer, r);
    OfferedMember(es, offer, r');
    assert r in Offered(es, offer) by {
      var i :| 0 <= i < |es| && es[i] == x;
    }
    assert r' in Offered(es, offer) by {
      var i :| 0 <= i < |es| && es[i] == y;
    }
    assert SameKey(r, r') && !Recorded(b.rows, r);
  }

  lemma ConsistentMeansNoConflict(b: Book, contractOf: map<string, nat>, es: seq<Entry>)
    requires Consistent(b, contractOf, es)
    ensures NoConflict(b, Offered(es, PixOffer(contractOf)))
  {
    hide Offered;
    var offer := PixOffer(contractOf);
    var rs := Offered(es, offer);
    forall r, r' | r in rs && r' in rs && SameKey(r, r') && !Recorded(b.rows, r)
      ensures r == r'
    {
      var i := OfferedAt(es, offer, r);
      var j := OfferedAt(es, offer, r');
      assert es[i] in es && es[j] in es;
      assert Unsettled(b.rows, es[i].endToEndId) by {
        assert forall k :: 0 <= k < |b.rows| ==> !SameKey(b.rows[k], r);
      }
      assert Agree(contractOf, es[i], es[j]);
    }
  }

  /**
   Webhook-only deliveries may come in any order and any number of times exactly when they are consistent. Entries
   that lack an id or find no charge do not matter.
   */
  lemma PixDeliveriesExactly(b: Book, contractOf: map<string, nat>, es: seq<Entry>)
    requires UniqueRows(b.rows)
    ensures Consistent(b, contractOf, es) <==>
            forall es' :: SameDeliveries(es, es') ==>
              SameBook(PostAll(b, Offered(es, PixOffer(contractOf))), PostAll(b, Offered(es', PixOffer(contractOf))))
  {
    var offer := PixOffer(contractOf);
    assert Confirms(offer);
    DeliveriesExactly(b, es, offer);
    hide *;
    if Consistent(b, contractOf, es) {
      ConsistentMeansNoConflict(b, contractOf, es);
    } else if NoConflict(b, Offered(es, offer)) {
      ConsistentIfNoConflict(b, contractOf, es);
    }
  }

  lemma ConsistentIfNoConflict(b: Book, contractOf: map<string, nat>, es: seq<Entry>)
    requires NoConflict(b, Offered(es, PixOffer(contractOf)))
    ensures Consistent(b, contractOf, es)
  {
    hide NoConflict, Offered, Agree;
    forall x, y | && x in es && y in es && Posts(contractOf, x) && Posts(contractOf, y)
                  && x.endToEndId == y.endToEndId && Unsettled(b.rows, x.endToEndId)
      ensures Agree(contractOf, x, y)
    {
      ConflictOfEntries(b, contractOf, es, x, y);
    }
  }
}
