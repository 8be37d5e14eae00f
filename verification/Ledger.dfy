/**
 The settlement ledger: immutable rows, unique by (source, external id), and the contract projection
 recomputed from them. `processEvent`, `processReversal` and a sequential run of the Pix webhook are the
 writers; which contract or charge a reference finds is a parameter.
 */
module Ledger {
  import opened Wrappers

  datatype Source = Pix | Serasa | Manual
  datatype RowStatus = Confirmed | Reversed

  datatype Row = Row(source: Source, externalId: string, contract: nat, status: RowStatus, amount: int, paidAt: int)

  /** The financial columns of a contract. */
  datatype Projection = Projection(totalPaid: int, lastPaymentAt: Option<int>)

  datatype Book = Book(rows: seq<Row>, contracts: map<nat, Projection>)

  predicate SameKey(a: Row, b: Row) { a.source == b.source && a.externalId == b.externalId }

  predicate Recorded(rows: seq<Row>, r: Row) {
    exists i :: 0 <= i < |rows| && SameKey(rows[i], r)
  }

  ghost predicate UniqueRows(rows: seq<Row>) {
    forall i, j :: 0 <= i < j < |rows| ==> !SameKey(rows[i], rows[j])
  }

  // ---- aggregates ----

  function SumOf(rows: seq<Row>, c: nat, status: RowStatus): int {
    if rows == [] then 0 else
      var r := rows[|rows| - 1];
      SumOf(rows[..|rows| - 1], c, status) + if r.contract == c && r.status == status then r.amount else 0
  }

  /** The latest confirmed payment date. */
  function LastOf(rows: seq<Row>, c: nat): Option<int> {
    if rows == [] then None else
      var r := rows[|rows| - 1];
      var rest := LastOf(rows[..|rows| - 1], c);
      if r.contract != c || !r.status.Confirmed? then rest
      else if rest.None? || rest.value <= r.paidAt then Some(r.paidAt) else rest
  }

  /** What `processEvent` and the webhook write: confirmed rows only. */
  function Gross(rows: seq<Row>, c: nat): Projection {
    Projection(SumOf(rows, c, Confirmed), LastOf(rows, c))
  }

  /** What `processReversal` writes: confirmed minus reversed, never negative. */
  function Net(rows: seq<Row>, c: nat): Projection {
    var net := SumOf(rows, c, Confirmed) - SumOf(rows, c, Reversed);
    Projection(if net < 0 then 0 else net, LastOf(rows, c))
  }

  // ---- posting ----

  /** The insert and the projection, in one transaction; a recorded key changes nothing. */
  function Post(b: Book, r: Row): Book {
    if Recorded(b.rows, r) then b else
      var rows := b.rows + [r];
      Book(rows, if r.contract !in b.contracts then b.contracts
                 else b.contracts[r.contract := if r.status.Confirmed? then Gross(rows, r.contract) else Net(rows, r.contract)])
  }

  function PostAll(b: Book, rs: seq<Row>): Book {
    if rs == [] then b else Post(PostAll(b, rs[..|rs| - 1]), rs[|rs| - 1])
  }

  lemma {:induction false} SumAt(rows: seq<Row>, i: nat, c: nat, status: RowStatus)
    requires i < |rows|
    ensures SumOf(rows, c, status) ==
            SumOf(rows[..i] + rows[i + 1..], c, status) + if rows[i].contract == c && rows[i].status == status then rows[i].amount else 0
  {
    var n := |rows| - 1;
    if i == n {
      assert rows[..i] + rows[i + 1..] == rows[..n];
    } else {
      SumAt(rows[..n], i, c, status);
      var without := rows[..i] + rows[i + 1..];
      assert without[..n - 1] == rows[..n][..i] + rows[..n][i + 1..];
      assert without[n - 1] == rows[n];
    }
  }

  /** The sum does not depend on the order of the rows. */
  lemma {:induction false} SumPermutation(a: seq<Row>, b: seq<Row>, c: nat, status: RowStatus)
    requires multiset(a) == multiset(b)
    ensures SumOf(a, c, status) == SumOf(b, c, status)
    decreases |a|
  {
    hide SumOf;
    assert |multiset(a)| == |a| && |multiset(b)| == |b|;
    if a != [] {
      var n := |a| - 1;
      assert a[n] in multiset(b);
      var i :| 0 <= i < |b| && b[i] == a[n];
      RemoveAt(a, n);
      RemoveAt(b, i);
      assert a[..n] + a[n + 1..] == a[..n];
      SumPermutation(a[..n], b[..i] + b[i + 1..], c, status);
      SumAt(a, n, c, status);
      SumAt(b, i, c, status);
    }
  }

  lemma RemoveAt(s: seq<Row>, i: nat)
    requires i < |s|
    ensures multiset(s[..i] + s[i + 1..]) == multiset(s) - multiset{s[i]}
  {
    assert s == s[..i] + [s[i]] + s[i + 1..];
  }

  /** The last payment date is the maximum over the contract's confirmed rows, whatever their order. */
  lemma {:induction false} LastIsMaximum(rows: seq<Row>, c: nat)
    ensures var m := LastOf(rows, c);
            && (forall r :: r in rows && r.contract == c && r.status.Confirmed? ==> m.Some? && r.paidAt <= m.value)
            && (m.Some? ==> exists r :: r in rows && r.contract == c && r.status.Confirmed? && r.paidAt == m.value)
  {
    if rows != [] {
      var n := |rows| - 1;
      LastIsMaximum(rows[..n], c);
      assert rows == rows[..n] + [rows[n]];
    }
  }

  lemma LastPermutation(a: seq<Row>, b: seq<Row>, c: nat)
    requires forall r :: r in a <==> r in b
    ensures LastOf(a, c) == LastOf(b, c)
  {
    LastIsMaximum(a, c);
    LastIsMaximum(b, c);
  }

  // ---- what a run of confirmed postings leaves ----

  /** Projections after a run: recomputed for every contract that got a row, untouched for the others. */
  ghost predicate ProjectedSince(b0: Book, b: Book) {
    && b0.rows <= b.rows && b0.contracts.Keys == b.contracts.Keys
    && forall c :: c in b0.contracts ==>
         b.contracts[c] == if Gained(b0, b, c) then Gross(b.rows, c) else b0.contracts[c]
  }

  predicate Gained(b0: Book, b: Book, c: nat) {
    exists i :: |b0.rows| <= i < |b.rows| && b.rows[i].contract == c
  }

  lemma PostProjects(b0: Book, b: Book, r: Row)
    requires ProjectedSince(b0, b) && r.status.Confirmed?
    ensures ProjectedSince(b0, Post(b, r))
  {
    var b' := Post(b, r);
    if !Recorded(b.rows, r) {
      assert b'.rows[..|b.rows|] == b.rows;
      assert b'.rows[|b.rows|] == r;
      forall c | c in b0.contracts
        ensures b'.contracts[c] == if Gained(b0, b', c) then Gross(b'.rows, c) else b0.contracts[c]
      {
        if c != r.contract {
          assert Gross(b'.rows, c) == Gross(b.rows, c);
          assert Gained(b0, b', c) <==> Gained(b0, b, c) by {
            assert forall i :: |b0.rows| <= i < |b.rows| ==> b'.rows[i] == b.rows[i];
          }
        }
      }
    }
  }

  /** Row r is in the book after the run. */
  ghost predicate FirstWithKey(rs: seq<Row>, r: Row) {
    exists i :: 0 <= i < |rs| && rs[i] == r && forall j :: 0 <= j < i ==> !SameKey(rs[j], r)
  }

  /** Every key ends with the row that was there, or else with the first one offered; the totals follow the rows. */
  lemma {:induction false} PostAllExplained(b: Book, rs: seq<Row>)
    requires UniqueRows(b.rows) && forall r :: r in rs ==> r.status.Confirmed?
    ensures var b' := PostAll(b, rs);
            && UniqueRows(b'.rows) && ProjectedSince(b, b')
            && (forall r :: r in b'.rows <==> r in b.rows || (!Recorded(b.rows, r) && FirstWithKey(rs, r)))
            && (forall r :: Recorded(b'.rows, r) <==> Recorded(b.rows, r) || Recorded(rs, r))
  {
    if rs != [] {
      var n := |rs| - 1;
      PostAllExplained(b, rs[..n]);
      var mid := PostAll(b, rs[..n]);
      PostProjects(b, mid, rs[n]);
      PostOne(b, rs[..n], rs[n]);
      assert rs == rs[..n] + [rs[n]];
    }
  }

  lemma PostOne(b: Book, ms: seq<Row>, r: Row)
    requires UniqueRows(PostAll(b, ms).rows)
    requires forall x :: x in PostAll(b, ms).rows <==> x in b.rows || (!Recorded(b.rows, x) && FirstWithKey(ms, x))
    requires forall x :: Recorded(PostAll(b, ms).rows, x) <==> Recorded(b.rows, x) || Recorded(ms, x)
    ensures var b' := Post(PostAll(b, ms), r);
            && UniqueRows(b'.rows)
            && (forall x :: x in b'.rows <==> x in b.rows || (!Recorded(b.rows, x) && FirstWithKey(ms + [r], x)))
            && (forall x :: Recorded(b'.rows, x) <==> Recorded(b.rows, x) || Recorded(ms + [r], x))
  {
    var mid := PostAll(b, ms);
    var b' := Post(mid, r);
    forall x
      ensures FirstWithKey(ms + [r], x) <==> FirstWithKey(ms, x) || (x == r && !Recorded(ms, x))
    {
      FirstSnoc(ms, r, x);
    }
    forall x
      ensures Recorded(ms + [r], x) <==> Recorded(ms, x) || SameKey(r, x)
      ensures Recorded(mid.rows + [r], x) <==> Recorded(mid.rows, x) || SameKey(r, x)
    {
      RecordedSnoc(ms, r, x);
      RecordedSnoc(mid.rows, r, x);
    }
    forall x
      ensures SameKey(r, x) ==> (Recorded(mid.rows, r) <==> Recorded(mid.rows, x))
      ensures SameKey(r, x) ==> (Recorded(b.rows, r) <==> Recorded(b.rows, x))
    {
    }
  }

  lemma FirstSnoc(ms: seq<Row>, r: Row, x: Row)
    ensures FirstWithKey(ms + [r], x) <==> FirstWithKey(ms, x) || (x == r && !Recorded(ms, x))
  {
    var all := ms + [r];
    assert forall i :: 0 <= i < |ms| ==> all[i] == ms[i];
    assert all[|ms|] == r;
    if FirstWithKey(ms, x) {
      var i :| 0 <= i < |ms| && ms[i] == x && forall j :: 0 <= j < i ==> !SameKey(ms[j], x);
      assert all[i] == x && forall j :: 0 <= j < i ==> !SameKey(all[j], x);
    }
    if x == r && !Recorded(ms, x) {
      assert all[|ms|] == x && forall j :: 0 <= j < |ms| ==> !SameKey(all[j], x);
    }
  }

  lemma RecordedSnoc(ms: seq<Row>, r: Row, x: Row)
    ensures Recorded(ms + [r], x) <==> Recorded(ms, x) || SameKey(r, x)
  {
    var all := ms + [r];
    assert forall i :: 0 <= i < |ms| ==> all[i] == ms[i];
    assert all[|ms|] == r;
  }

  // ---- order and repeats do not matter, exactly when offers agree ----

  ghost predicate SameOffers(rs: seq<Row>, rs': seq<Row>) {
    forall r :: r in rs <==> r in rs'
  }

  /** No two different rows are offered for one key that is still free. */
  ghost predicate NoConflict(b: Book, rs: seq<Row>) {
    forall r, r' :: r in rs && r' in rs && SameKey(r, r') && !Recorded(b.rows, r) ==> r == r'
  }

  /** The same rows in any order, and the same projections. */
  ghost predicate SameBook(b: Book, b': Book) {
    multiset(b.rows) == multiset(b'.rows) && b.contracts == b'.contracts
  }

  lemma {:induction false} UniqueCounts(rows: seq<Row>, r: Row)
    requires UniqueRows(rows)
    ensures multiset(rows)[r] == if r in rows then 1 else 0
  {
    if rows != [] {
      var n := |rows| - 1;
      UniqueCounts(rows[..n], r);
      assert rows == rows[..n] + [rows[n]];
      assert forall i :: 0 <= i < n ==> !SameKey(rows[i], rows[n]) && rows[i] != rows[n];
      assert rows[n] !in rows[..n];
    }
  }

  lemma SameRowsSameMultiset(a: seq<Row>, b: seq<Row>)
    requires UniqueRows(a) && UniqueRows(b) && forall r :: r in a <==> r in b
    ensures multiset(a) == multiset(b)
  {
    forall r
      ensures multiset(a)[r] == multiset(b)[r]
    {
      UniqueCounts(a, r);
      UniqueCounts(b, r);
    }
  }

  lemma FirstWhenAgreed(b: Book, rs: seq<Row>, r: Row)
    requires NoConflict(b, rs) && !Recorded(b.rows, r)
    ensures FirstWithKey(rs, r) <==> r in rs
  {
    if r in rs {
      var i := FirstIndex(rs, r);
      assert rs[i] in rs;
    }
  }

  lemma FirstIndex(rs: seq<Row>, r: Row) returns (i: nat)
    requires r in rs
    ensures i < |rs| && SameKey(rs[i], r) && forall j :: 0 <= j < i ==> !SameKey(rs[j], r)
  {
    i := 0;
    while !SameKey(rs[i], r)
      invariant i < |rs| && r in rs[i..]
      invariant forall j :: 0 <= j < i ==> !SameKey(rs[j], r)
      decreases |rs| - i
    {
      assert rs[i..] == [rs[i]] + rs[i + 1..];
      i := i + 1;
    }
  }

  lemma OrderInsensitive(b: Book, rs: seq<Row>, rs': seq<Row>)
    requires UniqueRows(b.rows) && NoConflict(b, rs) && SameOffers(rs, rs')
    requires forall r :: r in rs ==> r.status.Confirmed?
    ensures SameBook(PostAll(b, rs), PostAll(b, rs'))
  {
    hide PostAll, SumOf, LastOf;
    PostAllExplained(b, rs);
    PostAllExplained(b, rs');
    var x, y := PostAll(b, rs), PostAll(b, rs');
    forall r
      ensures r in x.rows <==> r in y.rows
    {
      if !Recorded(b.rows, r) {
        FirstWhenAgreed(b, rs, r);
        FirstWhenAgreed(b, rs', r);
      }
    }
    SameRowsSameMultiset(x.rows, y.rows);
    forall c | c in b.contracts
      ensures x.contracts[c] == y.contracts[c]
    {
      SumPermutation(x.rows, y.rows, c, Confirmed);
      LastPermutation(x.rows, y.rows, c);
      GainedSame(b, x, y, c);
      GainedSame(b, y, x, c);
    }
  }

  lemma GainedSame(b: Book, x: Book, y: Book, c: nat)
    requires b.rows <= x.rows && b.rows <= y.rows && UniqueRows(x.rows) && UniqueRows(y.rows)
    requires forall r :: r in x.rows <==> r in y.rows
    ensures Gained(b, x, c) ==> Gained(b, y, c)
  {
    if Gained(b, x, c) {
      var i :| |b.rows| <= i < |x.rows| && x.rows[i].contract == c;
      assert x.rows[i] in y.rows;
      var j :| 0 <= j < |y.rows| && y.rows[j] == x.rows[i];
      assert |b.rows| <= j;
    }
  }

  /** Order and repeats are immaterial exactly when no free key is offered two different rows. */
  lemma OrderInsensitiveExactly(b: Book, rs: seq<Row>)
    requires UniqueRows(b.rows) && forall r :: r in rs ==> r.status.Confirmed?
    ensures NoConflict(b, rs) <==>
            forall rs' :: SameOffers(rs, rs') ==> SameBook(PostAll(b, rs), PostAll(b, rs'))
  {
    hide PostAll;
    if NoConflict(b, rs) {
      forall rs' | SameOffers(rs, rs')
        ensures SameBook(PostAll(b, rs), PostAll(b, rs'))
      {
        OrderInsensitive(b, rs, rs');
      }
    } else {
      var r, r' :| r in rs && r' in rs && SameKey(r, r') && !Recorded(b.rows, r) && r != r';
      ConflictShows(b, rs, r, r');
    }
  }

  /** Offered first, each of two conflicting rows wins, so the two runs differ. */
  lemma ConflictShows(b: Book, rs: seq<Row>, r: Row, r': Row)
    requires UniqueRows(b.rows) && forall x :: x in rs ==> x.status.Confirmed?
    requires r in rs && r' in rs && SameKey(r, r') && !Recorded(b.rows, r) && r != r'
    ensures SameOffers(rs, [r] + rs) && SameOffers(rs, [r'] + rs)
    ensures !(SameBook(PostAll(b, rs), PostAll(b, [r] + rs)) && SameBook(PostAll(b, rs), PostAll(b, [r'] + rs)))
  {
    hide PostAll;
    FirstOfferWins(b, [r] + rs, r);
    FirstOfferWins(b, [r'] + rs, r');
    var x, x' := PostAll(b, [r] + rs).rows, PostAll(b, [r'] + rs).rows;
    assert r in multiset(x) && r' in multiset(x');
    OneRowPerKey(x, r, r');
  }

  lemma OneRowPerKey(rows: seq<Row>, r: Row, r': Row)
    requires UniqueRows(rows) && r in rows && SameKey(r, r') && r != r'
    ensures r' !in multiset(rows)
  {
    var i :| 0 <= i < |rows| && rows[i] == r;
    assert forall j :: 0 <= j < |rows| && j != i ==> !SameKey(rows[i], rows[j]);
  }

  lemma FirstOfferWins(b: Book, rs: seq<Row>, r: Row)
    requires UniqueRows(b.rows) && rs != [] && rs[0] == r && !Recorded(b.rows, r)
    requires forall x :: x in rs ==> x.status.Confirmed?
    ensures r in PostAll(b, rs).rows && UniqueRows(PostAll(b, rs).rows)
  {
    PostAllExplained(b, rs);
    assert FirstWithKey(rs, r);
  }

  // ---- deliveries ----

  /** The rows a list of deliveries offers; a delivery that finds no contract offers none. */
  function Offered<T>(xs: seq<T>, offer: T -> Option<Row>): (rs: seq<Row>) {
    if xs == [] then [] else
      var n := |xs| - 1;
      var rest := Offered(xs[..n], offer);
      if offer(xs[n]).None? then rest else rest + [offer(xs[n]).value]
  }

  lemma {:induction false} OfferedMember<T>(xs: seq<T>, offer: T -> Option<Row>, r: Row)
    ensures r in Offered(xs, offer) <==> exists i :: 0 <= i < |xs| && offer(xs[i]) == Some(r)
  {
    if xs != [] {
      var n := |xs| - 1;
      OfferedMember(xs[..n], offer, r);
      assert forall i :: 0 <= i < n ==> xs[..n][i] == xs[i];
    }
  }

  lemma OfferedConfirmed<T(!new)>(xs: seq<T>, offer: T -> Option<Row>)
    requires Confirms(offer)
    ensures forall r :: r in Offered(xs, offer) ==> r.status.Confirmed?
  {
    forall r | r in Offered(xs, offer)
      ensures r.status.Confirmed?
    {
      OfferedMember(xs, offer, r);
    }
  }

  ghost predicate SameDeliveries<T(!new)>(xs: seq<T>, xs': seq<T>) {
    forall x :: x in xs <==> x in xs'
  }

  ghost predicate Confirms<T(!new)>(offer: T -> Option<Row>) {
    forall x :: offer(x).Some? ==> offer(x).value.status.Confirmed?
  }

  lemma SameDeliveriesSameOffers<T(!new)>(xs: seq<T>, xs': seq<T>, offer: T -> Option<Row>)
    requires SameDeliveries(xs, xs')
    ensures SameOffers(Offered(xs, offer), Offered(xs', offer))
  {
    forall r
      ensures r in Offered(xs, offer) <==> r in Offered(xs', offer)
    {
      hide Offered;
      OfferedMember(xs, offer, r);
      OfferedMember(xs', offer, r);
      if r in Offered(xs, offer) {
        var i :| 0 <= i < |xs| && offer(xs[i]) == Some(r);
        assert xs[i] in xs';
      }
      if r in Offered(xs', offer) {
        var i :| 0 <= i < |xs'| && offer(xs'[i]) == Some(r);
        assert xs'[i] in xs;
      }
    }
  }

  lemma {:induction false} OfferedCons<T>(x: T, xs: seq<T>, offer: T -> Option<Row>)
    requires offer(x).Some?
    ensures Offered([x] + xs, offer) == [offer(x).value] + Offered(xs, offer)
  {
    if xs == [] {
      assert [x] + xs == [x];
      assert Offered([x][..0], offer) == [];
    } else {
      var n := |xs| - 1;
      OfferedCons(x, xs[..n], offer);
      assert ([x] + xs)[..n + 1] == [x] + xs[..n];
    }
  }

  /**
   Deliveries with the same distinct members, in any order and with any repeats, leave the same settlements and
   the same totals and payment dates - exactly when no free key is offered two different rows.
   */
  lemma DeliveriesExactly<T(!new)>(b: Book, xs: seq<T>, offer: T -> Option<Row>)
    requires UniqueRows(b.rows) && Confirms(offer)
    ensures NoConflict(b, Offered(xs, offer)) <==>
            forall xs' :: SameDeliveries(xs, xs') ==>
              SameBook(PostAll(b, Offered(xs, offer)), PostAll(b, Offered(xs', offer)))
  {
    hide PostAll, Offered;
    var rs := Offered(xs, offer);
    OfferedConfirmed(xs, offer);
    if NoConflict(b, rs) {
      forall xs' | SameDeliveries(xs, xs')
        ensures SameBook(PostAll(b, rs), PostAll(b, Offered(xs', offer)))
      {
        SameDeliveriesSameOffers(xs, xs', offer);
        OrderInsensitive(b, rs, Offered(xs', offer));
      }
    } else {
      var r, r' :| r in rs && r' in rs && SameKey(r, r') && !Recorded(b.rows, r) && r != r';
      var _ := DeliveriesConflict(b, xs, offer, r, r');
    }
  }

  lemma DeliveriesConflict<T(!new)>(b: Book, xs: seq<T>, offer: T -> Option<Row>, r: Row, r': Row) returns (xs': seq<T>)
    requires UniqueRows(b.rows) && Confirms(offer)
    requires r in Offered(xs, offer) && r' in Offered(xs, offer) && SameKey(r, r') && !Recorded(b.rows, r) && r != r'
    ensures SameDeliveries(xs, xs') && !SameBook(PostAll(b, Offered(xs, offer)), PostAll(b, Offered(xs', offer)))
  {
    OfferedConfirmed(xs, offer);
    var i := OfferedAt(xs, offer, r);
    var j := OfferedAt(xs, offer, r');
    hide *;
    OfferedCons(xs[i], xs, offer);
    OfferedCons(xs[j], xs, offer);
    RepeatedDelivery(xs, i);
    RepeatedDelivery(xs, j);
    ConflictShows(b, Offered(xs, offer), r, r');
    xs' := if SameBook(PostAll(b, Offered(xs, offer)), PostAll(b, [r] + Offered(xs, offer))) then [xs[j]] + xs else [xs[i]] + xs;
  }

  lemma OfferedAt<T>(xs: seq<T>, offer: T -> Option<Row>, r: Row) returns (i: nat)
    requires r in Offered(xs, offer)
    ensures i < |xs| && offer(xs[i]) == Some(r)
  {
    OfferedMember(xs, offer, r);
    i :| 0 <= i < |xs| && offer(xs[i]) == Some(r);
  }

  lemma RepeatedDelivery<T(!new)>(xs: seq<T>, i: nat)
    requires i < |xs|
    ensures SameDeliveries(xs, [xs[i]] + xs)
  {
  }

  /** And then the totals are the sum and the maximum over the contract's distinct settlements. */
  lemma TotalsExplained<T(!new)>(b: Book, xs: seq<T>, offer: T -> Option<Row>, c: nat)
    requires UniqueRows(b.rows) && Confirms(offer) && c in b.contracts
    ensures var b' := PostAll(b, Offered(xs, offer));
            && UniqueRows(b'.rows) && b.rows <= b'.rows && c in b'.contracts
            && b'.contracts[c] == if Gained(b, b', c) then Gross(b'.rows, c) else b.contracts[c]
  {
    OfferedConfirmed(xs, offer);
    PostAllExplained(b, Offered(xs, offer));
  }

  // ---- reversals ----

  ghost predicate NonNegative(rows: seq<Row>) { forall r :: r in rows ==> r.amount >= 0 }

  lemma {:induction false} SumNonNegative(rows: seq<Row>, c: nat, status: RowStatus)
    requires NonNegative(rows)
    ensures SumOf(rows, c, status) >= 0
  {
    if rows != [] {
      assert rows == rows[..|rows| - 1] + [rows[|rows| - 1]];
      SumNonNegative(rows[..|rows| - 1], c, status);
    }
  }

  /** The contract's last row posted since `from`. */
  function LastPosted(rows: seq<Row>, from: nat, c: nat): Option<Row> {
    if |rows| <= from then None
    else if rows[|rows| - 1].contract == c then Some(rows[|rows| - 1])
    else LastPosted(rows[..|rows| - 1], from, c)
  }

  /**
   Runs that mix confirmations and reversals: the last row posted for a contract decides which of the two totals it
   shows, over all rows that stand in the end; a contract that gained no row keeps what it had.
   */
  lemma {:induction false} LastPostingDecides(b: Book, rs: seq<Row>, c: nat)
    requires c in b.contracts
    ensures var b' := PostAll(b, rs);
            && b.rows <= b'.rows && c in b'.contracts
            && b'.contracts[c] == match LastPosted(b'.rows, |b.rows|, c)
                                  case None => b.contracts[c]
                                  case Some(r) => if r.status.Confirmed? then Gross(b'.rows, c) else Net(b'.rows, c)
  {
    if rs != [] {
      var n := |rs| - 1;
      LastPostingDecides(b, rs[..n], c);
      var mid := PostAll(b, rs[..n]);
      if !Recorded(mid.rows, rs[n]) {
        assert (mid.rows + [rs[n]])[..|mid.rows|] == mid.rows;
      }
    }
  }

  /**
   So after any mixed run a contract that gained a row shows its net total exactly when its last posting was a
   reversal, or nothing of it is reversed, or nothing is confirmed; otherwise it shows the gross total.
   */
  lemma NetAfterRunExactly(b: Book, rs: seq<Row>, c: nat)
    requires c in b.contracts && NonNegative(b.rows) && NonNegative(rs)
    requires LastPosted(PostAll(b, rs).rows, |b.rows|, c).Some?
    ensures var b' := PostAll(b, rs);
            && c in b'.contracts
            && (b'.contracts[c] == Net(b'.rows, c) <==>
                  || LastPosted(b'.rows, |b.rows|, c).value.status.Reversed?
                  || SumOf(b'.rows, c, Reversed) == 0
                  || SumOf(b'.rows, c, Confirmed) == 0)
  {
    LastPostingDecides(b, rs, c);
    PostAllNonNegative(b, rs);
    var b' := PostAll(b, rs);
    SumNonNegative(b'.rows, c, Reversed);
    SumNonNegative(b'.rows, c, Confirmed);
  }

  /**
   What a reversal leaves, in plain numbers: the paid total and what is reversed make up what is confirmed, or the paid
   total is zero when more is reversed than confirmed; the payment date is the latest confirmed one, if there is any. A
   contract whose last posting was a confirmation shows all that is confirmed.
   */
  lemma TotalsAfterRun(b: Book, rs: seq<Row>, c: nat)
    requires c in b.contracts && LastPosted(PostAll(b, rs).rows, |b.rows|, c).Some?
    ensures var b' := PostAll(b, rs);
            && c in b'.contracts
            && var paid, date := b'.contracts[c].totalPaid, b'.contracts[c].lastPaymentAt;
               var confirmed, reversed := SumOf(b'.rows, c, Confirmed), SumOf(b'.rows, c, Reversed);
               && (LastPosted(b'.rows, |b.rows|, c).value.status.Reversed? ==>
                     if reversed <= confirmed then paid + reversed == confirmed else paid == 0)
               && (LastPosted(b'.rows, |b.rows|, c).value.status.Confirmed? ==> paid == confirmed)
               && (forall r :: r in b'.rows && r.contract == c && r.status.Confirmed? ==> date.Some? && r.paidAt <= date.value)
               && (date.Some? ==> exists r :: r in b'.rows && r.contract == c && r.status.Confirmed? && r.paidAt == date.value)
  {
    LastPostingDecides(b, rs, c);
    LastIsMaximum(PostAll(b, rs).rows, c);
  }

  lemma {:induction false} PostAllNonNegative(b: Book, rs: seq<Row>)
    requires NonNegative(b.rows) && NonNegative(rs)
    ensures NonNegative(PostAll(b, rs).rows)
  {
    if rs != [] {
      assert rs == rs[..|rs| - 1] + [rs[|rs| - 1]];
      PostAllNonNegative(b, rs[..|rs| - 1]);
    }
  }

  /**
   A confirmed payment posted after a reversal puts the gross total back: it leaves the net total exactly when the
   contract has nothing reversed, or nothing confirmed.
   */
  lemma ConfirmationLeavesNetExactly(b: Book, r: Row)
    requires r.status.Confirmed? && !Recorded(b.rows, r) && r.contract in b.contracts
    requires NonNegative(b.rows) && r.amount >= 0
    ensures Post(b, r).contracts[r.contract] == Net(Post(b, r).rows, r.contract) <==>
            SumOf(b.rows, r.contract, Reversed) == 0 || SumOf(b.rows, r.contract, Confirmed) + r.amount == 0
  {
    var rows := b.rows + [r];
    assert rows[..|b.rows|] == b.rows;
    SumNonNegative(b.rows, r.contract, Reversed);
    SumNonNegative(b.rows, r.contract, Confirmed);
  }
}
