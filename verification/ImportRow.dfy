/**
 One contract under a file that is run again from some prefix: when the second run leaves it as one run would. Most
 contracts always agree; a suspended one that its first line does not settle agrees exactly when its later lines make up
 for it, which is decided on the row and its lines.
 */
module ImportRow {
  import opened Wrappers
  import opened ContractTable
  import opened ImportEngine
  import opened LastRun
  import opened ImportRetry

  // ---- one row ----

  /** Line p is the file's first line for this contract. */
  ghost predicate FirstFor(b: Batch, id: Identity, lines: seq<FileLine>, p: nat) {
    p < |lines| && Addressed(b, id, lines[p]) && !AnyAddressed(b, id, lines[..p])
  }

  /** Running the file over the row as a prefix left it gives what one run gives. */
  ghost predicate RowAgrees(b: Batch, c: Contract, lines: seq<FileLine>, n: nat)
    requires n <= |lines|
  {
    FoldRow(b, FoldRow(b, c, lines[..n]), lines) == FoldRow(b, c, lines)
  }

  lemma {:induction false} FoldSplit(b: Batch, c: Contract, lines: seq<FileLine>, n: nat)
    requires n <= |lines|
    ensures FoldRow(b, c, lines) == FoldRow(b, FoldRow(b, c, lines[..n]), lines[n..])
  {
    hide Touch;
    if n == |lines| {
      assert lines[..n] == lines;
    } else {
      var m := |lines| - 1;
      FoldSplit(b, c, lines[..m], n);
      assert lines[..m][..n] == lines[..n];
      assert lines[n..][..m - n] == lines[..m][n..] && lines[n..][m - n] == lines[m];
    }
  }

  /** Lines for other contracts pass the row by. */
  lemma {:induction false} FoldOthers(b: Batch, c: Contract, lines: seq<FileLine>)
    requires !AnyAddressed(b, IdentityOf(c, b.creditorOf), lines)
    ensures FoldRow(b, c, lines) == c
  {
    FoldUntouched(b, c, lines, |lines|);
    assert lines[..|lines|] == lines;
  }

  /** The row up to and including its first line. */
  lemma FoldToFirst(b: Batch, c: Contract, lines: seq<FileLine>, p: nat)
    requires FirstFor(b, IdentityOf(c, b.creditorOf), lines, p)
    ensures FoldRow(b, c, lines[..p + 1]) == Touch(b, c, lines[p])
    ensures FoldRow(b, c, lines) == FoldRow(b, Touch(b, c, lines[p]), lines[p + 1..])
    ensures forall n :: 0 <= n <= p ==> FoldRow(b, c, lines[..n]) == c
  {
    hide Touch;
    forall n | 0 <= n <= p
      ensures FoldRow(b, c, lines[..n]) == c
    {
      assert forall q :: 0 <= q < n ==> lines[..n][q] == lines[..p][q];
      FoldOthers(b, c, lines[..n]);
    }
    assert lines[..p + 1][..p] == lines[..p] && lines[..p + 1][p] == lines[p];
    FoldSplit(b, c, lines, p + 1);
  }

  /** A row in place stays in place. */
  lemma FoldStaysInPlace(b: Batch, c: Contract, id: Identity, lines: seq<FileLine>)
    requires InPlace(b, c, id)
    ensures InPlace(b, FoldRow(b, c, lines), id)
    ensures forall l :: Overwrite(b, FoldRow(b, c, lines), l) == Overwrite(b, c, l)
  {
    FoldInPlace(b, c, id, lines);
    var shown := Shows(lines, Canon(c.details), Mine(b, id), Kind(b));
    if shown.Some? {
      OverwriteAgain(b, c, id, shown.value);
    }
  }

  /** The row carries, in full, the first line of the file's last run of equivalent lines for it. */
  ghost predicate CarriesLatest(b: Batch, c: Contract, id: Identity, lines: seq<FileLine>) {
    && InPlace(b, c, id)
    && var latest := Latest(lines, Mine(b, id), Kind(b));
       latest.Some? && c == Overwrite(b, c, latest.value)
  }

  /** Rerunning the file over a row in place either shows the last run in full, or had nothing to show. */
  lemma RerunInPlace(b: Batch, v: Contract, id: Identity, lines: seq<FileLine>)
    requires InPlace(b, v, id)
    ensures FoldRow(b, v, lines) == v || CarriesLatest(b, FoldRow(b, v, lines), id, lines)
    ensures FoldRow(b, v, lines) == if AllOfClass(lines, Canon(v.details), Mine(b, id), Kind(b)) then v
                                    else Overwrite(b, v, Latest(lines, Mine(b, id), Kind(b)).value)
    ensures !AllOfClass(lines, Canon(v.details), Mine(b, id), Kind(b)) ==> CarriesLatest(b, FoldRow(b, v, lines), id, lines)
  {
    hide FoldRow, Overwrite, InPlace;
    FoldInPlace(b, v, id, lines);
    ShowsClosedForm(lines, Canon(v.details), Mine(b, id), Kind(b));
    var shown := Shows(lines, Canon(v.details), Mine(b, id), Kind(b));
    if shown.Some? {
      OverwriteAgain(b, v, id, shown.value);
    }
  }

  /** If the whole run ends carrying the last run, rerunning from any point where the row is in place ends there too. */
  lemma InPlaceAgrees(b: Batch, c: Contract, id: Identity, lines: seq<FileLine>, n: nat)
    requires n <= |lines| && InPlace(b, FoldRow(b, c, lines[..n]), id)
    requires CarriesLatest(b, FoldRow(b, c, lines), id, lines)
    ensures RowAgrees(b, c, lines, n)
  {
    hide FoldRow, Overwrite, InPlace;
    var v, u := FoldRow(b, c, lines[..n]), FoldRow(b, c, lines);
    FoldSplit(b, c, lines, n);
    FoldStaysInPlace(b, v, id, lines[n..]);
    RerunInPlace(b, v, id, lines);
    if AllOfClass(lines, Canon(v.details), Mine(b, id), Kind(b)) {
      assert forall q :: 0 <= q < |lines[n..]| ==> lines[n..][q] == lines[n + q];
      RerunInPlace(b, v, id, lines[n..]);
    }
  }

  // ---- one suspended row that its first line does not settle ----

  /** A suspended row whose first line moves it, or reactivates it although the line carries a cancellation date. */
  ghost predicate Unsettled(b: Batch, c: Contract, lines: seq<FileLine>, p: nat) {
    && !c.deleted && !Terminal(c) && c.status.Suspended?
    && FirstFor(b, IdentityOf(c, b.creditorOf), lines, p)
    && !Restartable(b, c, lines[p])
  }

  /**
   What agreement after every prefix comes down to: one run ends with the row carrying its last run of equivalent lines in
   full, and a moved row would end the same had it been reactivated right behind the move.
   */
  ghost predicate Lands(b: Batch, c: Contract, lines: seq<FileLine>, p: nat)
    requires p < |lines|
  {
    && CarriesLatest(b, FoldRow(b, c, lines), IdentityOf(c, b.creditorOf), lines)
    && (c.wallet != b.wallet ==>
          FoldRow(b, Touch(b, Touch(b, c, lines[p]), lines[p]), lines[p + 1..]) == FoldRow(b, c, lines))
  }

  /** Waiting to be woken: suspended, live and in the target wallet. */
  predicate Asleep(b: Batch, c: Contract, id: Identity) {
    Hit(c, b.creditorOf, id) && c.wallet == b.wallet && c.status.Suspended? && !c.payment.Paid?
  }

  lemma Wakes(b: Batch, c: Contract, id: Identity, l: FileLine)
    requires Asleep(b, c, id) && Addressed(b, id, l)
    ensures InPlace(b, Touch(b, c, l), id) && Touch(b, c, l).details.cancelledAt.None?
  {
  }

  lemma Moves(b: Batch, c: Contract, id: Identity, l: FileLine)
    requires Hit(c, b.creditorOf, id) && !Terminal(c) && c.status.Suspended? && c.wallet != b.wallet && Addressed(b, id, l)
    ensures Asleep(b, Touch(b, c, l), id) && Touch(b, c, l).details == LineDetails(b, l)
    ensures forall l' :: Overwrite(b, Touch(b, c, l), l') == Overwrite(b, c, l')
  {
  }

  /** A sleeping row stays as it is until a line for it wakes it. */
  lemma {:induction false} SleepsUntilAddressed(b: Batch, c: Contract, id: Identity, ms: seq<FileLine>)
    requires Asleep(b, c, id)
    ensures if AnyAddressed(b, id, ms) then InPlace(b, FoldRow(b, c, ms), id) else FoldRow(b, c, ms) == c
  {
    if ms != [] {
      var n := |ms| - 1;
      SleepsUntilAddressed(b, c, id, ms[..n]);
      AnyAddressedSnoc(b, id, ms[..n], ms[n]);
      assert ms == ms[..n] + [ms[n]];
      var mid := FoldRow(b, c, ms[..n]);
      if AnyAddressed(b, id, ms[..n]) {
        FoldStaysInPlace(b, mid, id, [ms[n]]);
        TouchStaysInPlace(b, mid, id, ms[n]);
      } else if Addressed(b, id, ms[n]) {
        Wakes(b, mid, id, ms[n]);
      }
    }
  }

  lemma TouchStaysInPlace(b: Batch, c: Contract, id: Identity, l: FileLine)
    requires InPlace(b, c, id)
    ensures InPlace(b, Touch(b, c, l), id)
  {
    TouchInPlace(b, c, id, l);
    if Mine(b, id)(l) {
      OverwriteAgain(b, c, id, l);
    }
  }

  /** Two equivalent lines that a moved row shows without a cancellation date: it carries the first of them in full. */
  lemma WokenByItsEqual(b: Batch, c: Contract, id: Identity, l: FileLine, l2: FileLine)
    requires Hit(c, b.creditorOf, id) && !Terminal(c) && c.status.Suspended? && c.wallet != b.wallet
    requires Addressed(b, id, l) && Addressed(b, id, l2)
    ensures var c2 := Touch(b, Touch(b, c, l), l2);
            Kind(b)(l) == Canon(c2.details) == Kind(b)(l2) ==> c2 == Overwrite(b, c2, l)
  {
    Moves(b, c, id, l);
    DifferentIffCanon(LineDetails(b, l), LineDetails(b, l2), id.dueDate);
  }

  /** In the target wallet, the first line wakes the row and leaves it without the line's cancellation date. */
  lemma WokenWithoutDate(b: Batch, c: Contract, id: Identity, l: FileLine)
    requires Asleep(b, c, id) && Addressed(b, id, l) && l.cancelledAt.Some?
    ensures Canon(Touch(b, c, l).details) != Kind(b)(l)
  {
    Wakes(b, c, id, l);
  }

  lemma FirstForPrefix(b: Batch, id: Identity, lines: seq<FileLine>, p: nat, n: nat)
    requires FirstFor(b, id, lines, p) && p < n <= |lines|
    ensures FirstFor(b, id, lines[..n], p)
  {
    assert lines[..n][..p] == lines[..p];
  }

  /** Where the row stands once a prefix of the file includes its first line. */
  lemma PrefixBehindFirst(b: Batch, c: Contract, lines: seq<FileLine>, p: nat, n: nat)
    requires Unsettled(b, c, lines, p) && p < n <= |lines|
    ensures var id := IdentityOf(c, b.creditorOf);
            var c1, v := Touch(b, c, lines[p]), FoldRow(b, c, lines[..n]);
            && v == FoldRow(b, c1, lines[p + 1..n])
            && (c.wallet == b.wallet ==> InPlace(b, v, id) && InPlace(b, c1, id))
            && (c.wallet != b.wallet ==>
                  Asleep(b, c1, id) && if AnyAddressed(b, id, lines[p + 1..n]) then InPlace(b, v, id) else v == c1)
  {
    var id := IdentityOf(c, b.creditorOf);
    FirstForPrefix(b, id, lines, p, n);
    FoldToFirst(b, c, lines[..n], p);
    assert lines[..n][p + 1..] == lines[p + 1..n];
    hide FoldRow;
    if c.wallet == b.wallet {
      Wakes(b, c, id, lines[p]);
      FoldStaysInPlace(b, Touch(b, c, lines[p]), id, lines[p + 1..n]);
    } else {
      Moves(b, c, id, lines[p]);
      SleepsUntilAddressed(b, Touch(b, c, lines[p]), id, lines[p + 1..n]);
    }
  }

  lemma LandsAgrees(b: Batch, c: Contract, lines: seq<FileLine>, p: nat, n: nat)
    requires Unsettled(b, c, lines, p) && Lands(b, c, lines, p) && n <= |lines|
    ensures RowAgrees(b, c, lines, n)
  {
    var id := IdentityOf(c, b.creditorOf);
    FoldToFirst(b, c, lines, p);
    if n > p {
      PrefixBehindFirst(b, c, lines, p, n);
      hide FoldRow, Touch;
      var c1, v := Touch(b, c, lines[p]), FoldRow(b, c, lines[..n]);
      if c.wallet != b.wallet && !AnyAddressed(b, id, lines[p + 1..n]) {
        FoldToFirst(b, c1, lines, p);
      } else {
        InPlaceAgrees(b, c, id, lines, n);
      }
    }
  }

  /** If every restart agrees, the run ends carrying the last run: the row's own second line for it is the test. */
  lemma AgreesLands(b: Batch, c: Contract, lines: seq<FileLine>, p: nat)
    requires Unsettled(b, c, lines, p) && forall n :: 0 <= n <= |lines| ==> RowAgrees(b, c, lines, n)
    ensures Lands(b, c, lines, p)
  {
    var id := IdentityOf(c, b.creditorOf);
    var c1, u := Touch(b, c, lines[p]), FoldRow(b, c, lines);
    PrefixBehindFirst(b, c, lines, p, p + 1);
    FoldToFirst(b, c, lines, p);
    assert RowAgrees(b, c, lines, p + 1) && c1 == FoldRow(b, c, lines[..p + 1]);
    if c.wallet == b.wallet {
      WokenWithoutDate(b, c, id, lines[p]);
      RerunInPlace(b, c1, id, lines);
      assert Mine(b, id)(lines[p]);
    } else {
      FoldToFirst(b, c1, lines, p);
      MovedAgreesCarries(b, c, lines, p);
    }
  }

  lemma MovedAgreesCarries(b: Batch, c: Contract, lines: seq<FileLine>, p: nat)
    requires Unsettled(b, c, lines, p) && c.wallet != b.wallet
    requires forall n :: 0 <= n <= |lines| ==> RowAgrees(b, c, lines, n)
    ensures CarriesLatest(b, FoldRow(b, c, lines), IdentityOf(c, b.creditorOf), lines)
  {
    var id := IdentityOf(c, b.creditorOf);
    assert RowAgrees(b, c, lines, p + 1);
    MovedNeedsSecond(b, c, lines, p);
    var q := FirstAddressed(b, id, lines[p + 1..]);
    assert RowAgrees(b, c, lines, p + q + 2);
    hide *;
    MovedCarries(b, c, lines, p, q);
  }

  lemma MovedNeedsSecond(b: Batch, c: Contract, lines: seq<FileLine>, p: nat)
    requires Unsettled(b, c, lines, p) && c.wallet != b.wallet && RowAgrees(b, c, lines, p + 1)
    ensures AnyAddressed(b, IdentityOf(c, b.creditorOf), lines[p + 1..])
  {
    var id := IdentityOf(c, b.creditorOf);
    var c1, rest := Touch(b, c, lines[p]), lines[p + 1..];
    FoldToFirst(b, c, lines, p);
    Moves(b, c, id, lines[p]);
    Wakes(b, c1, id, lines[p]);
    hide FoldRow, Touch;
    FoldToFirst(b, c1, lines, p);
    SleepsUntilAddressed(b, c1, id, rest);
    FoldStaysInPlace(b, Touch(b, c1, lines[p]), id, rest);
  }

  /** The second line for a moved row wakes it; restarting behind it agrees only if the last run is carried. */
  lemma MovedCarries(b: Batch, c: Contract, lines: seq<FileLine>, p: nat, q: nat)
    requires Unsettled(b, c, lines, p) && c.wallet != b.wallet
    requires FirstFor(b, IdentityOf(c, b.creditorOf), lines[p + 1..], q) && RowAgrees(b, c, lines, p + q + 2)
    ensures CarriesLatest(b, FoldRow(b, c, lines), IdentityOf(c, b.creditorOf), lines)
  {
    var id := IdentityOf(c, b.creditorOf);
    var c1, second := Touch(b, c, lines[p]), lines[p + 1..][q];
    SecondLine(b, c, lines, p, q);
    var c2 := Touch(b, c1, second);
    RerunInPlace(b, c2, id, lines);
    WokenByItsEqual(b, c, id, lines[p], second);
    hide FoldRow, Touch, Overwrite;
    if AllOfClass(lines, Canon(c2.details), Mine(b, id), Kind(b)) {
      assert second == lines[p + 1 + q];
      assert Mine(b, id)(lines[p]) && Mine(b, id)(lines[p + 1 + q]);
      assert forall k :: 0 <= k < p ==> !Mine(b, id)(lines[k]) by {
        assert forall k :: 0 <= k < p ==> lines[..p][k] == lines[k];
      }
      LatestUniform(lines, Canon(c2.details), Mine(b, id), Kind(b), p);
    }
  }

  lemma SecondLine(b: Batch, c: Contract, lines: seq<FileLine>, p: nat, q: nat)
    requires Unsettled(b, c, lines, p) && c.wallet != b.wallet
    requires FirstFor(b, IdentityOf(c, b.creditorOf), lines[p + 1..], q)
    ensures var c2 := Touch(b, Touch(b, c, lines[p]), lines[p + 1..][q]);
            FoldRow(b, c, lines[..p + q + 2]) == c2 && InPlace(b, c2, IdentityOf(c, b.creditorOf))
  {
    var id := IdentityOf(c, b.creditorOf);
    hide FoldRow, Touch, Restartable;
    var c1, rest, n := Touch(b, c, lines[p]), lines[p + 1..], p + q + 2;
    Moves(b, c, id, lines[p]);
    Wakes(b, c1, id, rest[q]);
    PrefixBehindFirst(b, c, lines, p, n);
    assert lines[p + 1..n] == rest[..q + 1];
    FoldToFirst(b, c1, rest, q);
  }

  lemma FirstAddressed(b: Batch, id: Identity, lines: seq<FileLine>) returns (q: nat)
    requires AnyAddressed(b, id, lines)
    ensures FirstFor(b, id, lines, q)
  {
    q := 0;
    while !Addressed(b, id, lines[q])
      invariant q < |lines| && !AnyAddressed(b, id, lines[..q])
      invariant exists p :: q <= p < |lines| && Addressed(b, id, lines[p])
      decreases |lines| - q
    {
      assert lines[..q + 1] == lines[..q] + [lines[q]];
      AnyAddressedSnoc(b, id, lines[..q], lines[q]);
      q := q + 1;
    }
  }

  /** For an unsettled row, agreement after every prefix comes down to what one run and one early wake-up leave. */
  lemma AgreesIfLands(b: Batch, c: Contract, lines: seq<FileLine>, p: nat)
    requires Unsettled(b, c, lines, p)
    ensures (forall n :: 0 <= n <= |lines| ==> RowAgrees(b, c, lines, n)) <==> Lands(b, c, lines, p)
  {
    assert p < |lines|;
    hide RowAgrees, Lands, Unsettled;
    if Lands(b, c, lines, p) {
      forall n | 0 <= n <= |lines|
        ensures RowAgrees(b, c, lines, n)
      {
        LandsAgrees(b, c, lines, p, n);
      }
    }
    if forall n :: 0 <= n <= |lines| ==> RowAgrees(b, c, lines, n) {
      AgreesLands(b, c, lines, p);
    }
  }

  // ---- which rows their later lines make up for ----

  /**
   The lines behind the dated line w that woke row r overtake it. There is one. If all of them are equivalent to r, which
   lost w's cancellation date, r carries the first of them in full; if all of them are equivalent to w, the first of them
   writes what w writes.
   */
  ghost predicate Overtaken(b: Batch, r: Contract, w: FileLine, id: Identity, later: seq<FileLine>) {
    exists q: nat :: FirstFor(b, id, later, q) && OvertakenBy(b, r, w, id, later, later[q])
  }

  ghost predicate OvertakenBy(b: Batch, r: Contract, w: FileLine, id: Identity, later: seq<FileLine>, next: FileLine) {
    && (AllOfClass(later, Canon(r.details), Mine(b, id), Kind(b)) ==> Overwrite(b, r, next) == r)
    && (AllOfClass(later, Kind(b)(w), Mine(b, id), Kind(b)) ==> Overwrite(b, r, next) == Overwrite(b, r, w))
  }

  /**
   A moved row, asleep as its first line left it, with its second line and those behind. If the second line carries a
   cancellation date, it has to be overtaken, and where all lines are equivalent the first two write the same. If it
   carries none, it only matters when no other class follows and the first line shows the same once its own date is lost:
   then waking the row by either line has to give the same.
   */
  ghost predicate MovedRecovers(b: Batch, asleep: Contract, first: FileLine, second: FileLine, id: Identity, rest: seq<FileLine>) {
    var early, woken := Touch(b, asleep, first), Touch(b, asleep, second);
    if second.cancelledAt.Some? then
      && Overtaken(b, woken, second, id, rest)
      && (Kind(b)(first) == Kind(b)(second) && AllOfClass(rest, Kind(b)(second), Mine(b, id), Kind(b)) ==>
            Overwrite(b, woken, first) == Overwrite(b, woken, second))
    else
      AllOfClass(rest, Kind(b)(second), Mine(b, id), Kind(b)) && Canon(early.details) == Kind(b)(second) ==> early == woken
  }

  /** The contract's later lines make up for its first one: a condition on the row and its lines. */
  ghost predicate Recovers(b: Batch, c: Contract, lines: seq<FileLine>, p: nat)
    requires p < |lines|
  {
    var id, c1, later := IdentityOf(c, b.creditorOf), Touch(b, c, lines[p]), lines[p + 1..];
    if c.wallet == b.wallet then Overtaken(b, c1, lines[p], id, later)
    else exists q: nat :: FirstFor(b, id, later, q) && MovedRecovers(b, c1, lines[p], later[q], id, later[q + 1..])
  }

  lemma OneFirst(b: Batch, id: Identity, lines: seq<FileLine>, p: nat, q: nat)
    requires FirstFor(b, id, lines, p) && FirstFor(b, id, lines, q)
    ensures p == q
  {
    NoneBefore(b, id, lines, p);
    NoneBefore(b, id, lines, q);
  }

  lemma NoneBefore(b: Batch, id: Identity, lines: seq<FileLine>, p: nat)
    requires FirstFor(b, id, lines, p)
    ensures Mine(b, id)(lines[p]) && forall q :: 0 <= q < p ==> !Mine(b, id)(lines[q])
  {
    assert forall q :: 0 <= q < p ==> lines[..p][q] == lines[q];
  }

  /** The line whose values a run over w and what follows it ends with, if it ends with a line in full. */
  ghost function Final(b: Batch, w: FileLine, id: Identity, later: seq<FileLine>): FileLine {
    if AllOfClass(later, Kind(b)(w), Mine(b, id), Kind(b)) then w else GetOr(Latest(later, Mine(b, id), Kind(b)), w)
  }

  lemma FinalIsLatest(b: Batch, id: Identity, lines: seq<FileLine>, p: nat)
    requires FirstFor(b, id, lines, p)
    ensures Latest(lines, Mine(b, id), Kind(b)) == Some(Final(b, lines[p], id, lines[p + 1..]))
  {
    NoneBefore(b, id, lines, p);
    LatestSplit(lines, Mine(b, id), Kind(b), p);
  }

  lemma NoFirst(b: Batch, id: Identity, lines: seq<FileLine>)
    requires !AnyAddressed(b, id, lines)
    ensures forall q: nat :: !FirstFor(b, id, lines, q)
  {
  }

  lemma OnlyFirst(b: Batch, id: Identity, lines: seq<FileLine>, p: nat)
    requires FirstFor(b, id, lines, p)
    ensures forall q: nat :: FirstFor(b, id, lines, q) ==> q == p
  {
    forall q: nat | FirstFor(b, id, lines, q)
      ensures q == p
    {
      OneFirst(b, id, lines, p, q);
    }
  }

  /** Overtaken means that the run over the later lines ends with the row carrying the final line in full. */
  lemma OvertakenMeans(b: Batch, r: Contract, w: FileLine, id: Identity, later: seq<FileLine>)
    requires InPlace(b, r, id) && Addressed(b, id, w) && Canon(r.details) != Kind(b)(w)
    ensures Overtaken(b, r, w, id, later) <==> FoldRow(b, r, later) == Overwrite(b, r, Final(b, w, id, later))
  {
    OverwriteAgain(b, r, id, w);
    if AnyAddressed(b, id, later) {
      var q := FirstAddressed(b, id, later);
      OnlyFirst(b, id, later, q);
      hide FoldRow, Overwrite, InPlace, Addressed, FirstFor, Final, AnyAddressed, OvertakenBy;
      OvertakenAtFirst(b, r, w, id, later, q);
    } else {
      NoFirst(b, id, later);
      hide Overwrite, InPlace, Addressed, FirstFor;
      FoldOthers(b, r, later);
    }
  }

  lemma OvertakenAtFirst(b: Batch, r: Contract, w: FileLine, id: Identity, later: seq<FileLine>, q: nat)
    requires InPlace(b, r, id) && Canon(r.details) != Kind(b)(w) && FirstFor(b, id, later, q)
    ensures OvertakenBy(b, r, w, id, later, later[q]) <==> FoldRow(b, r, later) == Overwrite(b, r, Final(b, w, id, later))
  {
    hide FoldRow, Overwrite, InPlace, OvertakenBy, Final;
    RerunInPlace(b, r, id, later);
    NoneBefore(b, id, later, q);
    OvertakenByFirst(b, r, w, id, later, q);
  }

  lemma OvertakenByFirst(b: Batch, r: Contract, w: FileLine, id: Identity, later: seq<FileLine>, q: nat)
    requires q < |later| && Mine(b, id)(later[q]) && forall k :: 0 <= k < q ==> !Mine(b, id)(later[k])
    requires Canon(r.details) != Kind(b)(w)
    requires FoldRow(b, r, later) == if AllOfClass(later, Canon(r.details), Mine(b, id), Kind(b)) then r
                                     else Overwrite(b, r, GetOr(Latest(later, Mine(b, id), Kind(b)), w))
    ensures FoldRow(b, r, later) == Overwrite(b, r, Final(b, w, id, later)) <==> OvertakenBy(b, r, w, id, later, later[q])
  {
    hide FoldRow, Overwrite, Canon, Kind, Mine;
    var mine, kind := Mine(b, id), Kind(b);
    if AllOfClass(later, Canon(r.details), mine, kind) {
      LatestUniform(later, Canon(r.details), mine, kind, q);
    } else if AllOfClass(later, kind(w), mine, kind) {
      LatestUniform(later, kind(w), mine, kind, q);
    }
  }

  lemma LandsHereExactly(b: Batch, c: Contract, lines: seq<FileLine>, p: nat)
    requires Unsettled(b, c, lines, p) && c.wallet == b.wallet
    ensures Lands(b, c, lines, p) <==> Recovers(b, c, lines, p)
  {
    var id, c1, later := IdentityOf(c, b.creditorOf), Touch(b, c, lines[p]), lines[p + 1..];
    Wakes(b, c, id, lines[p]);
    WokenWithoutDate(b, c, id, lines[p]);
    hide FoldRow, Touch, Overwrite;
    FoldToFirst(b, c, lines, p);
    FoldStaysInPlace(b, c1, id, later);
    FinalIsLatest(b, id, lines, p);
    OvertakenMeans(b, c1, lines[p], id, later);
  }

  /** How a moved row wakes by its first line read again, and by its second. */
  lemma MovedWakes(b: Batch, c: Contract, id: Identity, first: FileLine, second: FileLine)
    requires Hit(c, b.creditorOf, id) && !Terminal(c) && c.status.Suspended? && c.wallet != b.wallet
    requires Addressed(b, id, first) && Addressed(b, id, second)
    ensures var early, woken := Touch(b, Touch(b, c, first), first), Touch(b, Touch(b, c, first), second);
            && InPlace(b, early, id) && InPlace(b, woken, id)
            && (forall l :: Overwrite(b, early, l) == Overwrite(b, woken, l))
            && Canon(early.details).cancelledAt.None?
            && (second.cancelledAt.Some? ==> Canon(woken.details) != Kind(b)(second) && Canon(early.details) != Kind(b)(second))
            && (second.cancelledAt.None? ==> Canon(woken.details) == Kind(b)(second))
            && (second.cancelledAt.None? && Kind(b)(first) != Kind(b)(second) ==> woken == Overwrite(b, woken, second))
            && (second.cancelledAt.None? && Kind(b)(first) == Kind(b)(second) ==>
                  woken == Overwrite(b, woken, first) && early == woken)
  {
    var c1 := Touch(b, c, first);
    Moves(b, c, id, first);
    Wakes(b, c1, id, first);
    Wakes(b, c1, id, second);
    DifferentIffCanon(LineDetails(b, first), LineDetails(b, second), id.dueDate);
    DifferentIffCanon(LineDetails(b, first), LineDetails(b, first), id.dueDate);
  }

  lemma LandsMovedExactly(b: Batch, c: Contract, lines: seq<FileLine>, p: nat, q: nat)
    requires Unsettled(b, c, lines, p) && c.wallet != b.wallet
    requires FirstFor(b, IdentityOf(c, b.creditorOf), lines[p + 1..], q)
    ensures var c1, later := Touch(b, c, lines[p]), lines[p + 1..];
            Lands(b, c, lines, p) <==> MovedRecovers(b, c1, lines[p], later[q], IdentityOf(c, b.creditorOf), later[q + 1..])
  {
    var id, c1, later := IdentityOf(c, b.creditorOf), Touch(b, c, lines[p]), lines[p + 1..];
    var first, second, rest := lines[p], later[q], later[q + 1..];
    var early, woken := Touch(b, c1, first), Touch(b, c1, second);
    MovedWakes(b, c, id, first, second);
    Moves(b, c, id, first);
    hide FoldRow, Touch, Overwrite, Canon;
    FoldToFirst(b, c, lines, p);
    FoldToFirst(b, c1, later, q);
    var u := FoldRow(b, c, lines);
    assert u == FoldRow(b, woken, rest);
    FoldStaysInPlace(b, woken, id, rest);
    FinalIsLatest(b, id, lines, p);
    FinalIsLatest(b, id, later, q);
    NoneBefore(b, id, later, q);
    AllOfClassSplit(later, Kind(b)(first), Mine(b, id), Kind(b), q);
    AllOfClassSplit(later, Canon(early.details), Mine(b, id), Kind(b), q);
    RerunInPlace(b, early, id, later);
    RerunInPlace(b, woken, id, rest);
    if second.cancelledAt.Some? {
      OvertakenMeans(b, woken, second, id, rest);
    }
  }

  lemma LandsExactly(b: Batch, c: Contract, lines: seq<FileLine>, p: nat)
    requires Unsettled(b, c, lines, p)
    ensures Lands(b, c, lines, p) <==> Recovers(b, c, lines, p)
  {
    hide FoldRow, Touch, Overwrite, Terminal, Restartable, Lands, MovedRecovers, Overtaken, IdentityOf;
    var id, later := IdentityOf(c, b.creditorOf), lines[p + 1..];
    if c.wallet == b.wallet {
      LandsHereExactly(b, c, lines, p);
    } else if AnyAddressed(b, id, later) {
      var q := FirstAddressed(b, id, later);
      LandsMovedExactly(b, c, lines, p, q);
      OnlyFirst(b, id, later, q);
    } else {
      NoFirst(b, id, later);
      MovedAloneNeverLands(b, c, lines, p);
    }
  }

  lemma MovedAloneNeverLands(b: Batch, c: Contract, lines: seq<FileLine>, p: nat)
    requires Unsettled(b, c, lines, p) && c.wallet != b.wallet && !AnyAddressed(b, IdentityOf(c, b.creditorOf), lines[p + 1..])
    ensures !Lands(b, c, lines, p)
  {
    var c1 := Touch(b, c, lines[p]);
    FoldToFirst(b, c, lines, p);
    Moves(b, c, IdentityOf(c, b.creditorOf), lines[p]);
    FoldOthers(b, c1, lines[p + 1..]);
    hide FoldRow, Touch, Overwrite;
  }

  /** For an unsettled row, restarting after any prefix agrees exactly when its later lines make up for its first one. */
  lemma RowAgreesExactly(b: Batch, c: Contract, lines: seq<FileLine>, p: nat)
    requires Unsettled(b, c, lines, p)
    ensures (forall n :: 0 <= n <= |lines| ==> RowAgrees(b, c, lines, n)) <==> Recovers(b, c, lines, p)
  {
    AgreesIfLands(b, c, lines, p);
    LandsExactly(b, c, lines, p);
  }

  /** They cannot when there are none. */
  lemma OnlyLineNeverRecovers(b: Batch, c: Contract, lines: seq<FileLine>, p: nat)
    requires Unsettled(b, c, lines, p) && !AnyAddressed(b, IdentityOf(c, b.creditorOf), lines[p + 1..])
    ensures !Recovers(b, c, lines, p)
  {
    NoFirst(b, IdentityOf(c, b.creditorOf), lines[p + 1..]);
    hide Touch, FirstFor;
  }

  // ---- every other row ----

  lemma {:induction false} SettledFold(b: Batch, c: Contract, lines: seq<FileLine>, p: nat, n: nat)
    requires !c.deleted && !Terminal(c) && FirstFor(b, IdentityOf(c, b.creditorOf), lines, p) && p < n <= |lines|
    requires c.status.Suspended? ==> Restartable(b, c, lines[p])
    ensures Settled(b, FoldRow(b, c, lines[..n]), IdentityOf(c, b.creditorOf), lines[..n])
  {
    var id := IdentityOf(c, b.creditorOf);
    assert lines[..n] == lines[..n - 1] + [lines[n - 1]];
    if n == p + 1 {
      FoldToFirst(b, c, lines, p);
      SettledFirst(b, c, id, lines[..p], lines[p]);
    } else {
      SettledFold(b, c, lines, p, n - 1);
      SettledSnoc(b, FoldRow(b, c, lines[..n - 1]), id, lines[..n - 1], lines[n - 1]);
    }
  }

  lemma OtherRowsAgree(b: Batch, c: Contract, lines: seq<FileLine>, n: nat)
    requires !c.deleted && n <= |lines| && forall p :: 0 <= p < |lines| ==> !Unsettled(b, c, lines, p)
    ensures RowAgrees(b, c, lines, n)
  {
    var id := IdentityOf(c, b.creditorOf);
    if Terminal(c) || !AnyAddressed(b, id, lines) {
      FoldUntouched(b, c, lines, n);
    } else {
      var p := FirstAddressed(b, id, lines);
      assert !Unsettled(b, c, lines, p);
      hide FoldRow, Touch;
      FoldToFirst(b, c, lines, p);
      if n > p {
        SettledFold(b, c, lines, p, n);
        var v := FoldRow(b, c, lines[..n]);
        SettledReplay(b, v, id, lines[..n], n);
        FoldSplit(b, v, lines, n);
        FoldSplit(b, c, lines, n);
      }
    }
  }
}
