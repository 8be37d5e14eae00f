/**
 Why the import may be restarted: running any committed prefix of the file again changes nothing,
 so a rerun of the whole file ends in the table of one uninterrupted run.
 */
module ImportRetry {
  import opened Wrappers
  import opened ContractTable
  import opened ImportEngine
  import opened LastRun
  import Offers

  // ---- frame of one line ----

  ghost predicate HitBy(b: Batch, c: Contract, line: FileLine) {
    line.dueDate.Some? && Hit(c, b.creditorOf, LineIdentity(b, line))
  }

  /** Rows keep their identity and their liveness. */
  ghost predicate SameIdentities(b: Batch, t: Table, t': Table) {
    && |t| <= |t'|
    && forall i :: 0 <= i < |t| ==>
         t[i].deleted == t'[i].deleted && IdentityOf(t[i], b.creditorOf) == IdentityOf(t'[i], b.creditorOf)
  }

  /** The row after one line: only a sole, live, non-terminal row with the line's identity changes. */
  function Touch(b: Batch, c: Contract, line: FileLine): Contract {
    if line.dueDate.Some? && Hit(c, b.creditorOf, LineIdentity(b, line)) && !Terminal(c)
    then ApplyToRow(b, c, line).0 else c
  }

  lemma TouchKeepsIdentity(b: Batch, c: Contract, line: FileLine)
    ensures var c' := Touch(b, c, line);
            c'.deleted == c.deleted && IdentityOf(c', b.creditorOf) == IdentityOf(c, b.creditorOf)
  {
  }

  /** Everything one applied line does to the table. */
  lemma ApplyLineFrame(b: Batch, t: Table, line: FileLine)
    requires ApplyLine(b, t, line).Done?
    ensures var t' := ApplyLine(b, t, line).table;
            && SameIdentities(b, t, t')
            && (forall i :: 0 <= i < |t| ==>
                  t'[i] == if Sole(t, b.creditorOf, i) then Touch(b, t[i], line) else t[i])
            && (|t'| == |t| || (&& t' == t + [NewContract(b, line)]
                                && line.dueDate.Some?
                                && forall i :: 0 <= i < |t| ==> !HitBy(b, t[i], line)))
            && (line.dueDate.Some? ==> exists i :: 0 <= i < |t'| && HitBy(b, t'[i], line))
  {
    var t' := ApplyLine(b, t, line).table;
    if line.dueDate.Some? {
      var id := LineIdentity(b, line);
      var m := Matches(t, b.creditorOf, id);
      MatchesOne(t, b.creditorOf, id);
      if |m| == 0 {
        assert HitBy(b, t'[|t|], line);
        assert forall i :: 0 <= i < |t| ==> t'[i] == t[i];
        assert forall i :: 0 <= i < |t| && Hit(t[i], b.creditorOf, id) ==> i in m;
      } else {
        assert m[0] in m;
        TouchKeepsIdentity(b, t[m[0]], line);
        assert HitBy(b, t'[m[0]], line);
      }
    }
  }

  /** The unique index is never broken. */
  lemma ApplyLineKeys(b: Batch, t: Table, line: FileLine)
    requires ApplyLine(b, t, line).Done? && UniqueKeys(t)
    ensures UniqueKeys(ApplyLine(b, t, line).table)
  {
    if line.dueDate.Some? {
      var m := Matches(t, b.creditorOf, LineIdentity(b, line));
      assert |m| > 0 ==> m[0] in m;
    }
  }

  lemma SoleStable(b: Batch, t: Table, line: FileLine)
    requires ApplyLine(b, t, line).Done?
    ensures var t' := ApplyLine(b, t, line).table;
            && (forall i :: 0 <= i < |t| ==> |t| <= |t'| && (Sole(t', b.creditorOf, i) <==> Sole(t, b.creditorOf, i)))
            && (|t'| > |t| ==> Sole(t', b.creditorOf, |t|))
  {
    ApplyLineFrame(b, t, line);
    var t' := ApplyLine(b, t, line).table;
    forall i | 0 <= i < |t|
      ensures Sole(t', b.creditorOf, i) <==> Sole(t, b.creditorOf, i)
    {
      var id := IdentityOf(t[i], b.creditorOf);
      assert forall j :: 0 <= j < |t| ==> (Hit(t[j], b.creditorOf, id) <==> Hit(t'[j], b.creditorOf, id));
      if |t'| > |t| {
        assert !HitBy(b, t[i], line);
        assert !t[i].deleted ==> !Hit(t'[|t|], b.creditorOf, id);
      }
    }
    if |t'| > |t| {
      assert forall i :: 0 <= i < |t| ==> !Hit(t'[i], b.creditorOf, LineIdentity(b, line));
    }
  }

  // ---- one row under many lines ----

  predicate Addressed(b: Batch, id: Identity, line: FileLine) {
    line.dueDate.Some? && LineIdentity(b, line) == id
  }

  ghost predicate AnyAddressed(b: Batch, id: Identity, lines: seq<FileLine>) {
    exists p :: 0 <= p < |lines| && Addressed(b, id, lines[p])
  }

  function Mine(b: Batch, id: Identity): FileLine -> bool { line => Addressed(b, id, line) }

  function Kind(b: Batch): FileLine -> Details { line => Canon(LineDetails(b, line)) }

  function FoldRow(b: Batch, c: Contract, lines: seq<FileLine>): Contract {
    if lines == [] then c else Touch(b, FoldRow(b, c, lines[..|lines| - 1]), lines[|lines| - 1])
  }

  /** A live row of the target wallet on which lines act as "update unless equivalent". */
  predicate InPlace(b: Batch, c: Contract, id: Identity) {
    Hit(c, b.creditorOf, id) && c.wallet == b.wallet && c.status.Active? && !c.payment.Paid?
  }

  lemma TouchInPlace(b: Batch, c: Contract, id: Identity, line: FileLine)
    requires InPlace(b, c, id)
    ensures Touch(b, c, line) ==
            if Mine(b, id)(line) && Kind(b)(line) != Canon(c.details) then Overwrite(b, c, line) else c
  {
    if Addressed(b, id, line) {
      DifferentIffCanon(c.details, LineDetails(b, line), id.dueDate);
    }
  }

  lemma OverwriteAgain(b: Batch, c: Contract, id: Identity, first: FileLine)
    requires InPlace(b, c, id) && Mine(b, id)(first)
    ensures var c' := Overwrite(b, c, first);
            && InPlace(b, c', id) && Canon(c'.details) == Kind(b)(first) && c'.key == KeyOf(id)
            && forall second :: Overwrite(b, c', second) == Overwrite(b, c, second)
  {
  }

  function Render(b: Batch, c: Contract, shown: Option<FileLine>): Contract {
    if shown.None? then c else Overwrite(b, c, shown.value)
  }

  /** On a row in place the lines do exactly what LastRun describes. */
  lemma {:induction false} FoldInPlace(b: Batch, c: Contract, id: Identity, lines: seq<FileLine>)
    requires InPlace(b, c, id)
    ensures var shown := Shows(lines, Canon(c.details), Mine(b, id), Kind(b));
            && FoldRow(b, c, lines) == Render(b, c, shown)
            && (shown.Some? ==> Mine(b, id)(shown.value))
  {
    if lines != [] {
      var ms, l := lines[..|lines| - 1], lines[|lines| - 1];
      FoldInPlace(b, c, id, ms);
      var prev := Shows(ms, Canon(c.details), Mine(b, id), Kind(b));
      if prev.Some? {
        OverwriteAgain(b, c, id, prev.value);
      }
      TouchInPlace(b, FoldRow(b, c, ms), id, l);
    }
  }

  /** What a pass leaves behind on a row it addressed. */
  ghost predicate Settled(b: Batch, c: Contract, id: Identity, lines: seq<FileLine>) {
    && InPlace(b, c, id)
    && var latest := Latest(lines, Mine(b, id), Kind(b));
       AllOfClass(lines, Canon(c.details), Mine(b, id), Kind(b)) || (latest.Some? && c == Overwrite(b, c, latest.value))
  }

  lemma SettledAtRest(b: Batch, c: Contract, id: Identity, lines: seq<FileLine>) returns (shown: Option<FileLine>)
    requires Settled(b, c, id, lines)
    ensures c == Render(b, c, shown) && AtRest(lines, shown, Canon(c.details), Mine(b, id), Kind(b))
    ensures shown.Some? ==> shown == Latest(lines, Mine(b, id), Kind(b)) && c.key == KeyOf(id)
  {
    var latest := Latest(lines, Mine(b, id), Kind(b));
    if latest.Some? && c == Overwrite(b, c, latest.value) {
      OverwriteAgain(b, c, id, latest.value);
      shown := latest;
    } else {
      shown := None;
    }
  }

  /** Further lines keep a settled row settled. */
  lemma SettledSnoc(b: Batch, c: Contract, id: Identity, ms: seq<FileLine>, l: FileLine)
    requires Settled(b, c, id, ms)
    ensures Settled(b, Touch(b, c, l), id, ms + [l])
  {
    var shown := SettledAtRest(b, c, id, ms);
    TouchInPlace(b, c, id, l);
    AtRestSnoc(ms, l, shown, Canon(c.details), Mine(b, id), Kind(b));
    if Mine(b, id)(l) && Kind(b)(l) != Canon(c.details) {
      OverwriteAgain(b, c, id, l);
      LatestSnoc(ms, l, shown, Canon(c.details), Mine(b, id), Kind(b));
    }
  }

  /** The first line for a row settles it, unless the row is suspended and would be re-cancelled or moved. */
  lemma SettledFirst(b: Batch, c: Contract, id: Identity, ms: seq<FileLine>, l: FileLine)
    requires Hit(c, b.creditorOf, id) && !Terminal(c) && Addressed(b, id, l) && !AnyAddressed(b, id, ms)
    requires c.status.Suspended? ==> Restartable(b, c, l)
    ensures Settled(b, Touch(b, c, l), id, ms + [l])
  {
    DifferentIffCanon(c.details, LineDetails(b, l), id.dueDate);
    var c' := Touch(b, c, l);
    assert InPlace(b, c', id);
    assert Canon(c'.details) == Kind(b)(l);
    var all := ms + [l];
    assert forall p :: 0 <= p < |ms| ==> all[p] == ms[p] && !Addressed(b, id, ms[p]);
  }

  /** A settled row reads the same lines again and ends unchanged, keeping its key all along. */
  lemma SettledReplay(b: Batch, c: Contract, id: Identity, lines: seq<FileLine>, q: nat)
    requires Settled(b, c, id, lines) && q <= |lines|
    ensures FoldRow(b, c, lines[..q]).key == c.key
    ensures FoldRow(b, c, lines) == c
  {
    var shown := SettledAtRest(b, c, id, lines);
    Replay(lines, shown, Canon(c.details), Mine(b, id), Kind(b));
    FoldInPlace(b, c, id, lines);
    FoldInPlace(b, c, id, lines[..q]);
    var early := Shows(lines[..q], Canon(c.details), Mine(b, id), Kind(b));
    if early.Some? {
      OverwriteAgain(b, c, id, early.value);
      ShowsClosedForm(lines[..q], Canon(c.details), Mine(b, id), Kind(b));
      assert lines[..q] <= lines;
      assert !AllOfClass(lines, Canon(c.details), Mine(b, id), Kind(b));
    }
  }

  /** A suspended row the first pass reactivates for good: in the target wallet, and no cancellation date in the line. */
  predicate Restartable(b: Batch, c: Contract, line: FileLine) {
    c.wallet == b.wallet && line.cancelledAt.None?
  }

  // ---- the whole table ----

  /** No suspended row would be moved, or reactivated against a line that carries a cancellation date. */
  ghost predicate Safe(b: Batch, t: Table, lines: seq<FileLine>) {
    forall i, p {:trigger t[i], lines[p]} ::
      && 0 <= i < |t| && 0 <= p < |lines|
      && Sole(t, b.creditorOf, i) && !Terminal(t[i]) && t[i].status.Suspended?
      && Addressed(b, IdentityOf(t[i], b.creditorOf), lines[p])
      && !AnyAddressed(b, IdentityOf(t[i], b.creditorOf), lines[..p])
      ==> Restartable(b, t[i], lines[p])
  }

  /** The row at i is as the pass over `lines`, started at t, leaves it. */
  ghost predicate RowDone(b: Batch, t: Table, lines: seq<FileLine>, t': Table, i: nat)
    requires i < |t'|
  {
    var id := IdentityOf(t'[i], b.creditorOf);
    if Sole(t', b.creditorOf, i) && !Terminal(t'[i]) && AnyAddressed(b, id, lines)
    then Settled(b, t'[i], id, lines)
    else i < |t| && t'[i] == t[i]
  }

  ghost predicate PassDone(b: Batch, t: Table, lines: seq<FileLine>, t': Table) {
    && SameIdentities(b, t, t')
    && (forall i :: 0 <= i < |t| ==> (Sole(t', b.creditorOf, i) <==> Sole(t, b.creditorOf, i)))
    && (forall i :: 0 <= i < |t'| ==> RowDone(b, t, lines, t', i))
    && AllAnswered(b, t', lines)
  }

  /** Every line has a row with its identity. */
  ghost predicate AllAnswered(b: Batch, t: Table, lines: seq<FileLine>) {
    forall p :: 0 <= p < |lines| && lines[p].dueDate.Some? ==> Answered(b, t, lines[p])
  }

  ghost predicate Answered(b: Batch, t: Table, line: FileLine) {
    exists i :: 0 <= i < |t| && HitBy(b, t[i], line)
  }

  lemma SafePrefix(b: Batch, t: Table, lines: seq<FileLine>, n: nat)
    requires Safe(b, t, lines) && n <= |lines|
    ensures Safe(b, t, lines[..n])
  {
    forall i, p | && 0 <= i < |t| && 0 <= p < n
                  && Sole(t, b.creditorOf, i) && !Terminal(t[i]) && t[i].status.Suspended?
                  && Addressed(b, IdentityOf(t[i], b.creditorOf), lines[..n][p])
                  && !AnyAddressed(b, IdentityOf(t[i], b.creditorOf), lines[..n][..p])
      ensures Restartable(b, t[i], lines[..n][p])
    {
      assert lines[..n][p] == lines[p] && lines[..n][..p] == lines[..p];
    }
  }

  lemma AnyAddressedSnoc(b: Batch, id: Identity, ms: seq<FileLine>, l: FileLine)
    ensures AnyAddressed(b, id, ms + [l]) <==> AnyAddressed(b, id, ms) || Addressed(b, id, l)
  {
    var all := ms + [l];
    assert forall p :: 0 <= p < |ms| ==> all[p] == ms[p];
    assert all[|ms|] == l;
  }

  /** One more line carries a finished pass on to the longer file. */
  lemma PassSnoc(b: Batch, t: Table, ms: seq<FileLine>, l: FileLine, mid: Table)
    requires PassDone(b, t, ms, mid) && ApplyLine(b, mid, l).Done? && Safe(b, t, ms + [l])
    ensures PassDone(b, t, ms + [l], ApplyLine(b, mid, l).table)
  {
    var t' := ApplyLine(b, mid, l).table;
    var all := ms + [l];
    ApplyLineFrame(b, mid, l);
    SoleStable(b, mid, l);
    forall i | 0 <= i < |mid|
      ensures RowDone(b, t, all, t', i)
    {
      assert RowDone(b, t, ms, mid, i);
      RowSnoc(b, t, ms, l, mid, t', i);
    }
    if |t'| > |mid| {
      var i := |mid|;
      SettledNew(b, ms, l, mid);
      assert all[|ms|] == l && Addressed(b, IdentityOf(t'[i], b.creditorOf), l);
    }
    forall p | 0 <= p < |all| && all[p].dueDate.Some?
      ensures Answered(b, t', all[p])
    {
      if p < |ms| {
        assert Answered(b, mid, ms[p]);
        var i :| 0 <= i < |mid| && HitBy(b, mid[i], ms[p]);
        assert HitBy(b, t'[i], all[p]);
      }
    }
  }

  lemma RowSnoc(b: Batch, t: Table, ms: seq<FileLine>, l: FileLine, mid: Table, t': Table, i: nat)
    requires i < |mid| <= |t'| && SameIdentities(b, t, mid)
    requires t'[i] == if Sole(mid, b.creditorOf, i) then Touch(b, mid[i], l) else mid[i]
    requires Sole(t', b.creditorOf, i) <==> Sole(mid, b.creditorOf, i)
    requires i < |t| ==> (Sole(mid, b.creditorOf, i) <==> Sole(t, b.creditorOf, i))
    requires RowDone(b, t, ms, mid, i) && Safe(b, t, ms + [l])
    ensures RowDone(b, t, ms + [l], t', i)
  {
    var id := IdentityOf(mid[i], b.creditorOf);
    var all := ms + [l];
    TouchKeepsIdentity(b, mid[i], l);
    AnyAddressedSnoc(b, id, ms, l);
    if Sole(mid, b.creditorOf, i) && !Terminal(mid[i]) {
      if AnyAddressed(b, id, ms) {
        SettledSnoc(b, mid[i], id, ms, l);
      } else if Addressed(b, id, l) {
        assert all[|ms|] == l && all[..|ms|] == ms;
        assert t[i].status.Suspended? ==> Restartable(b, t[i], all[|ms|]);
        SettledFirst(b, mid[i], id, ms, l);
      }
    }
  }

  /** A created row is settled; no earlier line could have had its identity. */
  lemma SettledNew(b: Batch, ms: seq<FileLine>, l: FileLine, mid: Table)
    requires AllAnswered(b, mid, ms) && l.dueDate.Some?
    requires forall i :: 0 <= i < |mid| ==> !HitBy(b, mid[i], l)
    ensures Settled(b, NewContract(b, l), LineIdentity(b, l), ms + [l])
  {
    var id := LineIdentity(b, l);
    forall p | 0 <= p < |ms|
      ensures !Addressed(b, id, ms[p])
    {
      assert Addressed(b, id, ms[p]) ==> Answered(b, mid, ms[p]);
    }
    var all := ms + [l];
    assert forall p :: 0 <= p < |ms| ==> all[p] == ms[p];
    assert AllOfClass(all, Kind(b)(l), Mine(b, id), Kind(b));
  }

  lemma {:induction false} FirstPass(b: Batch, t: Table, lines: seq<FileLine>)
    requires RunLines(b, t, lines).Finished? && Safe(b, t, lines)
    ensures PassDone(b, t, lines, RunLines(b, t, lines).table)
  {
    if lines != [] {
      var n := |lines| - 1;
      SafePrefix(b, t, lines, n);
      FirstPass(b, t, lines[..n]);
      assert lines == lines[..n] + [lines[n]];
      PassSnoc(b, t, lines[..n], lines[n], RunLines(b, t, lines[..n]).table);
    }
  }

  lemma {:induction false} RunKeepsUniqueKeys(b: Batch, t: Table, lines: seq<FileLine>)
    requires UniqueKeys(t) && RunLines(b, t, lines).Finished?
    ensures UniqueKeys(RunLines(b, t, lines).table)
  {
    if lines != [] {
      var n := |lines| - 1;
      RunKeepsUniqueKeys(b, t, lines[..n]);
      ApplyLineKeys(b, RunLines(b, t, lines[..n]).table, lines[n]);
    }
  }

  /** The rows of t1 part-way through a second pass over the same lines. */
  ghost predicate Replaying(b: Batch, t1: Table, lines: seq<FileLine>, q: nat, t': Table)
    requires q <= |lines|
  {
    && |t'| == |t1| && SameIdentities(b, t1, t') && UniqueKeys(t')
    && forall i :: 0 <= i < |t1| ==>
         && (Sole(t', b.creditorOf, i) <==> Sole(t1, b.creditorOf, i))
         && t'[i] == (if Sole(t1, b.creditorOf, i) then FoldRow(b, t1[i], lines[..q]) else t1[i])
  }

  /** Whatever a row was, replaying part of the pass keeps its key, and replaying all of it keeps the row. */
  lemma RowReplay(b: Batch, t: Table, lines: seq<FileLine>, t1: Table, i: nat, q: nat)
    requires PassDone(b, t, lines, t1) && i < |t1| && q <= |lines|
    requires Sole(t1, b.creditorOf, i)
    ensures FoldRow(b, t1[i], lines[..q]).key == t1[i].key
    ensures FoldRow(b, t1[i], lines) == t1[i]
  {
    var id := IdentityOf(t1[i], b.creditorOf);
    assert RowDone(b, t, lines, t1, i);
    if !Terminal(t1[i]) && AnyAddressed(b, id, lines) {
      SettledReplay(b, t1[i], id, lines, q);
    } else {
      FoldUntouched(b, t1[i], lines, q);
      FoldUntouched(b, t1[i], lines, |lines|);
      assert lines[..|lines|] == lines;
    }
  }

  lemma {:induction false} FoldUntouched(b: Batch, c: Contract, lines: seq<FileLine>, q: nat)
    requires q <= |lines| && (Terminal(c) || !AnyAddressed(b, IdentityOf(c, b.creditorOf), lines))
    ensures FoldRow(b, c, lines[..q]) == c
  {
    if q > 0 {
      FoldUntouched(b, c, lines, q - 1);
      assert lines[..q][..q - 1] == lines[..q - 1] && lines[..q][q - 1] == lines[q - 1];
      assert Terminal(c) || !Addressed(b, IdentityOf(c, b.creditorOf), lines[q - 1]);
    }
  }

  /** The second pass creates nothing, violates no key, and moves every row along its own fold. */
  lemma {:induction false} SecondPass(b: Batch, t: Table, lines: seq<FileLine>, t1: Table, q: nat)
    requires PassDone(b, t, lines, t1) && UniqueKeys(t1) && q <= |lines|
    ensures RunLines(b, t1, lines[..q]).Finished?
    ensures Replaying(b, t1, lines, q, RunLines(b, t1, lines[..q]).table)
  {
    if q > 0 {
      var l := lines[q - 1];
      SecondPass(b, t, lines, t1, q - 1);
      assert lines[..q][..q - 1] == lines[..q - 1] && lines[..q][q - 1] == l;
      var mid := RunLines(b, t1, lines[..q - 1]).table;
      SecondPassLine(b, t, lines, t1, q, mid);
    }
  }

  /** A matched row keeps its key, so the unique index cannot object. */
  lemma NoViolation(b: Batch, mid: Table, l: FileLine, i: nat)
    requires UniqueKeys(mid) && i < |mid| && HitBy(b, mid[i], l)
    requires Sole(mid, b.creditorOf, i) ==> Touch(b, mid[i], l).key == mid[i].key
    ensures ApplyLine(b, mid, l).Done? && |ApplyLine(b, mid, l).table| == |mid|
  {
    var m := Matches(mid, b.creditorOf, LineIdentity(b, l));
    assert i in m;
    MatchesOne(mid, b.creditorOf, LineIdentity(b, l));
    if |m| == 1 {
      assert m[0] == i;
      assert !KeyHeldByOther(mid, i, mid[i].key);
    }
  }

  lemma SecondPassLine(b: Batch, t: Table, lines: seq<FileLine>, t1: Table, q: nat, mid: Table)
    requires PassDone(b, t, lines, t1) && 0 < q <= |lines|
    requires Replaying(b, t1, lines, q - 1, mid)
    ensures ApplyLine(b, mid, lines[q - 1]).Done?
    ensures Replaying(b, t1, lines, q, ApplyLine(b, mid, lines[q - 1]).table)
  {
    var l := lines[q - 1];
    assert lines[..q][..q - 1] == lines[..q - 1] && lines[..q][q - 1] == l;
    forall i | 0 <= i < |mid| && Sole(mid, b.creditorOf, i)
      ensures Touch(b, mid[i], l) == FoldRow(b, t1[i], lines[..q])
      ensures Touch(b, mid[i], l).key == mid[i].key
    {
      RowReplay(b, t, lines, t1, i, q - 1);
      RowReplay(b, t, lines, t1, i, q);
    }
    if l.dueDate.Some? {
      assert Answered(b, t1, l);
      var i :| 0 <= i < |t1| && HitBy(b, t1[i], l);
      assert HitBy(b, mid[i], l);
      NoViolation(b, mid, l, i);
    }
    ReplayStep(b, t1, lines, q, mid);
  }

  lemma ReplayStep(b: Batch, t1: Table, lines: seq<FileLine>, q: nat, mid: Table)
    requires 0 < q <= |lines| && Replaying(b, t1, lines, q - 1, mid)
    requires ApplyLine(b, mid, lines[q - 1]).Done? && |ApplyLine(b, mid, lines[q - 1]).table| == |mid|
    requires forall i :: 0 <= i < |mid| && Sole(mid, b.creditorOf, i) ==>
               Touch(b, mid[i], lines[q - 1]) == FoldRow(b, t1[i], lines[..q])
    ensures Replaying(b, t1, lines, q, ApplyLine(b, mid, lines[q - 1]).table)
  {
    hide ApplyLine, FoldRow, Touch;
    var t' := ApplyLine(b, mid, lines[q - 1]).table;
    ApplyLineFrame(b, mid, lines[q - 1]);
    ApplyLineKeys(b, mid, lines[q - 1]);
    SoleStable(b, mid, lines[q - 1]);
    assert SameIdentities(b, t1, t');
    forall i | 0 <= i < |t1|
      ensures Sole(t', b.creditorOf, i) <==> Sole(t1, b.creditorOf, i)
      ensures t'[i] == (if Sole(t1, b.creditorOf, i) then FoldRow(b, t1[i], lines[..q]) else t1[i])
    {
      assert Sole(mid, b.creditorOf, i) <==> Sole(t1, b.creditorOf, i);
    }
  }

  lemma ReplayEnds(b: Batch, t: Table, lines: seq<FileLine>, t1: Table, t2: Table)
    requires PassDone(b, t, lines, t1) && Replaying(b, t1, lines, |lines|, t2)
    ensures t2 == t1
  {
    assert lines[..|lines|] == lines;
    forall i | 0 <= i < |t1|
      ensures t2[i] == t1[i]
    {
      if Sole(t1, b.creditorOf, i) {
        RowReplay(b, t, lines, t1, i, |lines|);
      }
    }
  }

  /** Applying the same lines twice is applying them once. */
  lemma Idempotent(b: Batch, t: Table, lines: seq<FileLine>)
    requires UniqueKeys(t) && Safe(b, t, lines) && RunLines(b, t, lines).Finished?
    ensures var t1 := RunLines(b, t, lines).table; RunLines(b, t1, lines).Result() == Some(t1)
  {
    var t1 := RunLines(b, t, lines).table;
    FirstPass(b, t, lines);
    RunKeepsUniqueKeys(b, t, lines);
    SecondPass(b, t, lines, t1, |lines|);
    assert lines[..|lines|] == lines;
    ReplayEnds(b, t, lines, t1, RunLines(b, t1, lines).table);
  }

  lemma {:induction false} RunSplit(b: Batch, t: Table, lines: seq<FileLine>, n: nat)
    requires n <= |lines|
    ensures RunLines(b, t, lines[..n]).Aborted? ==> RunLines(b, t, lines).Aborted?
    ensures RunLines(b, t, lines[..n]).Finished? ==>
            RunLines(b, t, lines).Result() == RunLines(b, RunLines(b, t, lines[..n]).table, lines[n..]).Result()
  {
    if n == |lines| {
      assert lines[..n] == lines;
    } else {
      var m := |lines| - 1;
      RunSplit(b, t, lines[..m], n);
      assert lines[..m][..n] == lines[..n];
      assert lines[n..][..m - n] == lines[..m][n..] && lines[n..][m - n] == lines[m];
    }
  }

  /**
   Crashing after any committed prefix and running the whole file again gives what one uninterrupted run
   gives: the same table, row for row, or the same abort.
   */
  lemma CrashAndRerun(b: Batch, t: Table, lines: seq<FileLine>, n: nat)
    requires UniqueKeys(t) && Safe(b, t, lines)
    requires n <= |lines| && RunLines(b, t, lines[..n]).Finished?
    ensures RunLines(b, RunLines(b, t, lines[..n]).table, lines).Result() == RunLines(b, t, lines).Result()
  {
    var t1 := RunLines(b, t, lines[..n]).table;
    SafePrefix(b, t, lines, n);
    Idempotent(b, t, lines[..n]);
    RunSplit(b, t, lines, n);
    RunSplit(b, t1, lines, n);
  }

  /** A committed prefix leaves a table that is again safe to restart from. */
  lemma SafeAfterPrefix(b: Batch, t: Table, lines: seq<FileLine>, n: nat)
    requires Safe(b, t, lines) && n <= |lines| && RunLines(b, t, lines[..n]).Finished?
    ensures Safe(b, RunLines(b, t, lines[..n]).table, lines)
  {
    var t1 := RunLines(b, t, lines[..n]).table;
    SafePrefix(b, t, lines, n);
    FirstPass(b, t, lines[..n]);
    forall i, p | && 0 <= i < |t1| && 0 <= p < |lines|
                  && Sole(t1, b.creditorOf, i) && !Terminal(t1[i]) && t1[i].status.Suspended?
                  && Addressed(b, IdentityOf(t1[i], b.creditorOf), lines[p])
                  && !AnyAddressed(b, IdentityOf(t1[i], b.creditorOf), lines[..p])
      ensures Restartable(b, t1[i], lines[p])
    {
      assert RowDone(b, t, lines[..n], t1, i);
      assert t1[i] == t[i];
      assert Sole(t, b.creditorOf, i);
    }
  }

  /** The table after a series of crashed attempts, each committing some prefix of the file. */
  function AfterCrashes(b: Batch, t: Table, lines: seq<FileLine>, commits: seq<nat>): Option<Table>
    decreases |commits|
  {
    if commits == [] then Some(t)
    else if commits[0] > |lines| then None
    else match RunLines(b, t, lines[..commits[0]])
         case Aborted => None
         case Finished(t1, _) => AfterCrashes(b, t1, lines, commits[1..])
  }

  lemma {:induction false} ManyCrashes(b: Batch, t: Table, lines: seq<FileLine>, commits: seq<nat>)
    requires UniqueKeys(t) && Safe(b, t, lines) && AfterCrashes(b, t, lines, commits).Some?
    ensures RunLines(b, AfterCrashes(b, t, lines, commits).value, lines).Result() == RunLines(b, t, lines).Result()
    decreases |commits|
  {
    if commits != [] {
      var n := commits[0];
      var t1 := RunLines(b, t, lines[..n]).table;
      CrashAndRerun(b, t, lines, n);
      SafeAfterPrefix(b, t, lines, n);
      RunKeepsUniqueKeys(b, t, lines[..n]);
      ManyCrashes(b, t1, lines, commits[1..]);
    }
  }

  // ---- every row along a run ----

  lemma {:induction false} RunRows(b: Batch, t: Table, lines: seq<FileLine>, i: nat)
    requires RunLines(b, t, lines).Finished? && i < |t|
    ensures var t' := RunLines(b, t, lines).table;
            && i < |t'| && (Sole(t', b.creditorOf, i) <==> Sole(t, b.creditorOf, i))
            && t'[i] == (if Sole(t, b.creditorOf, i) then FoldRow(b, t[i], lines) else t[i])
  {
    if lines != [] {
      var n := |lines| - 1;
      RunRows(b, t, lines[..n], i);
      ApplyLineFrame(b, RunLines(b, t, lines[..n]).table, lines[n]);
      SoleStable(b, RunLines(b, t, lines[..n]).table, lines[n]);
    }
  }

  // ---- the latest file is authoritative ----

  /** The row carries this line in every column an update writes. */
  predicate Carries(b: Batch, c: Contract, l: FileLine) {
    && c.details == LineDetails(b, l) && c.agingDays == l.agingDays
    && c.offer == Offers.CalculateOffer(GetOr(l.updatedCents, 0), b.rules)
    && c.key == KeyOf(LineIdentity(b, l))
  }

  /**
   After a run, the last line for an identity decides its contract: the row is there, and unless it is ambiguous or
   terminal it is active, in the target wallet, and equivalent to that line; it carries an equivalent line in full,
   or else every line of the file was already equivalent to it.
   */
  lemma LastLineDecides(b: Batch, t: Table, lines: seq<FileLine>, p: nat) returns (i: nat)
    requires RunLines(b, t, lines).Finished? && Safe(b, t, lines) && p < |lines| && lines[p].dueDate.Some?
    requires forall q :: p < q < |lines| ==> !Addressed(b, LineIdentity(b, lines[p]), lines[q])
    ensures var t' := RunLines(b, t, lines).table;
            && i < |t'| && HitBy(b, t'[i], lines[p])
            && (Sole(t', b.creditorOf, i) && !Terminal(t'[i]) ==>
                  && t'[i].wallet == b.wallet && t'[i].status.Active?
                  && Canon(t'[i].details) == Canon(LineDetails(b, lines[p]))
                  && ((exists l :: l in lines && Carries(b, t'[i], l))
                      || forall q :: 0 <= q < |lines| && Addressed(b, LineIdentity(b, lines[p]), lines[q]) ==>
                           Canon(LineDetails(b, lines[q])) == Canon(t'[i].details)))
  {
    FirstPass(b, t, lines);
    var t' := RunLines(b, t, lines).table;
    assert Answered(b, t', lines[p]);
    i :| 0 <= i < |t'| && HitBy(b, t'[i], lines[p]);
    assert RowDone(b, t, lines, t', i);
    var id := LineIdentity(b, lines[p]);
    if Sole(t', b.creditorOf, i) && !Terminal(t'[i]) {
      assert AnyAddressed(b, id, lines);
      SettledMeaning(b, t'[i], id, lines, p);
    }
  }

  lemma SettledMeaning(b: Batch, c: Contract, id: Identity, lines: seq<FileLine>, p: nat)
    requires Settled(b, c, id, lines) && p < |lines| && Addressed(b, id, lines[p])
    requires forall q :: p < q < |lines| ==> !Addressed(b, id, lines[q])
    ensures Canon(c.details) == Canon(LineDetails(b, lines[p]))
    ensures (exists l :: l in lines && Carries(b, c, l))
            || forall q :: 0 <= q < |lines| && Addressed(b, id, lines[q]) ==> Canon(LineDetails(b, lines[q])) == Canon(c.details)
  {
    LatestHasLastClass(lines, Mine(b, id), Kind(b), p);
    var latest := Latest(lines, Mine(b, id), Kind(b));
    assert Mine(b, id)(lines[p]);
    if AllOfClass(lines, Canon(c.details), Mine(b, id), Kind(b)) {
      assert forall q :: 0 <= q < |lines| && Addressed(b, id, lines[q]) ==> Mine(b, id)(lines[q]) && Kind(b)(lines[q]) == Canon(c.details);
    } else {
      assert Carries(b, c, latest.value);
      OverwriteAgain(b, c, id, latest.value);
    }
  }
}
