/**
 Exactly when the import may be restarted: the unsettled contracts on one side, and on the other the unique key, which a
 rerun may meet where the uninterrupted run does not.
 */
module ImportKeys {
  import opened Wrappers
  import opened ContractTable
  import opened ImportEngine
  import opened LastRun
  import opened ImportRetry
  import opened ImportRow
  import opened ImportRestart

  // ---- the key of one row ----

  predicate HoldsKey(b: Batch, c: Contract) { c.key == KeyOf(IdentityOf(c, b.creditorOf)) }

  /** A line leaves the key alone, or writes the key of the row's identity for good. */
  lemma TouchKey(b: Batch, c: Contract, l: FileLine)
    ensures var c' := Touch(b, c, l);
            && IdentityOf(c', b.creditorOf) == IdentityOf(c, b.creditorOf)
            && (c'.key == c.key || HoldsKey(b, c'))
            && (HoldsKey(b, c) ==> HoldsKey(b, c'))
  {
  }

  lemma {:induction false} FoldKey(b: Batch, c: Contract, ms: seq<FileLine>)
    ensures var c' := FoldRow(b, c, ms);
            && IdentityOf(c', b.creditorOf) == IdentityOf(c, b.creditorOf) && c'.deleted == c.deleted
            && (c'.key == c.key || HoldsKey(b, c'))
            && (HoldsKey(b, c) ==> HoldsKey(b, c'))
  {
    if ms != [] {
      var n := |ms| - 1;
      FoldKey(b, c, ms[..n]);
      TouchKey(b, FoldRow(b, c, ms[..n]), ms[n]);
      TouchKeepsIdentity(b, FoldRow(b, c, ms[..n]), ms[n]);
      hide Touch, HoldsKey;
    }
  }

  /**
   Lines that leave a stale key where it is, read once or twice: none for the contract, or the contract is terminal, or
   all are equivalent to it, it stands in the target wallet, and, if suspended, has no cancellation date to lose.
   */
  ghost predicate LeavesKey(b: Batch, c: Contract, ms: seq<FileLine>) {
    || Terminal(c)
    || !AnyAddressed(b, IdentityOf(c, b.creditorOf), ms)
    || (&& c.wallet == b.wallet
        && AllOfClass(ms, Canon(c.details), Mine(b, IdentityOf(c, b.creditorOf)), Kind(b))
        && (c.status.Suspended? ==> c.details.cancelledAt.None?))
  }

  /** Suspended in the target wallet with an equivalent, dated first line: the line wakes the row, and read again rewrites it. */
  ghost predicate Rekeyed(b: Batch, c: Contract, lines: seq<FileLine>, p: nat) {
    Unsettled(b, c, lines, p) && c.wallet == b.wallet && Kind(b)(lines[p]) == Canon(c.details)
  }

  /** The first line for a suspended row, as far as the key is concerned. */
  lemma FirstLineKey(b: Batch, c: Contract, id: Identity, l: FileLine)
    requires Hit(c, b.creditorOf, id) && !Terminal(c) && c.status.Suspended? && Addressed(b, id, l)
    ensures if c.wallet == b.wallet && Kind(b)(l) == Canon(c.details)
            then Touch(b, c, l) == Reactivate(c) && InPlace(b, Reactivate(c), id)
            else HoldsKey(b, Touch(b, c, l))
  {
    DifferentIffCanon(c.details, LineDetails(b, l), id.dueDate);
  }

  lemma ReactivateClass(c: Contract)
    ensures Canon(Reactivate(c).details) == Canon(c.details).(cancelledAt := None)
    ensures c.details.cancelledAt.None? ==> Reactivate(c).details == c.details
    ensures Reactivate(c).key == c.key
  {
  }

  /** A stale row in place that keeps its key has met only equivalent lines, and is unchanged. */
  lemma StaleInPlace(b: Batch, c: Contract, id: Identity, ms: seq<FileLine>)
    requires InPlace(b, c, id) && !HoldsKey(b, c)
    ensures if AllOfClass(ms, Canon(c.details), Mine(b, id), Kind(b)) then FoldRow(b, c, ms) == c
            else HoldsKey(b, FoldRow(b, c, ms))
  {
    RerunInPlace(b, c, id, ms);
    if !AllOfClass(ms, Canon(c.details), Mine(b, id), Kind(b)) {
      OverwriteAgain(b, c, id, Latest(ms, Mine(b, id), Kind(b)).value);
      hide FoldRow, Overwrite;
    }
  }

  /** What a file leaves of a stale, live row that is not terminal and has a line in it. */
  lemma StaleFold(b: Batch, c: Contract, ms: seq<FileLine>)
    requires !c.deleted && !Terminal(c) && !HoldsKey(b, c) && AnyAddressed(b, IdentityOf(c, b.creditorOf), ms)
    ensures var id, v := IdentityOf(c, b.creditorOf), FoldRow(b, c, ms);
            HoldsKey(b, v) ||
            (&& c.wallet == b.wallet
             && (c.status.Active? ==> v == c && AllOfClass(ms, Canon(c.details), Mine(b, id), Kind(b)))
             && (c.status.Suspended? ==>
                   && v == Reactivate(c) && InPlace(b, v, id)
                   && exists p: nat :: FirstFor(b, id, ms, p) && Kind(b)(ms[p]) == Canon(c.details)
                                       && AllOfClass(ms[p + 1..], Canon(v.details), Mine(b, id), Kind(b))))
  {
    var id := IdentityOf(c, b.creditorOf);
    var p := FirstAddressed(b, id, ms);
    FoldToFirst(b, c, ms, p);
    if c.status.Suspended? {
      FirstLineKey(b, c, id, ms[p]);
      ReactivateClass(c);
      TouchKeepsIdentity(b, c, ms[p]);
      FoldKey(b, Touch(b, c, ms[p]), ms[p + 1..]);
      hide FoldRow, Touch, Canon;
      if c.wallet == b.wallet && Kind(b)(ms[p]) == Canon(c.details) {
        StaleInPlace(b, Reactivate(c), id, ms[p + 1..]);
      }
    } else if c.wallet == b.wallet {
      StaleInPlace(b, c, id, ms);
    } else {
      MovedKey(b, c, id, ms[p]);
      FoldKey(b, Touch(b, c, ms[p]), ms[p + 1..]);
    }
  }

  lemma MovedKey(b: Batch, c: Contract, id: Identity, l: FileLine)
    requires Hit(c, b.creditorOf, id) && !Terminal(c) && c.wallet != b.wallet && Addressed(b, id, l)
    ensures HoldsKey(b, Touch(b, c, l))
  {
  }

  lemma ClassPrefix(b: Batch, id: Identity, lines: seq<FileLine>, k: Details, n: nat, m: nat)
    requires n <= m <= |lines| && AllOfClass(lines[..m], k, Mine(b, id), Kind(b))
    ensures AllOfClass(lines[..n], k, Mine(b, id), Kind(b))
  {
    hide Mine, Kind;
    assert forall q :: 0 <= q < n ==> lines[..n][q] == lines[..m][q];
  }

  /** A key that is still stale once a prefix is read again was left alone by all lines before. */
  lemma ReplayLeaves(b: Batch, c: Contract, lines: seq<FileLine>, n: nat, k: nat)
    requires !c.deleted && k <= n <= |lines| && !HoldsKey(b, FoldRow(b, FoldRow(b, c, lines[..n]), lines[..k]))
    ensures LeavesKey(b, c, lines[..k])
  {
    var id, v := IdentityOf(c, b.creditorOf), FoldRow(b, c, lines[..n]);
    FoldKey(b, c, lines[..n]);
    FoldKey(b, v, lines[..k]);
    if !Terminal(c) && AnyAddressed(b, id, lines[..k]) {
      var q := FirstAddressed(b, id, lines[..k]);
      assert lines[..k][q] == lines[q] == lines[..n][q] && lines[..k][..q] == lines[..n][..q];
      assert FirstFor(b, id, lines[..n], q);
      OnlyFirst(b, id, lines[..n], q);
      StaleFold(b, c, lines[..n]);
      if c.status.Suspended? {
        StaleInPlace(b, v, id, lines[..k]);
        ReactivateClass(c);
        assert Mine(b, id)(lines[..k][q]);
        assert Canon(c.details) == Canon(v.details);
      } else {
        ClassPrefix(b, id, lines, Canon(c.details), k, n);
      }
    }
  }

  lemma LeavesTwice(b: Batch, c: Contract, ms: seq<FileLine>)
    requires !c.deleted && !HoldsKey(b, c) && LeavesKey(b, c, ms)
    ensures FoldRow(b, c, ms).key == c.key && FoldRow(b, FoldRow(b, c, ms), ms).key == c.key
  {
    var id := IdentityOf(c, b.creditorOf);
    if Terminal(c) || !AnyAddressed(b, id, ms) {
      FoldUntouched(b, c, ms, |ms|);
      assert ms[..|ms|] == ms;
    } else if c.status.Suspended? {
      var p := FirstAddressed(b, id, ms);
      NoneBefore(b, id, ms, p);
      ReactivateClass(c);
      FoldToFirst(b, c, ms, p);
      FirstLineKey(b, c, id, ms[p]);
      AllOfClassSplit(ms, Canon(c.details), Mine(b, id), Kind(b), p);
      hide FoldRow, Touch;
      StaleInPlace(b, Reactivate(c), id, ms[p + 1..]);
      StaleInPlace(b, Reactivate(c), id, ms);
    } else {
      StaleInPlace(b, c, id, ms);
    }
  }

  /** The only line that writes a key on being read again is the dated first one that woke the row. */
  lemma ReplayWrites(b: Batch, c: Contract, lines: seq<FileLine>, n: nat, k: nat)
    requires !c.deleted && k < n <= |lines| && Addressed(b, IdentityOf(c, b.creditorOf), lines[k])
    requires var w := FoldRow(b, FoldRow(b, c, lines[..n]), lines[..k]); !HoldsKey(b, w) && HoldsKey(b, Touch(b, w, lines[k]))
    ensures Rekeyed(b, c, lines, k)
  {
    var id, v := IdentityOf(c, b.creditorOf), FoldRow(b, c, lines[..n]);
    var w := FoldRow(b, v, lines[..k]);
    FoldKey(b, c, lines[..n]);
    FoldKey(b, v, lines[..k]);
    assert lines[..n][k] == lines[k];
    if Terminal(c) {
      FoldUntouched(b, c, lines, n);
      FoldUntouched(b, c, lines, k);
    } else {
      StaleFold(b, c, lines[..n]);
      if c.status.Suspended? {
        StaleInPlace(b, v, id, lines[..k]);
        TouchInPlace(b, v, id, lines[k]);
        RekeyedAt(b, c, v, lines, n, k);
      } else {
        ClassPrefix(b, id, lines, Canon(c.details), k, n);
        StaleInPlace(b, c, id, lines[..k]);
        TouchInPlace(b, c, id, lines[k]);
      }
    }
  }

  lemma DatedFirst(b: Batch, c: Contract, l: FileLine)
    requires Kind(b)(l) == Canon(c.details) && Kind(b)(l) != Canon(Reactivate(c).details)
    ensures l.cancelledAt.Some?
  {
  }

  lemma RekeyedAt(b: Batch, c: Contract, v: Contract, lines: seq<FileLine>, n: nat, k: nat)
    requires !c.deleted && !Terminal(c) && c.status.Suspended? && c.wallet == b.wallet && v == Reactivate(c) && k < n <= |lines|
    requires Addressed(b, IdentityOf(c, b.creditorOf), lines[k]) && Kind(b)(lines[k]) != Canon(v.details)
    requires exists p: nat :: FirstFor(b, IdentityOf(c, b.creditorOf), lines[..n], p) && Kind(b)(lines[..n][p]) == Canon(c.details)
               && AllOfClass(lines[..n][p + 1..], Canon(v.details), Mine(b, IdentityOf(c, b.creditorOf)), Kind(b))
    ensures Rekeyed(b, c, lines, k)
  {
    var id := IdentityOf(c, b.creditorOf);
    hide Canon, Terminal, Reactivate;
    var p: nat :| FirstFor(b, id, lines[..n], p) && Kind(b)(lines[..n][p]) == Canon(c.details)
                  && AllOfClass(lines[..n][p + 1..], Canon(v.details), Mine(b, id), Kind(b));
    NoneBefore(b, id, lines[..n], p);
    assert lines[..n][k] == lines[k];
    assert forall q :: p < q < n ==> lines[..n][q] == lines[..n][p + 1..][q - p - 1];
    assert Mine(b, id)(lines[k]);
    assert k == p;
    assert lines[..n][..p] == lines[..p];
    DatedFirst(b, c, lines[k]);
  }

  lemma {:induction false} ReplayKeyed(b: Batch, c: Contract, lines: seq<FileLine>, n: nat, k: nat)
    requires !c.deleted && k <= n <= |lines| && !HoldsKey(b, FoldRow(b, c, lines[..n]))
    requires HoldsKey(b, FoldRow(b, FoldRow(b, c, lines[..n]), lines[..k]))
    ensures exists p: nat :: Rekeyed(b, c, lines, p)
  {
    if k > 0 {
      hide HoldsKey, Rekeyed;
      var v := FoldRow(b, c, lines[..n]);
      var w := FoldRow(b, v, lines[..k - 1]);
      assert lines[..k][..k - 1] == lines[..k - 1] && lines[..k][k - 1] == lines[k - 1];
      if HoldsKey(b, w) {
        ReplayKeyed(b, c, lines, n, k - 1);
      } else {
        FoldKey(b, c, lines[..n]);
        FoldKey(b, v, lines[..k - 1]);
        assert Addressed(b, IdentityOf(c, b.creditorOf), lines[k - 1]);
        ReplayWrites(b, c, lines, n, k - 1);
      }
    }
  }

  /** Reading a prefix again leaves the row as it is, or writes its key. */
  lemma ReplayStale(b: Batch, c: Contract, lines: seq<FileLine>, n: nat)
    requires !c.deleted && n <= |lines|
    ensures var v := FoldRow(b, c, lines[..n]);
            var w := FoldRow(b, v, lines[..n]);
            w == v || HoldsKey(b, w)
  {
    var id, v := IdentityOf(c, b.creditorOf), FoldRow(b, c, lines[..n]);
    FoldKey(b, c, lines[..n]);
    FoldKey(b, v, lines[..n]);
    if Terminal(c) || !AnyAddressed(b, id, lines[..n]) {
      FoldUntouched(b, c, lines[..n], n);
      assert lines[..n][..n] == lines[..n];
    } else if !HoldsKey(b, v) {
      StaleFold(b, c, lines[..n]);
      if c.status.Suspended? {
        StaleInPlace(b, v, id, lines[..n]);
      }
    }
  }

  /** A row that recovers ends with its own key. */
  lemma RecoveredKey(b: Batch, c: Contract, lines: seq<FileLine>, p: nat)
    requires Unsettled(b, c, lines, p) && Recovers(b, c, lines, p)
    ensures HoldsKey(b, FoldRow(b, c, lines))
  {
    var id, u := IdentityOf(c, b.creditorOf), FoldRow(b, c, lines);
    LandsExactly(b, c, lines, p);
    OverwriteAgain(b, u, id, Latest(lines, Mine(b, id), Kind(b)).value);
  }

  // ---- the unique key ----

  /** Every row that the file addresses holds the key of its identity, as every created row does. */
  ghost predicate Keyed(b: Batch, t: Table, lines: seq<FileLine>) {
    forall i, p :: 0 <= i < |t| && 0 <= p < |lines| && HitBy(b, t[i], lines[p]) ==> HoldsKey(b, t[i])
  }

  ghost predicate SameKeys(b: Batch, t: Table, t': Table) {
    SameIdentities(b, t, t') && forall i :: 0 <= i < |t| ==> t'[i].key == t[i].key
  }

  /** Where addressed rows hold their keys, a line fails only on creating a row whose key is held, and moves no key. */
  lemma KeyedLine(b: Batch, t: Table, l: FileLine)
    requires UniqueKeys(t) && forall i :: 0 <= i < |t| && HitBy(b, t[i], l) ==> HoldsKey(b, t[i])
    ensures ApplyLine(b, t, l).Done? <==>
            l.dueDate.None? || Answered(b, t, l) || !KeyHeldByOther(t, |t|, KeyOf(LineIdentity(b, l)))
    ensures ApplyLine(b, t, l).Done? ==>
              var t' := ApplyLine(b, t, l).table;
              && SameKeys(b, t, t') && UniqueKeys(t')
              && forall i :: |t| <= i < |t'| ==> HoldsKey(b, t'[i])
  {
    if l.dueDate.Some? {
      var m := Matches(t, b.creditorOf, LineIdentity(b, l));
      assert |m| > 0 ==> m[0] in m;
      assert |m| > 0 ==> HitBy(b, t[m[0]], l);
      assert |m| > 0 ==> !KeyHeldByOther(t, m[0], t[m[0]].key);
      assert Answered(b, t, l) ==> exists i :: i in m;
    }
    if ApplyLine(b, t, l).Done? {
      ApplyLineFrame(b, t, l);
      ApplyLineKeys(b, t, l);
    }
  }

  lemma KeyedKept(b: Batch, t: Table, t': Table, lines: seq<FileLine>)
    requires Keyed(b, t, lines) && SameKeys(b, t, t') && forall i :: |t| <= i < |t'| ==> HoldsKey(b, t'[i])
    ensures Keyed(b, t', lines)
  {
    forall i, p | 0 <= i < |t'| && 0 <= p < |lines| && HitBy(b, t'[i], lines[p])
      ensures HoldsKey(b, t'[i])
    {
      assert i < |t| ==> HitBy(b, t[i], lines[p]);
    }
  }

  lemma {:induction false} KeyedRun(b: Batch, t: Table, lines: seq<FileLine>, n: nat)
    requires UniqueKeys(t) && Keyed(b, t, lines) && n <= |lines| && RunLines(b, t, lines[..n]).Finished?
    ensures var t' := RunLines(b, t, lines[..n]).table;
            SameKeys(b, t, t') && UniqueKeys(t') && Keyed(b, t', lines)
  {
    if n > 0 {
      hide ApplyLine, HitBy, HoldsKey, UniqueKeys;
      assert lines[..n][..n - 1] == lines[..n - 1] && lines[..n][n - 1] == lines[n - 1];
      KeyedRun(b, t, lines, n - 1);
      var mid := RunLines(b, t, lines[..n - 1]).table;
      KeyedLine(b, mid, lines[n - 1]);
      KeyedKept(b, mid, ApplyLine(b, mid, lines[n - 1]).table, lines);
    }
  }

  /** Then lines that all have their rows run through. */
  lemma {:induction false} KeyedReplay(b: Batch, t: Table, lines: seq<FileLine>, n: nat)
    requires UniqueKeys(t) && Keyed(b, t, lines) && n <= |lines| && AllAnswered(b, t, lines[..n])
    ensures RunLines(b, t, lines[..n]).Finished?
  {
    if n > 0 {
      hide ApplyLine, HitBy, HoldsKey, UniqueKeys;
      assert lines[..n][..n - 1] == lines[..n - 1] && lines[..n][n - 1] == lines[n - 1];
      assert AllAnswered(b, t, lines[..n - 1]) by {
        assert forall p :: 0 <= p < n - 1 ==> lines[..n - 1][p] == lines[..n][p];
      }
      KeyedReplay(b, t, lines, n - 1);
      KeyedRun(b, t, lines, n - 1);
      var mid := RunLines(b, t, lines[..n - 1]).table;
      if lines[n - 1].dueDate.Some? {
        assert Answered(b, t, lines[..n][n - 1]);
        AnsweredStays(b, t, mid, lines[n - 1]);
      }
      KeyedLine(b, mid, lines[n - 1]);
    }
  }

  /** Two tables with the same identities and keys meet the same violation, or none. */
  lemma {:induction false} KeyedTwins(b: Batch, t: Table, s: Table, lines: seq<FileLine>)
    requires |s| == |t| && SameKeys(b, t, s) && UniqueKeys(t) && UniqueKeys(s) && Keyed(b, t, lines) && Keyed(b, s, lines)
    ensures RunLines(b, t, lines).Finished? <==> RunLines(b, s, lines).Finished?
    ensures RunLines(b, t, lines).Finished? ==>
              var t', s' := RunLines(b, t, lines).table, RunLines(b, s, lines).table;
              && |s'| == |t'| && SameKeys(b, t', s') && UniqueKeys(t') && UniqueKeys(s')
              && (forall i :: |t| <= i < |t'| ==> HoldsKey(b, t'[i]) && HoldsKey(b, s'[i]))
              && SameKeys(b, t, t') && SameKeys(b, s, s')
  {
    if lines != [] {
      var n := |lines| - 1;
      assert Keyed(b, t, lines[..n]) && Keyed(b, s, lines[..n]);
      KeyedTwins(b, t, s, lines[..n]);
      if RunLines(b, t, lines[..n]).Finished? {
        var t1, s1 := RunLines(b, t, lines[..n]).table, RunLines(b, s, lines[..n]).table;
        KeyedKept(b, t, t1, lines);
        KeyedKept(b, s, s1, lines);
        TwinLine(b, t1, s1, lines[n]);
      }
    }
  }

  lemma TwinLine(b: Batch, t: Table, s: Table, l: FileLine)
    requires |s| == |t| && SameKeys(b, t, s) && UniqueKeys(t) && UniqueKeys(s)
    requires forall i :: 0 <= i < |t| && HitBy(b, t[i], l) ==> HoldsKey(b, t[i])
    requires forall i :: 0 <= i < |s| && HitBy(b, s[i], l) ==> HoldsKey(b, s[i])
    ensures ApplyLine(b, t, l).Done? <==> ApplyLine(b, s, l).Done?
    ensures ApplyLine(b, t, l).Done? ==>
              var t', s' := ApplyLine(b, t, l).table, ApplyLine(b, s, l).table;
              && |s'| == |t'| && SameKeys(b, t', s') && UniqueKeys(t') && UniqueKeys(s')
              && (forall i :: |t| <= i < |t'| ==> HoldsKey(b, t'[i]) && HoldsKey(b, s'[i]))
              && SameKeys(b, t, t') && SameKeys(b, s, s')
  {
    hide ApplyLine;
    KeyedLine(b, t, l);
    KeyedLine(b, s, l);
    assert forall i :: 0 <= i < |t| ==> (HitBy(b, t[i], l) <==> HitBy(b, s[i], l));
    assert KeyHeldByOther(t, |t|, KeyOf(LineIdentity(b, l))) <==> KeyHeldByOther(s, |s|, KeyOf(LineIdentity(b, l)));
    if ApplyLine(b, t, l).Done? {
      SameGrowthLine(b, t, s, l);
    }
  }

  /** A rerun runs into the unique key exactly when the uninterrupted run does. */
  lemma KeyedRerun(b: Batch, t: Table, lines: seq<FileLine>, n: nat)
    requires UniqueKeys(t) && Keyed(b, t, lines) && n <= |lines| && RunLines(b, t, lines[..n]).Finished?
    ensures RunLines(b, Committed(b, t, lines, n), lines).Finished? <==> RunLines(b, t, lines).Finished?
  {
    var t1 := Committed(b, t, lines, n);
    KeyedRun(b, t, lines, n);
    Created(b, t, lines[..n]);
    KeyedReplay(b, t1, lines, n);
    KeyedRun(b, t1, lines, n);
    CreatesNothing(b, t1, lines[..n]);
    RunSplit(b, t, lines, n);
    RunSplit(b, t1, lines, n);
    hide RunLines, HitBy, HoldsKey, UniqueKeys;
    var t2 := RunLines(b, t1, lines[..n]).table;
    assert Keyed(b, t1, lines[n..]) && Keyed(b, t2, lines[n..]);
    KeyedTwins(b, t1, t2, lines[n..]);
  }

  /**
   Where addressed rows hold the keys of their identities, for every file, repeats and aborts included: restarting agrees
   after every committed prefix exactly when the run aborts anyway or every unsettled contract is made up for.
   */
  lemma KeyedRestartExactly(b: Batch, t: Table, lines: seq<FileLine>)
    requires UniqueKeys(t) && Keyed(b, t, lines)
    ensures (forall n :: 0 <= n <= |lines| ==> RestartAgrees(b, t, lines, n)) <==>
            RunLines(b, t, lines).Aborted? || AllRecover(b, t, lines)
  {
    hide RunLines, AllRecover, Keyed, UniqueKeys;
    forall n | 0 <= n <= |lines| && RunLines(b, t, lines[..n]).Finished?
      ensures RunLines(b, Committed(b, t, lines, n), lines).Finished? <==> RunLines(b, t, lines).Finished?
    {
      KeyedRerun(b, t, lines, n);
    }
    if RunLines(b, t, lines).Finished? {
      RestartByRerun(b, t, lines);
    }
  }

  /** The failing family is inhabited: one suspended contract and a one-line file. */
  lemma SuspendedRowDisagrees(b: Batch, c: Contract, l: FileLine)
    requires !c.deleted && !Terminal(c) && c.status.Suspended? && Addressed(b, IdentityOf(c, b.creditorOf), l)
    requires !Restartable(b, c, l) && HoldsKey(b, c)
    ensures RunLines(b, [c], [l]).Finished? && exists n :: 0 <= n <= 1 && !RestartAgrees(b, [c], [l], n)
  {
    assert Sole([c], b.creditorOf, 0) && [l][..0] == [] && [l][1..] == [];
    assert Unsettled(b, c, [l], 0);
    OnlyLineNeverRecovers(b, c, [l], 0);
    hide Recovers;
    assert RunLines(b, [c], []).Finished?;
    assert HitBy(b, [c][0], l);
    KeyedLine(b, [c], l);
    assert ApplyLine(b, [c], l).Done?;
    assert [c][0] == c && !AllRecover(b, [c], [l]);
    KeyedRestartExactly(b, [c], [l]);
  }

  // ---- when a rerun meets the unique key ----

  /** Row j holds the key of the i-th contract's identity, and still does once the lines before p are read again. */
  ghost predicate Blocks(b: Batch, t: Table, lines: seq<FileLine>, i: nat, j: nat, p: nat)
    requires i < |t| && j < |t| && p <= |lines|
  {
    && t[j].key == KeyOf(IdentityOf(t[i], b.creditorOf))
    && (Sole(t, b.creditorOf, j) && !HoldsKey(b, t[j]) ==> LeavesKey(b, t[j], lines[..p]))
  }

  /** No row holds the key that a rerun writes too early: that of a row which its dated first line only wakes. */
  ghost predicate KeyFree(b: Batch, t: Table, lines: seq<FileLine>) {
    forall i, j, p ::
      && 0 <= i < |t| && 0 <= j < |t| && i != j && 0 <= p < |lines|
      && Sole(t, b.creditorOf, i) && Rekeyed(b, t[i], lines, p)
      ==> !Blocks(b, t, lines, i, j, p)
  }

  /** What is known of the table once the run is over: the keys of rows that a rerun rewrites, and of created rows. */
  ghost predicate EndsKeyed(b: Batch, t: Table, lines: seq<FileLine>, final: Table) {
    && |t| <= |final| && UniqueKeys(final) && SameIdentities(b, t, final)
    && (forall i, p :: 0 <= i < |t| && 0 <= p < |lines| && Sole(t, b.creditorOf, i) && Rekeyed(b, t[i], lines, p) ==>
          HoldsKey(b, final[i]))
  }

  lemma RunEndsKeyed(b: Batch, t: Table, lines: seq<FileLine>)
    requires UniqueKeys(t) && RunLines(b, t, lines).Finished? && AllRecover(b, t, lines)
    ensures EndsKeyed(b, t, lines, RunLines(b, t, lines).table)
  {
    var final := RunLines(b, t, lines).table;
    Created(b, t, lines);
    RunKeepsUniqueKeys(b, t, lines);
    hide RunLines, FoldRow, Touch, HoldsKey;
    forall i, p | 0 <= i < |t| && 0 <= p < |lines| && Sole(t, b.creditorOf, i) && Rekeyed(b, t[i], lines, p)
      ensures HoldsKey(b, final[i])
    {
      RunRows(b, t, lines, i);
      RecoveredKey(b, t[i], lines, p);
    }
  }

  /** A key once written stays, and created rows have theirs. */
  lemma KeysLast(b: Batch, t: Table, lines: seq<FileLine>, n: nat)
    requires n <= |lines| && RunLines(b, t, lines).Finished? && RunLines(b, t, lines[..n]).Finished?
    ensures var t1, final := Committed(b, t, lines, n), RunLines(b, t, lines).table;
            && |t| <= |t1| <= |final| && SameIdentities(b, t1, final)
            && (forall i :: 0 <= i < |t1| && HoldsKey(b, t1[i]) ==> HoldsKey(b, final[i]))
            && (forall i :: |t| <= i < |t1| ==> HoldsKey(b, t1[i]))
            && (forall i :: 0 <= i < |t1| ==> final[i].key == t1[i].key || HoldsKey(b, final[i]))
  {
    var t1 := Committed(b, t, lines, n);
    RunSplit(b, t, lines, n);
    Created(b, t, lines[..n]);
    Created(b, t1, lines[n..]);
    CreatedKeys(b, t, lines[..n]);
    hide RunLines, FoldRow, HoldsKey;
    forall i | 0 <= i < |t1|
      ensures HoldsKey(b, t1[i]) ==> HoldsKey(b, RunLines(b, t, lines).table[i])
      ensures RunLines(b, t, lines).table[i].key == t1[i].key || HoldsKey(b, RunLines(b, t, lines).table[i])
    {
      RunRows(b, t1, lines[n..], i);
      FoldKey(b, t1[i], lines[n..]);
    }
  }

  lemma {:induction false} CreatedKeys(b: Batch, t: Table, lines: seq<FileLine>)
    requires RunLines(b, t, lines).Finished?
    ensures var t' := RunLines(b, t, lines).table; forall i :: |t| <= i < |t'| ==> HoldsKey(b, t'[i])
  {
    if lines != [] {
      var n := |lines| - 1;
      CreatedKeys(b, t, lines[..n]);
      var mid := RunLines(b, t, lines[..n]).table;
      hide ApplyLine, Touch, Sole, HoldsKey;
      ApplyLineFrame(b, mid, lines[n]);
      NewHoldsKey(b, lines[n]);
      forall i | 0 <= i < |mid| && HoldsKey(b, mid[i])
        ensures HoldsKey(b, Touch(b, mid[i], lines[n]))
      {
        TouchKey(b, mid[i], lines[n]);
      }
    }
  }

  lemma NewHoldsKey(b: Batch, l: FileLine)
    ensures HoldsKey(b, NewContract(b, l))
  {
  }

  /** A line goes through if the row it matches keeps its key, or no other row holds the key it writes. */
  lemma GoesThrough(b: Batch, t: Table, l: FileLine, i: nat)
    requires UniqueKeys(t) && i < |t| && HitBy(b, t[i], l)
    requires Sole(t, b.creditorOf, i) && Touch(b, t[i], l).key != t[i].key ==>
               forall j :: 0 <= j < |t| && j != i ==> t[j].key != Touch(b, t[i], l).key
    ensures ApplyLine(b, t, l).Done?
  {
    var m := Matches(t, b.creditorOf, LineIdentity(b, l));
    assert i in m;
    MatchesOne(t, b.creditorOf, LineIdentity(b, l));
    if |m| == 1 {
      assert m[0] == i;
      assert Touch(b, t[i], l).key == t[i].key || !KeyHeldByOther(t, i, Touch(b, t[i], l).key);
      assert !KeyHeldByOther(t, i, t[i].key);
    }
  }

  /** In a replay, whoever holds the key that row i is about to get holds it for good, or blocks it. */
  lemma NobodyHolds(b: Batch, t: Table, lines: seq<FileLine>, n: nat, k: nat, i: nat, j: nat, final: Table)
    requires k < n <= |lines| && RunLines(b, t, lines).Finished? && RunLines(b, t, lines[..n]).Finished?
    requires final == RunLines(b, t, lines).table && EndsKeyed(b, t, lines, final) && KeyFree(b, t, lines)
    requires RunLines(b, Committed(b, t, lines, n), lines[..k]).Finished?
    requires i < |t| && Sole(t, b.creditorOf, i) && Rekeyed(b, t[i], lines, k)
    requires var s := RunLines(b, Committed(b, t, lines, n), lines[..k]).table;
             j < |s| == |Committed(b, t, lines, n)| && j != i
    ensures RunLines(b, Committed(b, t, lines, n), lines[..k]).table[j].key != KeyOf(IdentityOf(t[i], b.creditorOf))
  {
    var t1 := Committed(b, t, lines, n);
    var s := RunLines(b, t1, lines[..k]).table;
    KeysLast(b, t, lines, n);
    RunRows(b, t1, lines[..k], j);
    assert HoldsKey(b, final[i]) && IdentityOf(final[i], b.creditorOf) == IdentityOf(t[i], b.creditorOf);
    assert final[j].key != final[i].key;
    FoldKey(b, t1[j], lines[..k]);
    if j < |t| {
      RunRows(b, t, lines[..n], j);
      FoldKey(b, t[j], lines[..n]);
      if Sole(t, b.creditorOf, j) {
        if HoldsKey(b, s[j]) {
          if !HoldsKey(b, t1[j]) {
            ReplayKeyed(b, t[j], lines, n, k);
          }
        } else {
          ReplayLeaves(b, t[j], lines, n, k);
          assert !Blocks(b, t, lines, i, j, k);
        }
      } else {
        RunRows(b, t, lines, j);
      }
    }
  }

  /** With nobody in the way, the committed lines can be read again. */
  lemma {:induction false} ReplayGoesThrough(b: Batch, t: Table, lines: seq<FileLine>, n: nat, k: nat, final: Table)
    requires UniqueKeys(t) && k <= n <= |lines| && RunLines(b, t, lines).Finished? && RunLines(b, t, lines[..n]).Finished?
    requires final == RunLines(b, t, lines).table && EndsKeyed(b, t, lines, final) && KeyFree(b, t, lines)
    ensures var t1 := Committed(b, t, lines, n);
            && RunLines(b, t1, lines[..k]).Finished?
            && |RunLines(b, t1, lines[..k]).table| == |t1| && UniqueKeys(RunLines(b, t1, lines[..k]).table)
  {
    var t1 := Committed(b, t, lines, n);
    RunKeepsUniqueKeys(b, t, lines[..n]);
    if k > 0 {
      ReplayGoesThrough(b, t, lines, n, k - 1, final);
      assert lines[..k][..k - 1] == lines[..k - 1] && lines[..k][k - 1] == lines[k - 1];
      hide RunLines, KeyFree, EndsKeyed, UniqueKeys, ApplyLine;
      var s := RunLines(b, t1, lines[..k - 1]).table;
      ReplayLine(b, t, lines, n, k - 1, final);
      ApplyLineKeys(b, s, lines[k - 1]);
      CommittedAnswered(b, t, lines, n, k);
      assert RunLines(b, t1, lines[..k]).Finished? by {
        RunSnoc(b, t1, lines[..k]);
      }
      RunSnoc(b, t1, lines[..k]);
      CreatesNothing(b, t1, lines[..k]);
    }
  }

  lemma RunSnoc(b: Batch, t: Table, lines: seq<FileLine>)
    requires lines != [] && RunLines(b, t, lines[..|lines| - 1]).Finished?
    ensures var last := ApplyLine(b, RunLines(b, t, lines[..|lines| - 1]).table, lines[|lines| - 1]);
            && (RunLines(b, t, lines).Finished? <==> last.Done?)
            && (last.Done? ==> RunLines(b, t, lines).table == last.table)
  {
  }

  lemma CommittedAnswered(b: Batch, t: Table, lines: seq<FileLine>, n: nat, k: nat)
    requires k <= n <= |lines| && RunLines(b, t, lines[..n]).Finished?
    ensures AllAnswered(b, Committed(b, t, lines, n), lines[..k])
  {
    Created(b, t, lines[..n]);
    hide RunLines;
    assert forall p :: 0 <= p < k ==> lines[..k][p] == lines[..n][p];
  }

  lemma ReplayLine(b: Batch, t: Table, lines: seq<FileLine>, n: nat, k: nat, final: Table)
    requires k < n <= |lines| && RunLines(b, t, lines).Finished? && RunLines(b, t, lines[..n]).Finished?
    requires final == RunLines(b, t, lines).table && EndsKeyed(b, t, lines, final) && KeyFree(b, t, lines)
    requires var t1 := Committed(b, t, lines, n);
             && RunLines(b, t1, lines[..k]).Finished?
             && |RunLines(b, t1, lines[..k]).table| == |t1| && UniqueKeys(RunLines(b, t1, lines[..k]).table)
    ensures ApplyLine(b, RunLines(b, Committed(b, t, lines, n), lines[..k]).table, lines[k]).Done?
  {
    var t1 := Committed(b, t, lines, n);
    var s, l := RunLines(b, t1, lines[..k]).table, lines[k];
    if l.dueDate.Some? {
      CommittedAnswered(b, t, lines, n, n);
      assert Answered(b, t1, lines[..n][k]);
      assert AllAnswered(b, t1, lines[..k]) by {
        CommittedAnswered(b, t, lines, n, k);
      }
      CreatesNothing(b, t1, lines[..k]);
      AnsweredStays(b, t1, s, l);
      var i :| 0 <= i < |s| && HitBy(b, s[i], l);
      RunRows(b, t1, lines[..k], i);
      KeysLast(b, t, lines, n);
      hide RunLines, KeyFree, EndsKeyed, ApplyLine, UniqueKeys;
      if Sole(s, b.creditorOf, i) && Touch(b, s[i], l).key != s[i].key {
        TouchKey(b, s[i], l);
        FoldKey(b, t1[i], lines[..k]);
        assert i < |t|;
        RunRows(b, t, lines[..n], i);
        FoldKey(b, t[i], lines[..n]);
        ReplayWrites(b, t[i], lines, n, k);
        forall j | 0 <= j < |s| && j != i
          ensures s[j].key != Touch(b, s[i], l).key
        {
          NobodyHolds(b, t, lines, n, k, i, j, final);
        }
      }
      GoesThrough(b, s, l, i);
    }
  }

  /** An uninterrupted run and a rerun, line by line: the same rows, or rows that have their key for good. */
  ghost predicate Twins(b: Batch, t: Table, s: Table, final: Table) {
    && |s| == |t| <= |final| && SameIdentities(b, t, s) && UniqueKeys(t) && UniqueKeys(s)
    && forall i :: 0 <= i < |t| ==> s[i] == t[i] || (HoldsKey(b, s[i]) && HoldsKey(b, final[i]))
  }

  lemma TwinStep(b: Batch, t: Table, s: Table, l: FileLine, final: Table)
    requires Twins(b, t, s, final) && ApplyLine(b, t, l).Done? && UniqueKeys(final)
    requires var t' := ApplyLine(b, t, l).table;
             && |t'| <= |final| && SameIdentities(b, t', final)
             && forall i :: 0 <= i < |t'| && HoldsKey(b, t'[i]) ==> HoldsKey(b, final[i])
    ensures ApplyLine(b, s, l).Done? && Twins(b, ApplyLine(b, t, l).table, ApplyLine(b, s, l).table, final)
  {
    TwinDone(b, t, s, l, final);
    hide ApplyLine, Sole, Touch, HoldsKey, UniqueKeys, NewContract, IdentityOf;
    ApplyLineFrame(b, s, l);
    ApplyLineFrame(b, t, l);
    ApplyLineKeys(b, t, l);
    ApplyLineKeys(b, s, l);
    SameGrowthLine(b, t, s, l);
    forall i | 0 <= i < |s|
      ensures HoldsKey(b, s[i]) ==> HoldsKey(b, Touch(b, s[i], l))
    {
      TouchKey(b, s[i], l);
    }
  }

  lemma TwinDone(b: Batch, t: Table, s: Table, l: FileLine, final: Table)
    requires Twins(b, t, s, final) && ApplyLine(b, t, l).Done? && UniqueKeys(final)
    requires var t' := ApplyLine(b, t, l).table;
             && |t'| <= |final| && SameIdentities(b, t', final)
             && forall i :: 0 <= i < |t'| && HoldsKey(b, t'[i]) ==> HoldsKey(b, final[i])
    ensures ApplyLine(b, s, l).Done?
  {
    if l.dueDate.Some? {
      if i :| 0 <= i < |t| && HitBy(b, t[i], l) {
        TwinMatched(b, t, s, l, final, i);
      } else {
        TwinCreates(b, t, s, l, final);
      }
    }
  }

  lemma TwinMatched(b: Batch, t: Table, s: Table, l: FileLine, final: Table, i: nat)
    requires Twins(b, t, s, final) && ApplyLine(b, t, l).Done? && UniqueKeys(final) && i < |t| && HitBy(b, t[i], l)
    requires var t' := ApplyLine(b, t, l).table;
             && |t'| <= |final| && SameIdentities(b, t', final)
             && forall i :: 0 <= i < |t'| && HoldsKey(b, t'[i]) ==> HoldsKey(b, final[i])
    ensures ApplyLine(b, s, l).Done?
  {
    var t' := ApplyLine(b, t, l).table;
    ApplyLineFrame(b, t, l);
    ApplyLineKeys(b, t, l);
    SameSole(b, t, s);
    hide ApplyLine;
    TouchKey(b, s[i], l);
    if Sole(s, b.creditorOf, i) && Touch(b, s[i], l).key != s[i].key {
      assert s[i] == t[i] && t'[i] == Touch(b, t[i], l);
      forall j | 0 <= j < |s| && j != i
        ensures s[j].key != Touch(b, s[i], l).key
      {
        assert !Hit(t[j], b.creditorOf, LineIdentity(b, l));
        assert t'[j] == t[j] && t'[j].key != t'[i].key && final[j].key != final[i].key;
      }
    }
    GoesThrough(b, s, l, i);
  }

  lemma TwinCreates(b: Batch, t: Table, s: Table, l: FileLine, final: Table)
    requires Twins(b, t, s, final) && ApplyLine(b, t, l).Done? && UniqueKeys(final) && l.dueDate.Some?
    requires forall i :: 0 <= i < |t| ==> !HitBy(b, t[i], l)
    requires var t' := ApplyLine(b, t, l).table;
             && |t'| <= |final| && SameIdentities(b, t', final)
             && forall i :: 0 <= i < |t'| && HoldsKey(b, t'[i]) ==> HoldsKey(b, final[i])
    ensures ApplyLine(b, s, l).Done?
  {
    var t', id := ApplyLine(b, t, l).table, LineIdentity(b, l);
    ApplyLineFrame(b, t, l);
    NewHoldsKey(b, l);
    NewIdentity(b, l);
    ApplyLineKeys(b, t, l);
    assert t' == t + [NewContract(b, l)] && t'[|t|] == NewContract(b, l);
    forall j | 0 <= j < |s|
      ensures s[j].key != KeyOf(id) && !Hit(s[j], b.creditorOf, id)
    {
      assert !HitBy(b, t[j], l);
      assert t'[j] == t[j] && t'[j].key != t'[|t|].key && final[j].key != final[|t|].key;
    }
    NoMatch(s, b.creditorOf, id);
  }

  lemma {:induction false} NoMatch(t: Table, creditorOf: CreditorOf, id: Identity)
    requires forall i :: 0 <= i < |t| ==> !Hit(t[i], creditorOf, id)
    ensures Matches(t, creditorOf, id) == []
  {
    if t != [] {
      hide Hit;
      NoMatch(t[..|t| - 1], creditorOf, id);
    }
  }

  lemma {:induction false} TwinRun(b: Batch, t: Table, s: Table, lines: seq<FileLine>, k: nat, final: Table)
    requires k <= |lines| && RunLines(b, t, lines).Finished? && final == RunLines(b, t, lines).table && UniqueKeys(final)
    requires Twins(b, t, s, final)
    ensures RunLines(b, s, lines[..k]).Finished? && RunLines(b, t, lines[..k]).Finished?
    ensures Twins(b, RunLines(b, t, lines[..k]).table, RunLines(b, s, lines[..k]).table, final)
  {
    RunSplit(b, t, lines, k);
    if k > 0 {
      TwinRun(b, t, s, lines, k - 1, final);
      assert lines[..k][..k - 1] == lines[..k - 1] && lines[..k][k - 1] == lines[k - 1];
      RunSnoc(b, t, lines[..k]);
      KeysLast(b, t, lines, k);
      hide RunLines, Twins, UniqueKeys, HoldsKey, IdentityOf, ApplyLine;
      TwinStep(b, RunLines(b, t, lines[..k - 1]).table, RunLines(b, s, lines[..k - 1]).table, lines[k - 1], final);
      RunSnoc(b, s, lines[..k]);
    }
  }

  /** If every unsettled contract recovers and no row holds a key too early, every rerun finishes. */
  lemma RerunFinishes(b: Batch, t: Table, lines: seq<FileLine>, n: nat)
    requires UniqueKeys(t) && n <= |lines| && RunLines(b, t, lines).Finished? && RunLines(b, t, lines[..n]).Finished?
    requires AllRecover(b, t, lines) && KeyFree(b, t, lines)
    ensures RunLines(b, Committed(b, t, lines, n), lines).Finished?
  {
    var t1, final := Committed(b, t, lines, n), RunLines(b, t, lines).table;
    RunEndsKeyed(b, t, lines);
    ReplayGoesThrough(b, t, lines, n, n, final);
    RunSplit(b, t, lines, n);
    RunSplit(b, t1, lines, n);
    RunKeepsUniqueKeys(b, t, lines[..n]);
    ReplayTwins(b, t, lines, n, final);
    hide RunLines, Twins, UniqueKeys, KeyFree, AllRecover;
    assert lines[n..][..|lines| - n] == lines[n..];
    TwinRun(b, t1, RunLines(b, t1, lines[..n]).table, lines[n..], |lines| - n, final);
  }

  lemma ReplayTwins(b: Batch, t: Table, lines: seq<FileLine>, n: nat, final: Table)
    requires n <= |lines| && RunLines(b, t, lines).Finished? && RunLines(b, t, lines[..n]).Finished?
    requires final == RunLines(b, t, lines).table && EndsKeyed(b, t, lines, final)
    requires UniqueKeys(Committed(b, t, lines, n)) && RunLines(b, Committed(b, t, lines, n), lines[..n]).Finished?
    requires UniqueKeys(RunLines(b, Committed(b, t, lines, n), lines[..n]).table)
    ensures Twins(b, Committed(b, t, lines, n), RunLines(b, Committed(b, t, lines, n), lines[..n]).table, final)
  {
    var t1 := Committed(b, t, lines, n);
    var s := RunLines(b, t1, lines[..n]).table;
    ReplayCommitted(b, t, lines[..n]);
    KeysLast(b, t, lines, n);
    hide RunLines, UniqueKeys, HoldsKey, FoldRow, Sole, Rekeyed;
    forall i | 0 <= i < |t1|
      ensures s[i] == t1[i] || (HoldsKey(b, s[i]) && HoldsKey(b, final[i]))
    {
      if i < |t| {
        RunRows(b, t, lines[..n], i);
        RunRows(b, t1, lines[..n], i);
        if Sole(t, b.creditorOf, i) {
          SoleLives(b, t, i);
          ReplayStale(b, t[i], lines, n);
          if s[i] != t1[i] && !HoldsKey(b, t1[i]) {
            ReplayKeyed(b, t[i], lines, n, n);
          }
        }
      }
    }
  }

  lemma SoleLives(b: Batch, t: Table, i: nat)
    requires i < |t| && Sole(t, b.creditorOf, i)
    ensures !t[i].deleted
  {
  }

  /** A blocked row meets the unique key when the run is restarted right behind its first line. */
  lemma BlockedAborts(b: Batch, t: Table, lines: seq<FileLine>, i: nat, j: nat, p: nat)
    requires i < |t| && j < |t| && i != j && p < |lines| && RunLines(b, t, lines[..p + 1]).Finished?
    requires Sole(t, b.creditorOf, i) && Rekeyed(b, t[i], lines, p) && !HoldsKey(b, t[i]) && Blocks(b, t, lines, i, j, p)
    ensures RunLines(b, Committed(b, t, lines, p + 1), lines).Aborted?
  {
    hide RunLines, Touch, Rekeyed, Blocks, HitBy, HoldsKey, Terminal, FoldRow, IdentityOf, KeyOf, Sole, ApplyLine, Reactivate;
    var t1 := Committed(b, t, lines, p + 1);
    RunSplit(b, t1, lines, p + 1);
    RunSplit(b, t1, lines[..p + 1], p);
    assert lines[..p + 1][..p] == lines[..p] && lines[..p + 1][p] == lines[p];
    if RunLines(b, t1, lines[..p]).Finished? {
      RunSnoc(b, t1, lines[..p + 1]);
      var s := RunLines(b, t1, lines[..p]).table;
      BlockedRow(b, t, lines, i, p);
      BlockingRow(b, t, lines, i, j, p);
      RunRows(b, t, lines[..p + 1], i);
      RunRows(b, t1, lines[..p], i);
      BlockedKey(b, t[i], lines, p);
      MeetsKey(b, s, lines[p], i, j);
    }
  }

  lemma BlockedRow(b: Batch, t: Table, lines: seq<FileLine>, i: nat, p: nat)
    requires i < |t| && p < |lines| && Sole(t, b.creditorOf, i) && Rekeyed(b, t[i], lines, p) && !HoldsKey(b, t[i])
    ensures var w := FoldRow(b, FoldRow(b, t[i], lines[..p + 1]), lines[..p]);
            && w == Reactivate(t[i]) && HoldsKey(b, Touch(b, w, lines[p])) && !HoldsKey(b, w)
            && HitBy(b, w, lines[p]) && !Terminal(w)
  {
    var c, id := t[i], IdentityOf(t[i], b.creditorOf);
    FoldToFirst(b, c, lines, p);
    FirstLineKey(b, c, id, lines[p]);
    FoldOthers(b, Reactivate(c), lines[..p]);
    WokenWithoutDate(b, c, id, lines[p]);
    TouchInPlace(b, Reactivate(c), id, lines[p]);
    OverwriteAgain(b, Reactivate(c), id, lines[p]);
    hide FoldRow;
  }

  lemma BlockedKey(b: Batch, c: Contract, lines: seq<FileLine>, p: nat)
    requires p < |lines|
    ensures var c' := Touch(b, FoldRow(b, FoldRow(b, c, lines[..p + 1]), lines[..p]), lines[p]);
            HoldsKey(b, c') ==> c'.key == KeyOf(IdentityOf(c, b.creditorOf))
  {
    hide FoldRow, Touch;
    var v := FoldRow(b, c, lines[..p + 1]);
    FoldKey(b, c, lines[..p + 1]);
    FoldKey(b, v, lines[..p]);
    TouchKey(b, FoldRow(b, v, lines[..p]), lines[p]);
  }

  lemma BlockingRow(b: Batch, t: Table, lines: seq<FileLine>, i: nat, j: nat, p: nat)
    requires i < |t| && j < |t| && i != j && p < |lines| && Sole(t, b.creditorOf, i) && Rekeyed(b, t[i], lines, p)
    requires Blocks(b, t, lines, i, j, p) && RunLines(b, t, lines[..p + 1]).Finished?
    requires RunLines(b, Committed(b, t, lines, p + 1), lines[..p]).Finished?
    ensures var s := RunLines(b, Committed(b, t, lines, p + 1), lines[..p]).table;
            j < |s| && s[j].key == KeyOf(IdentityOf(t[i], b.creditorOf))
  {
    var c := t[j];
    var t1 := Committed(b, t, lines, p + 1);
    RunRows(b, t, lines[..p + 1], j);
    RunRows(b, t1, lines[..p], j);
    if Sole(t, b.creditorOf, j) {
      FoldKey(b, c, lines[..p + 1]);
      FoldKey(b, t1[j], lines[..p]);
      if !HoldsKey(b, c) {
        LeavesTwice(b, c, lines[..p]);
        assert !Addressed(b, IdentityOf(c, b.creditorOf), lines[p]);
        assert lines[..p + 1][..p] == lines[..p] && lines[..p + 1][p] == lines[p];
        PassesBy(b, c, lines, p);
      }
    }
  }

  lemma PassesBy(b: Batch, c: Contract, lines: seq<FileLine>, p: nat)
    requires p < |lines| && !Addressed(b, IdentityOf(c, b.creditorOf), lines[p])
    ensures FoldRow(b, c, lines[..p + 1]) == FoldRow(b, c, lines[..p])
  {
    assert lines[..p + 1][..p] == lines[..p] && lines[..p + 1][p] == lines[p];
    FoldKey(b, c, lines[..p]);
  }

  lemma MeetsKey(b: Batch, s: Table, l: FileLine, i: nat, j: nat)
    requires i < |s| && j < |s| && i != j && Sole(s, b.creditorOf, i) && HitBy(b, s[i], l) && !Terminal(s[i])
    requires HoldsKey(b, Touch(b, s[i], l)) && s[j].key == Touch(b, s[i], l).key
    ensures ApplyLine(b, s, l).UniqueViolation?
  {
    MatchesOne(s, b.creditorOf, LineIdentity(b, l));
    assert Matches(s, b.creditorOf, LineIdentity(b, l)) == [i];
  }

  /**
   For every file that finishes, repeats included: restarting agrees after every committed prefix exactly when the later
   lines of every unsettled contract make up for its first one, and no row stands in the way of a key that a rerun writes
   earlier than the run did.
   */
  lemma RestartExactly(b: Batch, t: Table, lines: seq<FileLine>)
    requires UniqueKeys(t) && RunLines(b, t, lines).Finished?
    ensures (forall n :: 0 <= n <= |lines| ==> RestartAgrees(b, t, lines, n)) <==>
            AllRecover(b, t, lines) && KeyFree(b, t, lines)
  {
    RestartByRerun(b, t, lines);
    hide RunLines, AllRecover, RestartAgrees;
    if AllRecover(b, t, lines) && KeyFree(b, t, lines) {
      forall n | 0 <= n <= |lines|
        ensures RunLines(b, Committed(b, t, lines, n), lines).Finished?
      {
        RerunFinishes(b, t, lines, n);
      }
    }
    if forall n :: 0 <= n <= |lines| ==> RestartAgrees(b, t, lines, n) {
      forall i, j, p | && 0 <= i < |t| && 0 <= j < |t| && i != j && 0 <= p < |lines|
                       && Sole(t, b.creditorOf, i) && Rekeyed(b, t[i], lines, p)
        ensures !Blocks(b, t, lines, i, j, p)
      {
        if Blocks(b, t, lines, i, j, p) {
          assert !HoldsKey(b, t[i]) by {
            assert t[i].key != t[j].key;
          }
          BlockedAborts(b, t, lines, i, j, p);
        }
      }
    }
  }

  /** Every suspended contract has at most one line in the file. */
  ghost predicate OneLineEach(b: Batch, t: Table, lines: seq<FileLine>) {
    forall i, p, q ::
      && 0 <= i < |t| && 0 <= p < q < |lines| && t[i].status.Suspended? && Addressed(b, IdentityOf(t[i], b.creditorOf), lines[p])
      ==> !Addressed(b, IdentityOf(t[i], b.creditorOf), lines[q])
  }

  /** A file with at most one line for each suspended contract may be restarted exactly when it is safe, or aborts anyway. */
  lemma SafeExactly(b: Batch, t: Table, lines: seq<FileLine>)
    requires UniqueKeys(t) && Keyed(b, t, lines) && OneLineEach(b, t, lines)
    ensures (forall n :: 0 <= n <= |lines| ==> RestartAgrees(b, t, lines, n)) <==>
            RunLines(b, t, lines).Aborted? || Safe(b, t, lines)
  {
    KeyedRestartExactly(b, t, lines);
    RecoverMeansSafe(b, t, lines);
  }

  lemma RecoverMeansSafe(b: Batch, t: Table, lines: seq<FileLine>)
    requires OneLineEach(b, t, lines)
    ensures AllRecover(b, t, lines) <==> Safe(b, t, lines)
  {
    hide Recovers, Restartable, Addressed, Terminal, IdentityOf;
    forall i, p | 0 <= i < |t| && 0 <= p < |lines| && Sole(t, b.creditorOf, i) && Unsettled(b, t[i], lines, p)
      ensures !Recovers(b, t[i], lines, p)
    {
      var id, rest := IdentityOf(t[i], b.creditorOf), lines[p + 1..];
      forall q | 0 <= q < |rest|
        ensures !Addressed(b, id, rest[q])
      {
        assert rest[q] == lines[p + 1 + q];
      }
      OnlyLineNeverRecovers(b, t[i], lines, p);
    }
    forall i, p | && 0 <= i < |t| && 0 <= p < |lines|
                  && Sole(t, b.creditorOf, i) && !Terminal(t[i]) && t[i].status.Suspended?
                  && Addressed(b, IdentityOf(t[i], b.creditorOf), lines[p])
                  && !AnyAddressed(b, IdentityOf(t[i], b.creditorOf), lines[..p])
      ensures Restartable(b, t[i], lines[p]) <==> !Unsettled(b, t[i], lines, p)
    {
    }
  }
}
