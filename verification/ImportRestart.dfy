/**
 The table under a file that is run again from some prefix: a rerun creates the same rows, and differs from one
 uninterrupted run only in contracts for which restarting does not agree.
 */
module ImportRestart {
  import opened ContractTable
  import opened ImportEngine
  import opened ImportRetry
  import opened ImportRow

  // ---- the table ----

  /** The rows that a run creates are settled, and every line of the run has its row. */
  lemma {:induction false} Created(b: Batch, t: Table, lines: seq<FileLine>)
    requires RunLines(b, t, lines).Finished?
    ensures var t' := RunLines(b, t, lines).table;
            && SameIdentities(b, t, t') && AllAnswered(b, t', lines)
            && forall i :: |t| <= i < |t'| ==>
                 Sole(t', b.creditorOf, i) && Settled(b, t'[i], IdentityOf(t'[i], b.creditorOf), lines)
  {
    hide ApplyLine, Sole, Settled, HitBy, IdentityOf;
    if lines != [] {
      var n := |lines| - 1;
      Created(b, t, lines[..n]);
      CreatedSnoc(b, t, lines[..n], lines[n], RunLines(b, t, lines[..n]).table);
      assert lines == lines[..n] + [lines[n]];
    }
  }

  lemma CreatedSnoc(b: Batch, t: Table, ms: seq<FileLine>, l: FileLine, mid: Table)
    requires ApplyLine(b, mid, l).Done? && SameIdentities(b, t, mid) && AllAnswered(b, mid, ms)
    requires forall i :: |t| <= i < |mid| ==>
               Sole(mid, b.creditorOf, i) && Settled(b, mid[i], IdentityOf(mid[i], b.creditorOf), ms)
    ensures var t' := ApplyLine(b, mid, l).table;
            && SameIdentities(b, t, t') && AllAnswered(b, t', ms + [l])
            && forall i :: |t| <= i < |t'| ==>
                 Sole(t', b.creditorOf, i) && Settled(b, t'[i], IdentityOf(t'[i], b.creditorOf), ms + [l])
  {
    hide ApplyLine, Touch, Settled, Sole, HitBy, LineIdentity;
    var t' := ApplyLine(b, mid, l).table;
    ApplyLineFrame(b, mid, l);
    SoleStable(b, mid, l);
    forall i | |t| <= i < |t'|
      ensures Sole(t', b.creditorOf, i) && Settled(b, t'[i], IdentityOf(t'[i], b.creditorOf), ms + [l])
    {
      if i < |mid| {
        TouchKeepsIdentity(b, mid[i], l);
        SettledSnoc(b, mid[i], IdentityOf(mid[i], b.creditorOf), ms, l);
      } else {
        NewIdentity(b, l);
        SettledNew(b, ms, l, mid);
      }
    }
    forall p | 0 <= p < |ms + [l]| && (ms + [l])[p].dueDate.Some?
      ensures Answered(b, t', (ms + [l])[p])
    {
      if p < |ms| {
        assert Answered(b, mid, ms[p]);
        AnsweredStays(b, mid, t', ms[p]);
      }
    }
  }

  lemma NewIdentity(b: Batch, l: FileLine)
    ensures IdentityOf(NewContract(b, l), b.creditorOf) == LineIdentity(b, l) && !NewContract(b, l).deleted
  {
  }

  lemma AnsweredStays(b: Batch, t: Table, t': Table, l: FileLine)
    requires Answered(b, t, l) && SameIdentities(b, t, t')
    ensures Answered(b, t', l)
  {
    var i :| 0 <= i < |t| && HitBy(b, t[i], l);
    assert HitBy(b, t'[i], l);
  }

  /** Lines that all have their rows create nothing. */
  lemma {:induction false} CreatesNothing(b: Batch, t: Table, lines: seq<FileLine>)
    requires AllAnswered(b, t, lines) && RunLines(b, t, lines).Finished?
    ensures |RunLines(b, t, lines).table| == |t| && SameIdentities(b, t, RunLines(b, t, lines).table)
  {
    if lines != [] {
      hide ApplyLine, HitBy, Sole, Touch, IdentityOf, NewContract;
      var n := |lines| - 1;
      assert AllAnswered(b, t, lines[..n]);
      CreatesNothing(b, t, lines[..n]);
      var mid := RunLines(b, t, lines[..n]).table;
      ApplyLineFrame(b, mid, lines[n]);
      if lines[n].dueDate.Some? {
        assert Answered(b, t, lines[n]);
        AnsweredStays(b, t, mid, lines[n]);
      }
    }
  }

  /** Tables with the same identities grow by the same rows. */
  lemma {:induction false} SameGrowth(b: Batch, t: Table, s: Table, lines: seq<FileLine>)
    requires |s| == |t| && SameIdentities(b, t, s)
    requires RunLines(b, t, lines).Finished? && RunLines(b, s, lines).Finished?
    ensures var t', s' := RunLines(b, t, lines).table, RunLines(b, s, lines).table;
            && |s'| == |t'| && SameIdentities(b, t', s')
            && (forall i :: 0 <= i < |t'| ==> (Sole(t', b.creditorOf, i) <==> Sole(s', b.creditorOf, i)))
            && (forall i :: 0 <= i < |t'| && (i < |t| ==> s[i] == t[i]) ==> s'[i] == t'[i])
  {
    if lines != [] {
      var n := |lines| - 1;
      SameGrowth(b, t, s, lines[..n]);
      SameGrowthLine(b, RunLines(b, t, lines[..n]).table, RunLines(b, s, lines[..n]).table, lines[n]);
    }
    SameSole(b, RunLines(b, t, lines).table, RunLines(b, s, lines).table);
  }

  lemma SameSole(b: Batch, t: Table, s: Table)
    requires |s| == |t| && SameIdentities(b, t, s)
    ensures forall i :: 0 <= i < |t| ==> (Sole(t, b.creditorOf, i) <==> Sole(s, b.creditorOf, i))
  {
    forall i, id | 0 <= i < |t|
      ensures Hit(t[i], b.creditorOf, id) <==> Hit(s[i], b.creditorOf, id)
    {
    }
  }

  lemma SameGrowthLine(b: Batch, t: Table, s: Table, l: FileLine)
    requires |s| == |t| && SameIdentities(b, t, s) && ApplyLine(b, t, l).Done? && ApplyLine(b, s, l).Done?
    ensures var t', s' := ApplyLine(b, t, l).table, ApplyLine(b, s, l).table;
            && |s'| == |t'| && SameIdentities(b, t', s')
            && (forall i :: 0 <= i < |t'| && (i < |t| ==> s[i] == t[i]) ==> s'[i] == t'[i])
  {
    hide ApplyLine, Sole, Touch, NewContract;
    ApplyLineFrame(b, t, l);
    ApplyLineFrame(b, s, l);
    SameSole(b, t, s);
    assert forall i :: 0 <= i < |t| ==> (HitBy(b, t[i], l) <==> HitBy(b, s[i], l));
  }

  // ---- restarting after n lines ----

  /** The table a crash behind n committed lines leaves. */
  function Committed(b: Batch, t: Table, lines: seq<FileLine>, n: nat): Table
    requires n <= |lines| && RunLines(b, t, lines[..n]).Finished?
  {
    RunLines(b, t, lines[..n]).table
  }

  ghost predicate RestartAgrees(b: Batch, t: Table, lines: seq<FileLine>, n: nat)
    requires n <= |lines|
  {
    RunLines(b, t, lines[..n]).Finished? ==>
      RunLines(b, Committed(b, t, lines, n), lines).Result() == RunLines(b, t, lines).Result()
  }

  /** Replaying the committed lines creates nothing and leaves the rows they had created as they are. */
  lemma ReplayCommitted(b: Batch, t: Table, lines: seq<FileLine>)
    requires RunLines(b, t, lines).Finished? && RunLines(b, RunLines(b, t, lines).table, lines).Finished?
    ensures var t1 := RunLines(b, t, lines).table;
            var t2 := RunLines(b, t1, lines).table;
            && |t2| == |t1| && SameIdentities(b, t1, t2) && |t| <= |t1|
            && forall i :: |t| <= i < |t1| ==> t2[i] == t1[i]
  {
    var t1 := RunLines(b, t, lines).table;
    var t2 := RunLines(b, t1, lines).table;
    Created(b, t, lines);
    CreatesNothing(b, t1, lines);
    hide RunLines, FoldRow;
    forall i | |t| <= i < |t1|
      ensures t2[i] == t1[i]
    {
      RunRows(b, t1, lines, i);
      SettledReplay(b, t1[i], IdentityOf(t1[i], b.creditorOf), lines, |lines|);
    }
  }

  /** A finished rerun differs from the uninterrupted run only in sole rows for which restarting does not agree. */
  lemma RerunRows(b: Batch, t: Table, lines: seq<FileLine>, n: nat)
    requires n <= |lines| && RunLines(b, t, lines).Finished? && RunLines(b, t, lines[..n]).Finished?
    requires RunLines(b, Committed(b, t, lines, n), lines).Finished?
    ensures var once, again := RunLines(b, t, lines).table, RunLines(b, Committed(b, t, lines, n), lines).table;
            && |t| <= |once| == |again|
            && forall i :: 0 <= i < |once| ==>
                 (again[i] == once[i] <==> (i < |t| && Sole(t, b.creditorOf, i) ==> RowAgrees(b, t[i], lines, n)))
  {
    var t1 := Committed(b, t, lines, n);
    RunSplit(b, t, lines, n);
    RunSplit(b, t1, lines, n);
    ReplayCommitted(b, t, lines[..n]);
    Created(b, t, lines);
    hide RunLines, FoldRow, Sole;
    SameGrowth(b, t1, RunLines(b, t1, lines[..n]).table, lines[n..]);
    var once, again := RunLines(b, t, lines).table, RunLines(b, t1, lines).table;
    forall i | 0 <= i < |t|
      ensures again[i] == once[i] <==> (Sole(t, b.creditorOf, i) ==> RowAgrees(b, t[i], lines, n))
    {
      RunRows(b, t, lines, i);
      RunRows(b, t, lines[..n], i);
      RunRows(b, t1, lines, i);
    }
  }

  /** Every unsettled row of the table is made up for. */
  ghost predicate AllRecover(b: Batch, t: Table, lines: seq<FileLine>) {
    forall i, p :: 0 <= i < |t| && 0 <= p < |lines| && Sole(t, b.creditorOf, i) && Unsettled(b, t[i], lines, p) ==>
      Recovers(b, t[i], lines, p)
  }

  ghost predicate RowsAgree(b: Batch, t: Table, lines: seq<FileLine>, n: nat)
    requires n <= |lines|
  {
    forall i :: 0 <= i < |t| && Sole(t, b.creditorOf, i) ==> RowAgrees(b, t[i], lines, n)
  }

  lemma RowsAgreeExactly(b: Batch, t: Table, lines: seq<FileLine>)
    ensures AllRecover(b, t, lines) <==>
            forall n :: 0 <= n <= |lines| ==> RowsAgree(b, t, lines, n)
  {
    hide RowAgrees, Recovers, Unsettled;
    if AllRecover(b, t, lines) {
      forall i, n | 0 <= i < |t| && Sole(t, b.creditorOf, i) && 0 <= n <= |lines|
        ensures RowAgrees(b, t[i], lines, n)
      {
        if p :| 0 <= p < |lines| && Unsettled(b, t[i], lines, p) {
          RowAgreesExactly(b, t[i], lines, p);
        } else {
          OtherRowsAgree(b, t[i], lines, n);
        }
      }
    }
    forall i, p | && 0 <= i < |t| && 0 <= p < |lines| && Sole(t, b.creditorOf, i) && Unsettled(b, t[i], lines, p)
                  && forall n :: 0 <= n <= |lines| ==> RowsAgree(b, t, lines, n)
      ensures Recovers(b, t[i], lines, p)
    {
      assert forall n :: 0 <= n <= |lines| && RowsAgree(b, t, lines, n) ==> RowAgrees(b, t[i], lines, n);
      RowAgreesExactly(b, t[i], lines, p);
    }
  }

  /**
   For every file that finishes, restarting agrees after every committed prefix exactly when every rerun finishes and every
   unsettled contract is made up for by its later lines.
   */
  lemma RestartByRerun(b: Batch, t: Table, lines: seq<FileLine>)
    requires RunLines(b, t, lines).Finished?
    ensures forall n :: 0 <= n <= |lines| ==> RunLines(b, t, lines[..n]).Finished?
    ensures (forall n :: 0 <= n <= |lines| ==> RestartAgrees(b, t, lines, n)) <==>
            && AllRecover(b, t, lines)
            && forall n :: 0 <= n <= |lines| ==> RunLines(b, Committed(b, t, lines, n), lines).Finished?
  {
    forall n | 0 <= n <= |lines|
      ensures RunLines(b, t, lines[..n]).Finished?
    {
      RunSplit(b, t, lines, n);
    }
    RowsAgreeExactly(b, t, lines);
    hide RunLines, RowsAgree, AllRecover, RestartAgrees;
    forall n | 0 <= n <= |lines|
      ensures RestartAgrees(b, t, lines, n) <==> RunLines(b, Committed(b, t, lines, n), lines).Finished? && RowsAgree(b, t, lines, n)
    {
      RestartByRows(b, t, lines, n);
    }
  }

  lemma RestartByRows(b: Batch, t: Table, lines: seq<FileLine>, n: nat)
    requires n <= |lines| && RunLines(b, t, lines).Finished? && RunLines(b, t, lines[..n]).Finished?
    ensures RestartAgrees(b, t, lines, n) <==> RunLines(b, Committed(b, t, lines, n), lines).Finished? && RowsAgree(b, t, lines, n)
  {
    hide RunLines, RowAgrees, Sole;
    if RunLines(b, Committed(b, t, lines, n), lines).Finished? {
      RerunRows(b, t, lines, n);
      var once, again := RunLines(b, t, lines).table, RunLines(b, Committed(b, t, lines, n), lines).table;
      assert RowsAgree(b, t, lines, n) ==> again == once;
    }
  }
}
