/** The import job: chunked transactions, persisted counters, and what the file may not touch. */
module ImportJob {
  import opened Wrappers
  import opened ContractTable
  import opened ImportEngine
  import opened ImportRetry
  import Pricing

  // ---- counters and terminal contracts ----

  /** Every valid line is counted exactly once. */
  lemma {:induction false} CountsAddUp(b: Batch, t: Table, lines: seq<FileLine>)
    requires RunLines(b, t, lines).Finished?
    ensures RunLines(b, t, lines).counts.Total() == |lines|
  {
    if lines != [] {
      CountsAddUp(b, t, lines[..|lines| - 1]);
    }
  }

  /** A contract that is paid or cancelled at the start is not changed by any file. */
  lemma TerminalUntouched(b: Batch, t: Table, lines: seq<FileLine>, i: nat)
    requires RunLines(b, t, lines).Finished? && i < |t| && Terminal(t[i])
    ensures i < |RunLines(b, t, lines).table| && RunLines(b, t, lines).table[i] == t[i]
  {
    RunRows(b, t, lines, i);
    FoldUntouched(b, t[i], lines, |lines|);
    assert lines[..|lines|] == lines;
  }

  /** Nor by the set-based recalculation that closes the job. */
  lemma TerminalSurvivesJob(b: Batch, t: Table, lines: seq<FileLine>, i: nat, w: Pricing.WalletRules, cr: Pricing.CreditorRules)
    requires RunLines(b, t, lines).Finished? && i < |t| && Terminal(t[i]) && w.rules.minInstallmentCents > 0
    ensures var r := Pricing.RecalculateWallet(RunLines(b, t, lines).table, b.wallet, w, cr);
            i < |r| && r[i] == t[i]
  {
    TerminalUntouched(b, t, lines, i);
  }

  // ---- the job ----

  const CHUNK: nat := 250

  /** How many lines the first k chunks hold. */
  function ChunkEnd(valid: seq<FileLine>, k: nat): nat {
    if k * CHUNK <= |valid| then k * CHUNK else |valid|
  }

  /** The counters persisted at a chunk boundary: one count for every line up to there. */
  ghost predicate Persisted(b: Batch, t0: Table, valid: seq<FileLine>, done: nat, counts: Counts) {
    && done <= |valid| && counts.Total() == done
    && RunLines(b, t0, valid[..done]).Finished? && RunLines(b, t0, valid[..done]).counts == counts
  }

  datatype JobOutcome = Applied | ChunkAborted | Crashed

  lemma RunSnoc(b: Batch, t: Table, lines: seq<FileLine>, i: nat)
    requires i < |lines| && RunLines(b, t, lines[..i]).Finished?
    ensures var mid := RunLines(b, t, lines[..i]);
            RunLines(b, t, lines[..i + 1]) ==
            match ApplyLine(b, mid.table, lines[i])
            case UniqueViolation => Aborted
            case Done(after, effect) => Finished(after, mid.counts.Add(effect))
  {
    assert lines[..i + 1][..i] == lines[..i] && lines[..i + 1][i] == lines[i];
  }

  lemma AbortExtends(b: Batch, t: Table, lines: seq<FileLine>, n: nat)
    requires n <= |lines| && RunLines(b, t, lines[..n]).Aborted?
    ensures RunLines(b, t, lines).Aborted?
  {
    RunSplit(b, t, lines, n);
  }

  /** The transaction of one chunk: all its lines, or none. */
  method ApplyChunk(b: Batch, ghost t0: Table, valid: seq<FileLine>, table: Table, counts: Counts, start: nat, end: nat)
    returns (ok: bool, tx: Table, counted: Counts)
    requires start <= end <= |valid| && RunLines(b, t0, valid[..start]) == Finished(table, counts)
    ensures ok ==> RunLines(b, t0, valid[..end]) == Finished(tx, counted)
    ensures !ok ==> RunLines(b, t0, valid).Aborted?
  {
    hide *;
    tx, counted := table, counts;
    var i := start;
    while i < end
      invariant start <= i <= end
      invariant RunLines(b, t0, valid[..i]) == Finished(tx, counted)
    {
      RunSnoc(b, t0, valid, i);
      var outcome := ApplyLine(b, tx, valid[i]);
      if outcome.UniqueViolation? {
        AbortExtends(b, t0, valid, i + 1);
        ok := false;
        return;
      }
      tx, counted := outcome.table, counted.Add(outcome.effect);
      i := i + 1;
    }
    ok := true;
  }

  /**
   `process`: chunks of CHUNK lines, each one transaction, progress persisted after every commit.
   `crashAfter` chunks the worker dies, if it is given.
   */
  method Process(b: Batch, t0: Table, file: seq<FileLine>, crashAfter: Option<nat>)
    returns (table: Table, committed: nat, progress: seq<Counts>, outcome: JobOutcome)
    ensures var valid := ValidLines(file, b.defaultDebtType);
            && committed <= |valid|
            && RunLines(b, t0, valid[..committed]).Result() == Some(table)
            && (outcome.Applied? ==> committed == |valid|)
            && (outcome.ChunkAborted? ==> RunLines(b, t0, valid).Aborted?)
            && (outcome.Crashed? ==> crashAfter == Some(|progress|))
            && forall j :: 0 <= j < |progress| ==> Persisted(b, t0, valid, ChunkEnd(valid, j + 1), progress[j])
  {
    var valid := ValidLines(file, b.defaultDebtType);
    table, committed, progress := t0, 0, [];
    var counts := Counts(0, 0, 0);
    while committed < |valid|
      invariant committed <= |valid|
      invariant committed == ChunkEnd(valid, |progress|)
      invariant RunLines(b, t0, valid[..committed]) == Finished(table, counts)
      invariant forall j :: 0 <= j < |progress| ==> Persisted(b, t0, valid, ChunkEnd(valid, j + 1), progress[j])
    {
      if crashAfter == Some(|progress|) {
        outcome := Crashed;
        return;
      }
      var end := if committed + CHUNK <= |valid| then committed + CHUNK else |valid|;
      var ok, tx, counted := ApplyChunk(b, t0, valid, table, counts, committed, end);
      if !ok {
        outcome := ChunkAborted;
        return;
      }
      counts := counted;
      CountsAddUp(b, t0, valid[..end]);
      table, committed, progress := tx, end, progress + [counts];
    }
    outcome := Applied;
  }
}
