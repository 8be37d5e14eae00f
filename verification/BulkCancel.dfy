/**
 The creditor's bulk cancellation: matching file rows against contracts, and the resumable apply loop.
 Failures are those the loop catches: a call that throws without cancelling, or a progress write that throws.
 */
module BulkCancel {
  import opened Wrappers

  type ContractId = string

  /** `${contractNumber}|${debtorDocument}` of a row or a contract. */
  type RowKey = string

  datatype Contract = Contract(id: ContractId, key: RowKey, blocked: bool)

  datatype Counts = Counts(matched: seq<ContractId>, unmatched: nat, blocked: nat, duplicates: nat)

  /** The lookup map: the last contract with the key wins. */
  function ByKey(contracts: seq<Contract>, key: RowKey): Option<Contract> {
    if contracts == [] then None
    else if contracts[|contracts| - 1].key == key then Some(contracts[|contracts| - 1])
    else ByKey(contracts[..|contracts| - 1], key)
  }

  lemma {:induction false} ByKeyExactly(contracts: seq<Contract>, key: RowKey)
    ensures var r := ByKey(contracts, key);
            && (r.None? <==> forall i :: 0 <= i < |contracts| ==> contracts[i].key != key)
            && (r.Some? ==> exists i :: 0 <= i < |contracts| && contracts[i] == r.value && contracts[i].key == key
                              && forall j :: i < j < |contracts| ==> contracts[j].key != key)
  {
    if contracts != [] && contracts[|contracts| - 1].key != key {
      ByKeyExactly(contracts[..|contracts| - 1], key);
      assert forall i :: 0 <= i < |contracts| - 1 ==> contracts[..|contracts| - 1][i] == contracts[i];
    }
  }

  predicate Cancellable(contracts: seq<Contract>, key: RowKey) {
    var c := ByKey(contracts, key);
    c.Some? && !c.value.blocked
  }

  ghost predicate Distinct(ids: seq<ContractId>) {
    forall i, j :: 0 <= i < j < |ids| ==> ids[i] != ids[j]
  }

  lemma DistinctPrefix(ids: seq<ContractId>)
    ensures Distinct(ids) ==> forall n :: 0 <= n <= |ids| ==> Distinct(ids[..n])
  {
  }

  /** The file rows of each fate, counted independently of the loop. */
  function CountRows(rows: seq<RowKey>, fate: RowKey -> bool): nat {
    if rows == [] then 0 else CountRows(rows[..|rows| - 1], fate) + if fate(rows[|rows| - 1]) then 1 else 0
  }

  /** The row matches this contract. */
  predicate Picks(contracts: seq<Contract>, key: RowKey, id: ContractId) {
    Cancellable(contracts, key) && ByKey(contracts, key).value.id == id
  }

  /** Contracts stand in the order of their first rows. */
  ghost predicate InOrder(rows: seq<RowKey>, contracts: seq<Contract>, ids: seq<ContractId>) {
    forall a, b :: 0 <= a < b < |ids| ==> Before(rows, contracts, ids[a], ids[b])
  }

  /** Some row matches the first contract, and no row up to it matches the second. */
  ghost predicate Before(rows: seq<RowKey>, contracts: seq<Contract>, first: ContractId, second: ContractId) {
    exists i :: 0 <= i < |rows| && Picks(contracts, rows[i], first) && forall j :: 0 <= j <= i ==> !Picks(contracts, rows[j], second)
  }

  lemma StillBefore(rows: seq<RowKey>, contracts: seq<Contract>, n: nat, first: ContractId, second: ContractId)
    requires n < |rows| && Before(rows[..n], contracts, first, second)
    ensures Before(rows[..n + 1], contracts, first, second)
  {
    hide Picks;
    var i :| 0 <= i < n && Picks(contracts, rows[..n][i], first) && forall j :: 0 <= j <= i ==> !Picks(contracts, rows[..n][j], second);
    assert Picks(contracts, rows[..n + 1][i], first);
    assert forall j :: 0 <= j <= i ==> rows[..n + 1][j] == rows[..n][j];
  }

  lemma NothingInOrder(rows: seq<RowKey>, contracts: seq<Contract>)
    ensures InOrder(rows, contracts, [])
  {
  }

  lemma StillInOrder(rows: seq<RowKey>, contracts: seq<Contract>, n: nat, ids: seq<ContractId>)
    requires n < |rows| && InOrder(rows[..n], contracts, ids)
    ensures InOrder(rows[..n + 1], contracts, ids)
  {
    hide Before;
    forall a, b | 0 <= a < b < |ids|
      ensures Before(rows[..n + 1], contracts, ids[a], ids[b])
    {
      StillBefore(rows, contracts, n, ids[a], ids[b]);
    }
  }

  /** A contract matched for the first time comes behind all that were matched before. */
  lemma NewIsLast(rows: seq<RowKey>, contracts: seq<Contract>, n: nat, ids: seq<ContractId>, id: ContractId)
    requires n < |rows| && InOrder(rows[..n], contracts, ids) && id !in ids
    requires forall x :: x in ids <==> exists i :: 0 <= i < n && Picks(contracts, rows[i], x)
    ensures InOrder(rows[..n + 1], contracts, ids + [id])
  {
    hide Picks;
    var all := ids + [id];
    StillInOrder(rows, contracts, n, ids);
    forall a, b | 0 <= a < b < |all|
      ensures Before(rows[..n + 1], contracts, all[a], all[b])
    {
      if b == |ids| {
        assert all[a] in ids;
        var i :| 0 <= i < n && Picks(contracts, rows[i], all[a]);
        assert rows[..n + 1][i] == rows[i];
        assert forall j :: 0 <= j <= i ==> rows[..n + 1][j] == rows[j] && !Picks(contracts, rows[j], id);
      }
    }
  }

  /** `resolve`: every row is counted once; the matched ids are distinct and are exactly the cancellable contracts of the file. */
  method Resolve(rows: seq<RowKey>, contracts: seq<Contract>) returns (r: Counts)
    ensures |r.matched| + r.unmatched + r.blocked + r.duplicates == |rows|
    ensures Distinct(r.matched)
    ensures forall id :: id in r.matched <==> exists i :: 0 <= i < |rows| && Picks(contracts, rows[i], id)
    ensures InOrder(rows, contracts, r.matched)
    ensures r.unmatched == CountRows(rows, k => ByKey(contracts, k).None?)
    ensures r.blocked == CountRows(rows, k => ByKey(contracts, k).Some? && ByKey(contracts, k).value.blocked)
  {
    hide InOrder;
    assert InOrder(rows[..0], contracts, []) by { NothingInOrder(rows[..0], contracts); }
    ghost var missing := k => ByKey(contracts, k).None?;
    ghost var stuck := k => ByKey(contracts, k).Some? && ByKey(contracts, k).value.blocked;
    var matched: seq<ContractId>, unmatched, blocked, duplicates := [], 0, 0, 0;
    for n := 0 to |rows|
      invariant |matched| + unmatched + blocked + duplicates == n
      invariant Distinct(matched)
      invariant forall id :: id in matched <==> exists i :: 0 <= i < n && Picks(contracts, rows[i], id)
      invariant InOrder(rows[..n], contracts, matched)
      invariant unmatched == CountRows(rows[..n], missing) && blocked == CountRows(rows[..n], stuck)
    {
      assert rows[..n + 1][..n] == rows[..n] && rows[..n + 1][n] == rows[n];
      var c := ByKey(contracts, rows[n]);
      StillInOrder(rows, contracts, n, matched);
      if c.None? {
        unmatched := unmatched + 1;
      } else if c.value.blocked {
        blocked := blocked + 1;
      } else if c.value.id in matched {
        duplicates := duplicates + 1;
      } else {
        NewIsLast(rows, contracts, n, matched, c.value.id);
        matched := matched + [c.value.id];
      }
    }
    assert rows[..|rows|] == rows;
    r := Counts(matched, unmatched, blocked, duplicates);
  }

  // ---- applying ----

  datatype BatchStatus = Applying | Completed | Failed

  /** What one call to cancel a contract did. */
  datatype Outcome = Committed(serasaRemovalQueued: bool) | Threw

  /** What one attempt meets: its calls in order, and which progress write fails, counted from zero, if any does. */
  datatype Weather = Weather(calls: seq<Outcome>, failingWrite: Option<nat>)

  class Batch {
    const contractIds: seq<ContractId>
    var cancelledCount: nat
    var queuedForRemoval: nat
    var status: BatchStatus
    /** Every cancellation this batch committed, in order. */
    var cancelled: seq<ContractId>

    constructor (ids: seq<ContractId>)
      requires Distinct(ids) && "" !in ids
      ensures contractIds == ids && cancelledCount == 0 && cancelled == [] && Valid()
    {
      contractIds, cancelledCount, queuedForRemoval, status, cancelled := ids, 0, 0, Applying, [];
    }

    /** The cancelled contracts are exactly the first cancelledCount ids; none twice, and all of them at COMPLETED. */
    ghost predicate Valid()
      reads this
    {
      && Distinct(contractIds) && "" !in contractIds
      && cancelledCount <= |contractIds|
      && cancelled == contractIds[..cancelledCount]
      && queuedForRemoval <= cancelledCount
      && (status.Completed? ==> cancelledCount == |contractIds|)
    }

    /** Cancellations of the first n calls that queued a removal at the provider. */
    static function Queued(calls: seq<Outcome>, n: nat): nat
      requires n <= |calls|
    {
      if n == 0 then 0
      else Queued(calls, n - 1) + if calls[n - 1].Committed? && calls[n - 1].serasaRemovalQueued then 1 else 0
    }

    /** A progress write is due behind every 25th contract and behind the last one. */
    predicate WriteDue(count: nat) { count % 25 == 0 || count == |contractIds| }

    /** Progress writes of an attempt that went from `from` to `to`. */
    function Writes(from: nat, to: nat): nat
      decreases to
    {
      if to <= from then 0 else Writes(from, to - 1) + if WriteDue(to) then 1 else 0
    }

    lemma CountersStart(calls: seq<Outcome>, start: nat)
      ensures Queued(calls, 0) == 0 && Writes(start, start) == 0
    {
    }

    lemma CountersStep(calls: seq<Outcome>, n: nat, start: nat, count: nat)
      requires n < |calls| && start <= count
      ensures Queued(calls, n + 1) == Queued(calls, n) + if calls[n].Committed? && calls[n].serasaRemovalQueued then 1 else 0
      ensures Writes(start, count + 1) == Writes(start, count) + if WriteDue(count + 1) then 1 else 0
    {
    }

    /** Progress is written behind every multiple of 25 on the way, and once more behind the last contract of another number. */
    lemma {:induction false} WritesExactly(start: nat, end: nat)
      requires start <= end <= |contractIds|
      ensures Writes(start, end) == end / 25 - start / 25 + (if start < end == |contractIds| && end % 25 != 0 then 1 else 0)
      decreases end
    {
      if start < end {
        WritesExactly(start, end - 1);
      }
    }

    /**
     `applyInBackground`: resumes at the persisted count; the i-th call behaves as `w.calls[i]` says, and throws if
     there is no such entry. Whatever throws, a call or a progress write, the catch block persists the progress. The
     batch fails exactly when some call or write of the attempt threw, and a write may fail behind the last contract.
     */
    method Apply(w: Weather)
      requires Valid()
      modifies this
      ensures Valid() && cancelledCount >= old(cancelledCount)
      ensures old(cancelled) <= cancelled && Distinct(cancelled)
      ensures status.Completed? || status.Failed?
      ensures status.Completed? ==> cancelled == contractIds
      ensures cancelledCount - old(cancelledCount) <= |w.calls|
      ensures queuedForRemoval == old(queuedForRemoval) + Queued(w.calls, cancelledCount - old(cancelledCount))
      ensures status.Failed? ==>
                var calls := cancelledCount - old(cancelledCount);
                || (cancelledCount < |contractIds| && (calls >= |w.calls| || w.calls[calls].Threw?))
                || (w.failingWrite.Some? && w.failingWrite.value <= Writes(old(cancelledCount), cancelledCount))
      ensures status.Completed? ==>
                && |w.calls| >= |contractIds| - old(cancelledCount)
                && (forall i :: 0 <= i < |contractIds| - old(cancelledCount) ==> !w.calls[i].Threw?)
                && (w.failingWrite.Some? ==> w.failingWrite.value > Writes(old(cancelledCount), |contractIds|))
    {
      DistinctPrefix(contractIds);
      CountersStart(w.calls, cancelledCount);
      hide Distinct, Writes, Queued, WriteDue;
      var count, queued, index := cancelledCount, queuedForRemoval, cancelledCount;
      var calls, writes := 0, 0;
      while index < |contractIds|
        invariant old(cancelledCount) <= count == index <= |contractIds|
        invariant calls == count - old(cancelledCount) && calls <= |w.calls|
        invariant writes == Writes(old(cancelledCount), count) && (w.failingWrite.Some? ==> writes <= w.failingWrite.value)
        invariant queued <= count && queued == old(queuedForRemoval) + Queued(w.calls, calls)
        invariant cancelled == contractIds[..count] && old(cancelled) <= cancelled
        invariant cancelledCount <= count && queuedForRemoval <= queued
        invariant forall i :: 0 <= i < calls ==> !w.calls[i].Threw?
      {
        var id := contractIds[index];
        if id != "" {
          if calls >= |w.calls| || w.calls[calls].Threw? {
            status, cancelledCount, queuedForRemoval := Failed, count, queued;
            return;
          }
          CountersStep(w.calls, calls, old(cancelledCount), count);
          cancelled := cancelled + [id];
          count := count + 1;
          if w.calls[calls].serasaRemovalQueued {
            queued := queued + 1;
          }
          calls := calls + 1;
          if WriteDue(count) {
            if w.failingWrite == Some(writes) {
              status, cancelledCount, queuedForRemoval := Failed, count, queued;
              return;
            }
            cancelledCount, queuedForRemoval := count, queued;
            writes := writes + 1;
          }
        }
        index := index + 1;
      }
      if w.failingWrite == Some(writes) {
        status, cancelledCount, queuedForRemoval := Failed, count, queued;
        return;
      }
      status, cancelledCount, queuedForRemoval := Completed, count, queued;
    }
  }

  /** Any number of attempts, whatever fails in each, keeps the promise; a completed batch has cancelled every id once. */
  method Retry(batch: Batch, attempts: seq<Weather>)
    requires batch.Valid()
    modifies batch
    ensures batch.Valid() && Distinct(batch.cancelled) && old(batch.cancelled) <= batch.cancelled
    ensures attempts != [] && batch.status.Completed? ==> batch.cancelled == batch.contractIds
  {
    for k := 0 to |attempts|
      invariant batch.Valid() && old(batch.cancelled) <= batch.cancelled
      invariant k > 0 && batch.status.Completed? ==> batch.cancelled == batch.contractIds
    {
      batch.Apply(attempts[k]);
    }
  }
}
