/**
 "Update unless equivalent", in the abstract: a cell reads items one after another, keeps what it shows
 when the next item has the same class, and shows the new item otherwise. In the end it shows the first
 item of the last run of equal classes, or what it started with if no class ever differed.
 */
module LastRun {
  import opened Wrappers

  /** The item shown after the run, None while the cell still shows its start, whose class is k. */
  function Shows<L, K(==)>(items: seq<L>, k: K, mine: L -> bool, kind: L -> K): Option<L> {
    if items == [] then None else
      var n := |items| - 1;
      var prev := Shows(items[..n], k, mine, kind);
      if mine(items[n]) && kind(items[n]) != ShownClass(prev, k, kind) then Some(items[n]) else prev
  }

  function ShownClass<L, K>(shown: Option<L>, k: K, kind: L -> K): K {
    if shown.None? then k else kind(shown.value)
  }

  /** First item of the last run of equal classes, independent of any start. */
  function Latest<L, K(==)>(items: seq<L>, mine: L -> bool, kind: L -> K): (r: Option<L>)
    ensures r.Some? ==> r.value in items && mine(r.value)
    ensures r.None? ==> forall i :: 0 <= i < |items| ==> !mine(items[i])
  {
    if items == [] then None else
      var n := |items| - 1;
      var prev := Latest(items[..n], mine, kind);
      assert items == items[..n] + [items[n]];
      if !mine(items[n]) || (prev.Some? && kind(prev.value) == kind(items[n])) then prev else Some(items[n])
  }

  /** The last run has the class of the last item. */
  lemma {:induction false} LatestHasLastClass<L, K>(items: seq<L>, mine: L -> bool, kind: L -> K, p: nat)
    requires p < |items| && mine(items[p]) && forall q :: p < q < |items| ==> !mine(items[q])
    ensures Latest(items, mine, kind).Some? && kind(Latest(items, mine, kind).value) == kind(items[p])
  {
    var n := |items| - 1;
    if p < n {
      assert items[..n][p] == items[p];
      LatestHasLastClass(items[..n], mine, kind, p);
    }
  }

  ghost predicate AllOfClass<L, K>(items: seq<L>, k: K, mine: L -> bool, kind: L -> K) {
    forall i :: 0 <= i < |items| && mine(items[i]) ==> kind(items[i]) == k
  }

  lemma AllOfClassSnoc<L, K>(items: seq<L>, k: K, mine: L -> bool, kind: L -> K)
    requires items != []
    ensures var n := |items| - 1;
            AllOfClass(items, k, mine, kind) <==>
            AllOfClass(items[..n], k, mine, kind) && (mine(items[n]) ==> kind(items[n]) == k)
  {
    var n := |items| - 1;
    assert forall i :: 0 <= i < n ==> items[..n][i] == items[i];
  }

  lemma {:induction false} ShowsClosedForm<L, K>(items: seq<L>, k: K, mine: L -> bool, kind: L -> K)
    ensures Shows(items, k, mine, kind) == if AllOfClass(items, k, mine, kind) then None else Latest(items, mine, kind)
    ensures Shows(items, k, mine, kind).None? ==> AllOfClass(items, k, mine, kind)
  {
    if items != [] {
      var n := |items| - 1;
      ShowsClosedForm(items[..n], k, mine, kind);
      AllOfClassSnoc(items, k, mine, kind);
      var prev := Latest(items[..n], mine, kind);
      assert prev.Some? ==> prev.value in items[..n];
    }
  }

  /** A cell is at rest after `items` when it shows their last run, or has one class with all of them. */
  ghost predicate AtRest<L, K>(items: seq<L>, shown: Option<L>, k: K, mine: L -> bool, kind: L -> K) {
    AllOfClass(items, k, mine, kind) || (shown.Some? && shown == Latest(items, mine, kind) && kind(shown.value) == k)
  }

  /** Reading one more item keeps a cell at rest. */
  lemma AtRestSnoc<L, K>(items: seq<L>, item: L, shown: Option<L>, k: K, mine: L -> bool, kind: L -> K)
    requires AtRest(items, shown, k, mine, kind)
    ensures if mine(item) && kind(item) != k
            then AtRest(items + [item], Some(item), kind(item), mine, kind)
            else AtRest(items + [item], shown, k, mine, kind)
  {
    var all := items + [item];
    assert all[..|items|] == items;
    AllOfClassSnoc(all, k, mine, kind);
    AllOfClassSnoc(all, kind(item), mine, kind);
    var prev := Latest(items, mine, kind);
    assert prev.Some? ==> prev.value in items;
  }

  /** An item of another class, read by a cell at rest, starts the last run. */
  lemma LatestSnoc<L, K>(items: seq<L>, item: L, shown: Option<L>, k: K, mine: L -> bool, kind: L -> K)
    requires AtRest(items, shown, k, mine, kind) && mine(item) && kind(item) != k
    ensures Latest(items + [item], mine, kind) == Some(item)
  {
    assert (items + [item])[..|items|] == items;
    var prev := Latest(items, mine, kind);
    assert prev.Some? ==> prev.value in items;
  }

  /** A cell at rest reads the same items again and shows the same thing. */
  lemma Replay<L, K>(items: seq<L>, shown: Option<L>, k: K, mine: L -> bool, kind: L -> K)
    requires AtRest(items, shown, k, mine, kind)
    ensures var again := Shows(items, k, mine, kind); again.None? || again == shown
  {
    ShowsClosedForm(items, k, mine, kind);
  }

  /** When all classes are equal, the last run starts at the first item. */
  lemma {:induction false} LatestUniform<L, K>(items: seq<L>, k: K, mine: L -> bool, kind: L -> K, p: nat)
    requires AllOfClass(items, k, mine, kind) && p < |items| && mine(items[p])
    requires forall q :: 0 <= q < p ==> !mine(items[q])
    ensures Latest(items, mine, kind) == Some(items[p])
  {
    var n := |items| - 1;
    AllOfClassSnoc(items, k, mine, kind);
    if p < n {
      LatestUniform(items[..n], k, mine, kind, p);
      assert items[..n][p] == items[p];
    } else {
      assert forall i :: 0 <= i < n ==> !mine(items[..n][i]);
    }
  }

  /** Classes and last run, split at the first item. */
  lemma {:induction false} LatestSplit<L, K>(items: seq<L>, mine: L -> bool, kind: L -> K, p: nat)
    requires p < |items| && mine(items[p]) && forall q :: 0 <= q < p ==> !mine(items[q])
    ensures Latest(items, mine, kind) ==
            if AllOfClass(items[p + 1..], kind(items[p]), mine, kind) then Some(items[p]) else Latest(items[p + 1..], mine, kind)
    ensures !AllOfClass(items[p + 1..], kind(items[p]), mine, kind) ==> Latest(items[p + 1..], mine, kind).Some?
  {
    var n := |items| - 1;
    if p < n {
      var rest := items[p + 1..];
      assert rest[..|rest| - 1] == items[..n][p + 1..] && rest[|rest| - 1] == items[n];
      LatestSplit(items[..n], mine, kind, p);
      AllOfClassSnoc(rest, kind(items[p]), mine, kind);
      var prev := Latest(items[..n][p + 1..], mine, kind);
      assert prev.Some? ==> prev.value in items[..n][p + 1..];
    } else {
      assert forall x :: x in items[..n] ==> !mine(x);
    }
  }

  lemma AllOfClassSplit<L, K>(items: seq<L>, k: K, mine: L -> bool, kind: L -> K, p: nat)
    requires p < |items| && mine(items[p]) && forall q :: 0 <= q < p ==> !mine(items[q])
    ensures AllOfClass(items, k, mine, kind) <==> kind(items[p]) == k && AllOfClass(items[p + 1..], k, mine, kind)
  {
    assert forall q :: p < q < |items| ==> items[q] == items[p + 1..][q - p - 1];
  }
}
