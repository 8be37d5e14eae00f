/**
 Aging bands: the sort-and-check-neighbours validation, and the two ways the code looks a band up,
 `find` over the ascending list and `ORDER BY minAgingDays DESC LIMIT 1`.
 */
module Bands {
  import opened Wrappers

  /** Inclusive day range; a missing end is unbounded. */
  datatype Range = Range(first: int, last: Option<int>)

  /** A band with a cash and an installment percentage of type P. */
  datatype Band<+P> = Band(range: Range, cash: P, installment: P)

  predicate Covers(r: Range, days: int) {
    r.first <= days && (r.last.None? || days <= r.last.value)
  }

  predicate WellFormed(r: Range) { r.last.Some? ==> r.first <= r.last.value }

  /** No debt age falls into both ranges. */
  ghost predicate Disjoint(a: Range, b: Range) {
    forall days :: !(Covers(a, days) && Covers(b, days))
  }

  ghost predicate PairwiseDisjoint<P(!new)>(s: seq<Band<P>>) {
    forall i, j :: 0 <= i < j < |s| ==> Disjoint(s[i].range, s[j].range)
  }

  ghost predicate AllWellFormed<P(!new)>(s: seq<Band<P>>) {
    forall i :: 0 <= i < |s| ==> WellFormed(s[i].range)
  }

  /** What an accepted band list means: well-formed ranges that never overlap. */
  ghost predicate Acceptable<P(!new)>(s: seq<Band<P>>) { AllWellFormed(s) && PairwiseDisjoint(s) }

  // ---- sorting ----

  ghost predicate Sorted<P(!new)>(s: seq<Band<P>>) {
    forall i, j :: 0 <= i < j < |s| ==> s[i].range.first <= s[j].range.first
  }

  function Insert<P(!new)>(x: Band<P>, s: seq<Band<P>>): (r: seq<Band<P>>)
    ensures forall y :: y in r <==> y == x || y in s
    ensures |r| == |s| + 1
  {
    if s == [] || x.range.first <= s[0].range.first then [x] + s
    else
      assert s == [s[0]] + s[1..];
      [s[0]] + Insert(x, s[1..])
  }

  /** The stable ascending sort on the first day. */
  function Sort<P(!new)>(s: seq<Band<P>>): (r: seq<Band<P>>)
    ensures forall y :: y in r <==> y in s
    ensures |r| == |s|
  {
    if s == [] then []
    else
      assert s == [s[0]] + s[1..];
      Insert(s[0], Sort(s[1..]))
  }

  lemma {:induction false} InsertSorted<P(!new)>(x: Band<P>, s: seq<Band<P>>)
    requires Sorted(s)
    ensures Sorted(Insert(x, s))
  {
    if s != [] && x.range.first > s[0].range.first {
      InsertSorted(x, s[1..]);
      var r := Insert(x, s[1..]);
      forall j | 0 <= j < |r|
        ensures s[0].range.first <= r[j].range.first
      {
        assert r[j] in r;
        assert r[j] == x || r[j] in s;
      }
    }
  }

  lemma {:induction false} SortSorted<P(!new)>(s: seq<Band<P>>)
    ensures Sorted(Sort(s))
  {
    if s != [] {
      SortSorted(s[1..]);
      InsertSorted(s[0], Sort(s[1..]));
    }
  }

  lemma PairwiseCons<P(!new)>(h: Band<P>, t: seq<Band<P>>)
    ensures PairwiseDisjoint([h] + t) <==> PairwiseDisjoint(t) && forall y :: y in t ==> Disjoint(h.range, y.range)
  {
    var s := [h] + t;
    assert forall i :: 0 <= i < |t| ==> s[i + 1] == t[i];
    if PairwiseDisjoint(s) {
      forall i, j | 0 <= i < j < |t|
        ensures Disjoint(t[i].range, t[j].range)
      {
        assert Disjoint(s[i + 1].range, s[j + 1].range);
      }
      forall y | y in t
        ensures Disjoint(h.range, y.range)
      {
        var i :| 0 <= i < |t| && t[i] == y;
        assert Disjoint(s[0].range, s[i + 1].range);
      }
    }
  }

  lemma {:induction false} PairwiseInsert<P(!new)>(x: Band<P>, s: seq<Band<P>>)
    ensures PairwiseDisjoint(Insert(x, s)) <==> PairwiseDisjoint([x] + s)
  {
    if s != [] && x.range.first > s[0].range.first {
      var h, t := s[0], s[1..];
      assert s == [h] + t;
      PairwiseInsert(x, t);
      PairwiseCons(h, Insert(x, t));
      PairwiseCons(x, t);
      PairwiseCons(x, s);
      PairwiseCons(h, t);
    }
  }

  /** Overlap does not depend on the order of the list. */
  lemma {:induction false} PairwiseSort<P(!new)>(s: seq<Band<P>>)
    ensures PairwiseDisjoint(Sort(s)) <==> PairwiseDisjoint(s)
  {
    if s != [] {
      var h, t := s[0], s[1..];
      assert s == [h] + t;
      PairwiseSort(t);
      PairwiseInsert(h, Sort(t));
      PairwiseCons(h, Sort(t));
      PairwiseCons(h, t);
    }
  }

  // ---- validation ----

  /** The loop's verdict on the sorted list. */
  predicate NeighboursOk<P(!new)>(s: seq<Band<P>>) {
    forall i :: 0 <= i < |s| ==> BandOk(s, i)
  }

  predicate BandOk<P(!new)>(s: seq<Band<P>>, i: nat)
    requires i < |s|
  {
    && WellFormed(s[i].range)
    && (i > 0 ==> s[i - 1].range.last.Some? && s[i - 1].range.last.value < s[i].range.first)
  }

  lemma {:induction false} NeighboursApart<P(!new)>(s: seq<Band<P>>, i: nat, j: nat)
    requires NeighboursOk(s) && i < j < |s|
    ensures s[i].range.last.Some? && s[i].range.last.value < s[j].range.first
  {
    assert BandOk(s, j);
    if i + 1 < j {
      NeighboursApart(s, i, j - 1);
      assert BandOk(s, j - 1);
    }
  }

  /** On a sorted list, checking neighbours is checking everything. */
  lemma NeighboursIffAcceptable<P(!new)>(s: seq<Band<P>>)
    requires Sorted(s)
    ensures NeighboursOk(s) <==> Acceptable(s)
  {
    if NeighboursOk(s) {
      forall i, j | 0 <= i < j < |s|
        ensures Disjoint(s[i].range, s[j].range)
      {
        NeighboursApart(s, i, j);
      }
      assert forall i :: 0 <= i < |s| ==> BandOk(s, i) && WellFormed(s[i].range);
    }
    if Acceptable(s) {
      forall i | 0 <= i < |s|
        ensures BandOk(s, i)
      {
        assert Covers(s[i].range, s[i].range.first);
        if i > 0 {
          assert Disjoint(s[i - 1].range, s[i].range);
          assert !Covers(s[i - 1].range, s[i].range.first);
        }
      }
    }
  }

  lemma AcceptableSort<P(!new)>(s: seq<Band<P>>)
    ensures Acceptable(Sort(s)) <==> Acceptable(s)
  {
    PairwiseSort(s);
    var r := Sort(s);
    assert forall i :: 0 <= i < |s| ==> s[i] in r;
    assert forall i :: 0 <= i < |r| ==> r[i] in s;
  }

  /** `validateBands`: accepts exactly the lists of well-formed, pairwise disjoint ranges. */
  method ValidateBands<P(!new)>(bands: seq<Band<P>>) returns (ok: bool)
    ensures ok <==> Acceptable(bands)
  {
    var ordered := Sort(bands);
    SortSorted(bands);
    NeighboursIffAcceptable(ordered);
    AcceptableSort(bands);
    var index := 0;
    while index < |ordered|
      invariant 0 <= index <= |ordered|
      invariant forall i :: 0 <= i < index ==> BandOk(ordered, i)
    {
      var range := ordered[index].range;
      if range.last.Some? && range.last.value < range.first {
        assert !BandOk(ordered, index);
        return false;
      }
      if index > 0 {
        var previous := ordered[index - 1].range;
        if previous.last.None? || previous.last.value >= range.first {
          assert !BandOk(ordered, index);
          return false;
        }
      }
      index := index + 1;
    }
    return true;
  }

  // ---- lookup ----

  /** `find` over the ascending list. */
  function FindAscending<P(!new)>(sorted: seq<Band<P>>, days: int): Option<Band<P>> {
    if sorted == [] then None
    else if Covers(sorted[0].range, days) then Some(sorted[0])
    else FindAscending(sorted[1..], days)
  }

  /** The first row of the covering bands in descending order. */
  function FindDescending<P(!new)>(sorted: seq<Band<P>>, days: int): Option<Band<P>> {
    if sorted == [] then None
    else if Covers(sorted[|sorted| - 1].range, days) then Some(sorted[|sorted| - 1])
    else FindDescending(sorted[..|sorted| - 1], days)
  }

  lemma {:induction false} AscendingFinds<P(!new)>(s: seq<Band<P>>, days: int)
    ensures var r := FindAscending(s, days);
            && (r.Some? ==> r.value in s && Covers(r.value.range, days))
            && (r.None? ==> forall b :: b in s ==> !Covers(b.range, days))
  {
    if s != [] {
      assert s == [s[0]] + s[1..];
      AscendingFinds(s[1..], days);
    }
  }

  lemma {:induction false} DescendingFinds<P(!new)>(s: seq<Band<P>>, days: int)
    ensures var r := FindDescending(s, days);
            && (r.Some? ==> r.value in s && Covers(r.value.range, days))
            && (r.None? ==> forall b :: b in s ==> !Covers(b.range, days))
  {
    if s != [] {
      assert s == s[..|s| - 1] + [s[|s| - 1]];
      DescendingFinds(s[..|s| - 1], days);
    }
  }

  /** At most one band of an acceptable list covers a given age. */
  lemma CoveringUnique<P(!new)>(s: seq<Band<P>>, a: Band<P>, b: Band<P>, days: int)
    requires PairwiseDisjoint(s) && a in s && b in s && Covers(a.range, days) && Covers(b.range, days)
    ensures a == b
  {
    var i :| 0 <= i < |s| && s[i] == a;
    var j :| 0 <= j < |s| && s[j] == b;
  }

  /** On an accepted list both lookups return the one covering band, for every age and in every stored order. */
  lemma LookupsAgree<P(!new)>(bands: seq<Band<P>>, days: int)
    requires Acceptable(bands)
    ensures FindAscending(Sort(bands), days) == FindDescending(Sort(bands), days)
    ensures forall b :: b in bands && Covers(b.range, days) ==> FindAscending(Sort(bands), days) == Some(b)
    ensures FindAscending(Sort(bands), days).None? ==> forall b :: b in bands ==> !Covers(b.range, days)
  {
    var s := Sort(bands);
    PairwiseSort(bands);
    AscendingFinds(s, days);
    DescendingFinds(s, days);
    var up, down := FindAscending(s, days), FindDescending(s, days);
    if up.Some? && down.Some? {
      CoveringUnique(s, up.value, down.value, days);
    }
    forall b | b in bands && Covers(b.range, days)
      ensures up == Some(b)
    {
      CoveringUnique(s, up.value, b, days);
    }
  }
}
