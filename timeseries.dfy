/**
  One grid cell's daily series: a sequence of dated values. Sub-series the
  script selects (a year slice, a calendar month, one year) are kept as
  increasing lists of indices into the series they come from, so that "the
  same timestamp" means "the same index".
*/
module TimeSeries {

  type Month = m: int | 1 <= m <= 12 witness 1

  datatype Record = Record(year: int, month: Month, value: real)

  type Series = seq<Record>

  /** The row filters the script applies to a time axis. */
  datatype Selector =
    | YearsBetween(first: int, last: int)  // a slice from first-01-01 to last-12-31
    | MonthIs(month: Month)                // the calendar month equals month
    | YearIs(year: int)                    // the calendar year equals year
    | YearMonthIs(y: int, m: Month)        // both of the last two

  predicate Matches(r: Record, sel: Selector) {
    match sel
    case YearsBetween(first, last) => first <= r.year <= last
    case MonthIs(m) => r.month == m
    case YearIs(y) => r.year == y
    case YearMonthIs(y, m) => r.year == y && r.month == m
  }

  predicate Increasing(idx: seq<nat>) {
    forall i, j :: 0 <= i < j < |idx| ==> idx[i] < idx[j]
  }

  predicate IndexesInto(idx: seq<nat>, s: Series) {
    forall k :: 0 <= k < |idx| ==> idx[k] < |s|
  }

  /** Every index of s, in order: the whole series. */
  function All(s: Series): (idx: seq<nat>)
    ensures |idx| == |s| && Increasing(idx) && IndexesInto(idx, s)
    ensures forall i :: 0 <= i < |s| ==> idx[i] == i
    ensures forall i: nat :: i in idx <==> i < |s|
  {
    var idx := seq(|s|, i requires 0 <= i < |s| => i);
    assert forall i: nat :: i in idx <==> i < |s| by {
      forall i: nat ensures i in idx <==> i < |s| {
        if i < |s| {
          assert idx[i] == i;
        }
      }
    }
    idx
  }

  /**
    The positions within the index list idx whose records match sel, in
    order: the boolean mask of the selection, written as the positions
    where it is true.
  */
  function Positions(s: Series, idx: seq<nat>, sel: Selector): (pos: seq<nat>)
    requires IndexesInto(idx, s)
    ensures Increasing(pos)
    ensures forall k :: 0 <= k < |pos| ==> pos[k] < |idx| && Matches(s[idx[pos[k]]], sel)
    ensures forall p :: 0 <= p < |idx| && Matches(s[idx[p]], sel) ==> p in pos
    decreases |idx|
  {
    if idx == [] then []
    else
      var front := Positions(s, idx[..|idx| - 1], sel);
      if Matches(s[idx[|idx| - 1]], sel) then front + [|idx| - 1] else front
  }

  /** The entries of idx at the given positions. */
  function Pick(idx: seq<nat>, pos: seq<nat>): seq<nat>
    requires forall k :: 0 <= k < |pos| ==> pos[k] < |idx|
  {
    seq(|pos|, k requires 0 <= k < |pos| => idx[pos[k]])
  }

  /** The sub-series of idx whose records match sel: exactly those indices, still in order. */
  function Select(s: Series, idx: seq<nat>, sel: Selector): (r: seq<nat>)
    requires IndexesInto(idx, s) && Increasing(idx)
    ensures Increasing(r) && IndexesInto(r, s)
    ensures forall k :: 0 <= k < |r| ==> Matches(s[r[k]], sel)
    ensures forall i :: i in r <==> i in idx && i < |s| && Matches(s[i], sel)
  {
    PickedMatches(s, idx, sel);
    Pick(idx, Positions(s, idx, sel))
  }

  /** The entries picked at the matching positions are increasing, match, and miss no match. */
  lemma PickedMatches(s: Series, idx: seq<nat>, sel: Selector)
    requires IndexesInto(idx, s) && Increasing(idx)
    ensures var r := Pick(idx, Positions(s, idx, sel));
      Increasing(r) && IndexesInto(r, s) &&
      (forall k :: 0 <= k < |r| ==> Matches(s[r[k]], sel)) &&
      (forall i :: i in r <==> i in idx && i < |s| && Matches(s[i], sel))
  {
    var pos := Positions(s, idx, sel);
    PickIncreasing(idx, pos);
    PickedAreMatches(s, idx, sel);
    forall i ensures i in Pick(idx, pos) <==> i in idx && i < |s| && Matches(s[i], sel) {
      if i in Pick(idx, pos) {
        PickedIsMatch(s, idx, sel, i);
      }
      if i in idx && i < |s| && Matches(s[i], sel) {
        PickedMatch(s, idx, sel, i);
      }
    }
  }

  /** Picking an increasing list at increasing positions keeps it increasing. */
  lemma PickIncreasing(idx: seq<nat>, pos: seq<nat>)
    requires Increasing(idx) && Increasing(pos)
    requires forall k :: 0 <= k < |pos| ==> pos[k] < |idx|
    ensures Increasing(Pick(idx, pos))
  {
  }

  /** Every picked entry indexes a matching record. */
  lemma PickedAreMatches(s: Series, idx: seq<nat>, sel: Selector)
    requires IndexesInto(idx, s)
    ensures var r := Pick(idx, Positions(s, idx, sel));
      IndexesInto(r, s) && forall k :: 0 <= k < |r| ==> Matches(s[r[k]], sel)
  {
  }

  /** A picked entry is a matching entry of idx. */
  lemma PickedIsMatch(s: Series, idx: seq<nat>, sel: Selector, i: nat)
    requires IndexesInto(idx, s)
    requires i in Pick(idx, Positions(s, idx, sel))
    ensures i in idx && i < |s| && Matches(s[i], sel)
  {
    var pos := Positions(s, idx, sel);
    var k :| 0 <= k < |pos| && Pick(idx, pos)[k] == i;
    assert idx[pos[k]] in idx;
  }

  /** A matching entry of idx is picked. */
  lemma PickedMatch(s: Series, idx: seq<nat>, sel: Selector, i: nat)
    requires IndexesInto(idx, s) && i in idx && i < |s| && Matches(s[i], sel)
    ensures i in Pick(idx, Positions(s, idx, sel))
  {
    var pos := Positions(s, idx, sel);
    var p :| 0 <= p < |idx| && idx[p] == i;
    var k :| 0 <= k < |pos| && pos[k] == p;
    assert Pick(idx, pos)[k] == i;
  }

  /**
    The records of s that match sel, in their order in s: the row
    selection stated on records, without index lists.
  */
  function Filter(s: Series, sel: Selector): (r: Series)
    ensures |r| <= |s|
    ensures forall k :: 0 <= k < |r| ==> Matches(r[k], sel)
    decreases |s|
  {
    if s == [] then []
    else
      var front := Filter(s[..|s| - 1], sel);
      if Matches(s[|s| - 1], sel) then front + [s[|s| - 1]] else front
  }

  /** The values of a series, in order. */
  function Values(s: Series): (v: seq<real>)
    ensures |v| == |s|
  {
    seq(|s|, k requires 0 <= k < |s| => s[k].value)
  }

  /** The indices of the records of s that match sel, built the same way as Filter. */
  function FilterIndices(s: Series, sel: Selector): (idx: seq<nat>)
    ensures Increasing(idx) && IndexesInto(idx, s)
    ensures forall i: nat :: i in idx <==> i < |s| && Matches(s[i], sel)
    decreases |s|
  {
    if s == [] then []
    else
      var front := FilterIndices(s[..|s| - 1], sel);
      assert forall k :: 0 <= k < |front| ==> front[k] < |s| - 1;
      if Matches(s[|s| - 1], sel) then front + [|s| - 1] else front
  }

  /** Reading the filtered indices off s gives the filtered records. */
  lemma {:induction false} SubOfFilterIndices(s: Series, sel: Selector)
    ensures Sub(s, FilterIndices(s, sel)) == Filter(s, sel)
    decreases |s|
  {
    if s != [] {
      var n := |s|;
      var p := s[..n - 1];
      var front := FilterIndices(p, sel);
      SubOfFilterIndices(p, sel);
      SubOfPrefix(s, front);
      if Matches(s[n - 1], sel) {
        SubAppend(s, front, n - 1);
      }
    }
  }

  /** Indices below the last one read the same records from s and from s without its last record. */
  lemma SubOfPrefix(s: Series, idx: seq<nat>)
    requires s != [] && forall k :: 0 <= k < |idx| ==> idx[k] < |s| - 1
    ensures Sub(s, idx) == Sub(s[..|s| - 1], idx)
  {
  }

  lemma SubAppend(s: Series, idx: seq<nat>, i: nat)
    requires IndexesInto(idx, s) && i < |s|
    ensures Sub(s, idx + [i]) == Sub(s, idx) + [s[i]]
  {
    assert IndexesInto(idx + [i], s);
  }

  /**
    Selecting from the whole series and reading the records at the selected
    indices gives exactly the matching records of s, in order.
  */
  lemma SelectIsFilter(s: Series, sel: Selector)
    ensures Sub(s, Select(s, All(s), sel)) == Filter(s, sel)
  {
    EnumerationUnique(Select(s, All(s), sel), FilterIndices(s, sel));
    SubOfFilterIndices(s, sel);
  }

  /** The mask of a date is the conjunction of the year mask and the month mask. */
  lemma MatchesYearMonth(r: Record, y: int, m: Month)
    ensures Matches(r, YearMonthIs(y, m)) <==> Matches(r, YearIs(y)) && Matches(r, MonthIs(m))
  {
  }

  /** The records at the given indices: a sub-series as the script hands it on. */
  function Sub(s: Series, idx: seq<nat>): (r: Series)
    requires IndexesInto(idx, s)
    ensures |r| == |idx| && forall k :: 0 <= k < |idx| ==> r[k] == s[idx[k]]
  {
    seq(|idx|, k requires 0 <= k < |idx| => s[idx[k]])
  }

  /** Where i sits in the index list idx. */
  function IndexOf(idx: seq<nat>, i: nat): (k: nat)
    requires i in idx
    ensures k < |idx| && idx[k] == i
  {
    if idx[0] == i then 0 else 1 + IndexOf(idx[1..], i)
  }

  /** In an increasing list every index sits at one position only. */
  lemma IndexOfIncreasing(idx: seq<nat>, k: nat)
    requires Increasing(idx) && k < |idx|
    ensures IndexOf(idx, idx[k]) == k
  {
  }

  lemma FirstIsMember(b: seq<nat>)
    requires b != []
    ensures b[0] in b
  {
  }

  /** Two increasing lists with the same members and the same head have the same members after it. */
  lemma InTail(a: seq<nat>, b: seq<nat>, i: nat)
    requires Increasing(a) && Increasing(b) && a != [] && b != [] && a[0] == b[0]
    requires forall j :: j in a <==> j in b
    requires i in a[1..]
    ensures i in b[1..]
  {
    var k :| 1 <= k < |a| && a[k] == i;
    assert a[0] < i;
    assert i in b;
    var kb :| 0 <= kb < |b| && b[kb] == i;
    assert kb != 0;
    assert b[1..][kb - 1] == i;
  }

  /** An increasing list is determined by the set of indices it holds. */
  lemma {:induction false} EnumerationUnique(a: seq<nat>, b: seq<nat>)
    requires Increasing(a) && Increasing(b)
    requires forall i :: i in a <==> i in b
    ensures a == b
    decreases |a|
  {
    if a == [] {
      if b != [] {
        FirstIsMember(b);
        assert false;
      }
    } else {
      assert a[0] in b;
      assert b[0] in a;
      assert a[0] == b[0];
      forall i ensures i in a[1..] <==> i in b[1..] {
        if i in a[1..] {
          InTail(a, b, i);
        }
        if i in b[1..] {
          InTail(b, a, i);
        }
      }
      EnumerationUnique(a[1..], b[1..]);
      assert a == [a[0]] + a[1..] && b == [b[0]] + b[1..];
    }
  }
}
