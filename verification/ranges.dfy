/** `MultipleRanges`: the set of byte ranges of an archive already
    assigned to a file, kept as a list of half-open ranges sorted by start.

    `add_range` merges the new range with every stored range it overlaps or
    touches; `remove_range` cuts a range out; `does_overlap` and `in` are
    the two queries. The state is the list itself; every operation returns
    the new list.
 */
module Ranges {
  import opened Wrappers
  import opened Sorting

  /** `range(start, stop)`: step 1, possibly empty. */
  datatype Range = Range(start: int, stop: int)

  /** `x in range(start, stop)`. */
  predicate In(x: int, r: Range) {
    r.start <= x < r.stop
  }

  predicate NonEmpty(r: Range) {
    r.start < r.stop
  }

  function Start(r: Range): int {
    r.start
  }

  function Min(a: int, b: int): int {
    if a <= b then a else b
  }

  function Max(a: int, b: int): int {
    if a >= b then a else b
  }

  /** Some stored range holds `x`. */
  ghost predicate Covers(rs: seq<Range>, x: int) {
    exists i :: 0 <= i < |rs| && In(x, rs[i])
  }

  // ---------------------------------------------------------------------
  // Overlap tests

  /** `__overlap`: one range's start or stop, as a point, lies in the other. */
  predicate Overlap(a: Range, b: Range) {
    In(b.start, a) || In(b.stop, a) || In(a.start, b) || In(a.stop, b)
  }

  /** `__overlap_or_touch`. */
  predicate OverlapOrTouch(a: Range, b: Range) {
    a.start == b.stop || b.start == a.stop || Overlap(a, b)
  }

  /** For non-empty ranges the endpoint test is closed-interval
      intersection: the ranges share a point or abut, and touching adds
      nothing to it. */
  lemma {:induction false} OverlapMeaning(a: Range, b: Range)
    requires NonEmpty(a) && NonEmpty(b)
    ensures Overlap(a, b) <==> a.start <= b.stop && b.start <= a.stop
    ensures OverlapOrTouch(a, b) <==> Overlap(a, b)
  {
  }

  /** With an empty range the test is not symmetric in points: an empty
      range at the very end of another does not overlap it. */
  lemma {:induction false} EmptyAtEndIsApart()
    ensures !Overlap(Range(10, 10), Range(0, 10)) && Overlap(Range(5, 5), Range(0, 10))
  {
  }

  /** `__combine_range`: the span of all four endpoints, or `None`. */
  function Combine(a: Range, b: Range): (res: Option<Range>)
    ensures res.Some? <==> OverlapOrTouch(a, b)
  {
    if OverlapOrTouch(a, b) then
      Some(Range(Min(Min(a.start, b.start), Min(a.stop, b.stop)), Max(Max(a.start, b.start), Max(a.stop, b.stop))))
    else None
  }

  /** Combining two non-empty ranges that overlap or touch gives a range
      holding exactly the points of either. */
  lemma {:induction false} CombineIsUnion(a: Range, b: Range, x: int)
    requires NonEmpty(a) && NonEmpty(b) && OverlapOrTouch(a, b)
    ensures Combine(a, b) == Some(Range(Min(a.start, b.start), Max(a.stop, b.stop)))
    ensures In(x, Combine(a, b).value) <==> In(x, a) || In(x, b)
  {
  }

  /** `does_overlap`: some stored range passes `__overlap` against `r`. */
  function DoesOverlap(rs: seq<Range>, r: Range): (b: bool)
    ensures b <==> exists i :: 0 <= i < |rs| && Overlap(rs[i], r)
  {
    if |rs| == 0 then false
    else
      var rest := DoesOverlap(rs[1..], r);
      assert forall i :: 1 <= i < |rs| ==> rs[i] == rs[1..][i - 1];
      Overlap(rs[0], r) || rest
  }

  // ---------------------------------------------------------------------
  // The invariant `add_range` keeps

  /** Sorted by start, non-empty, and no two ranges overlap or touch. */
  predicate Canonical(rs: seq<Range>) {
    && (forall i :: 0 <= i < |rs| ==> NonEmpty(rs[i]))
    && (forall i :: 0 <= i < |rs| - 1 ==> rs[i].stop < rs[i + 1].start)
  }

  /** In a canonical list every range ends before every later one starts. */
  lemma {:induction false} Separated(rs: seq<Range>, i: nat, j: nat)
    requires Canonical(rs) && i < j < |rs|
    ensures rs[i].stop < rs[j].start
    decreases j - i
  {
    if i + 1 < j {
      Separated(rs, i + 1, j);
    }
  }

  lemma {:induction false} CanonicalSorted(rs: seq<Range>)
    requires Canonical(rs)
    ensures SortedBy(rs, Start)
  {
    forall i, j | 0 <= i < j < |rs| ensures rs[i].start <= rs[j].start {
      Separated(rs, i, j);
    }
  }

  // ---------------------------------------------------------------------
  // add_range

  /** The indices from `from` on of the stored ranges that overlap or
      touch `r`, in increasing order (the list comprehension). */
  function Touching(rs: seq<Range>, r: Range, from: nat): (idx: seq<nat>)
    requires from <= |rs|
    ensures |idx| <= |rs| - from
    ensures forall k :: 0 <= k < |idx| ==> from <= idx[k] < |rs|
    ensures |idx| > 0 ==> idx[0] + |idx| <= |rs|
    decreases |rs| - from
  {
    if from == |rs| then []
    else if OverlapOrTouch(r, rs[from]) then [from] + Touching(rs, r, from + 1)
    else Touching(rs, r, from + 1)
  }

  /** The loop of `__combine_range` calls over the touching ranges; a
      `None` trips the assert. */
  function CombineAll(acc: Range, rs: seq<Range>, idx: seq<nat>): (res: Result<Range>)
    requires forall k :: 0 <= k < |idx| ==> idx[k] < |rs|
    ensures res.Err? ==> res.error == AssertionFailed
    decreases |idx|
  {
    if |idx| == 0 then Ok(acc)
    else
      match Combine(acc, rs[idx[0]])
      case None => Err(AssertionFailed)
      case Some(c) => CombineAll(c, rs, idx[1..])
  }

  /** The body of `add_range(r)` before the sort. With no touching range,
      `r` is appended; otherwise the touching ranges are merged with `r`,
      `len(idx)` ranges are popped at the first touching index (the
      minimum, since the indices increase), and the merged range is
      appended. */
  function Spliced(rs: seq<Range>, r: Range): Result<seq<Range>> {
    var idx := Touching(rs, r, 0);
    if |idx| == 0 then Ok(rs + [r])
    else
      var merged :- CombineAll(r, rs, idx);
      var m := idx[0];
      Ok(rs[..m] + rs[m + |idx|..] + [merged])
  }

  /** `add_range(r)`: the spliced list, sorted by start. Correctness is
      `AddRangeKeepsCanonical`. */
  function AddRange(rs: seq<Range>, r: Range): Result<seq<Range>> {
    var spliced :- Spliced(rs, r);
    Ok(SortBy(spliced, Start))
  }

  /** `[a, a + 1, ..., b - 1]`. */
  function Iota(a: nat, b: nat): (s: seq<nat>)
    ensures |s| == (if a < b then b - a else 0)
    ensures forall j :: 0 <= j < |s| ==> s[j] == a + j && s[j] < b
    decreases b - a
  {
    if a >= b then [] else [a] + Iota(a + 1, b)
  }

  /** Where a non-empty `r` falls in a canonical list: the ranges before
      `lo` end before `r` starts, those from `hi` on start after `r` ends,
      and those in between overlap or touch it. */
  ghost predicate Straddles(rs: seq<Range>, r: Range, lo: nat, hi: nat) {
    && lo <= hi <= |rs|
    && (forall i :: 0 <= i < lo ==> rs[i].stop < r.start)
    && (forall i :: lo <= i < hi ==> r.start <= rs[i].stop && rs[i].start <= r.stop)
    && (forall i :: hi <= i < |rs| ==> r.stop < rs[i].start)
  }

  function FirstReaching(rs: seq<Range>, v: int, i: nat): (j: nat)
    requires i <= |rs|
    ensures i <= j <= |rs| && (j < |rs| ==> v <= rs[j].stop)
    ensures forall k :: i <= k < j ==> rs[k].stop < v
    decreases |rs| - i
  {
    if i == |rs| || v <= rs[i].stop then i else FirstReaching(rs, v, i + 1)
  }

  function FirstPast(rs: seq<Range>, v: int, i: nat): (j: nat)
    requires i <= |rs|
    ensures i <= j <= |rs| && (j < |rs| ==> v < rs[j].start)
    ensures forall k :: i <= k < j ==> rs[k].start <= v
    decreases |rs| - i
  {
    if i == |rs| || v < rs[i].start then i else FirstPast(rs, v, i + 1)
  }

  lemma {:induction false} Straddle(rs: seq<Range>, r: Range) returns (lo: nat, hi: nat)
    requires Canonical(rs) && NonEmpty(r)
    ensures Straddles(rs, r, lo, hi)
  {
    lo := FirstReaching(rs, r.start, 0);
    hi := FirstPast(rs, r.stop, lo);
    forall i | lo <= i < |rs| ensures r.start <= rs[i].stop {
      if lo < i {
        Separated(rs, lo, i);
      }
    }
    forall i | hi <= i < |rs| ensures r.stop < rs[i].start {
      if hi < i {
        Separated(rs, hi, i);
      }
    }
  }

  lemma {:induction false} TouchingIsBlock(rs: seq<Range>, r: Range, lo: nat, hi: nat, i: nat)
    requires Canonical(rs) && NonEmpty(r) && Straddles(rs, r, lo, hi) && i <= |rs|
    ensures Touching(rs, r, i) == Iota(Max(i, lo), hi)
    decreases |rs| - i
  {
    if i < |rs| {
      OverlapMeaning(r, rs[i]);
      TouchingIsBlock(rs, r, lo, hi, i + 1);
      if lo <= i < hi {
        assert Max(i + 1, lo) == i + 1;
      }
    }
  }

  /** What the combining loop holds before index `k` of the block. */
  function Merged(rs: seq<Range>, r: Range, lo: nat, k: nat): Range
    requires lo < k <= |rs|
  {
    Range(Min(r.start, rs[lo].start), Max(r.stop, rs[k - 1].stop))
  }

  lemma {:induction false} CombineBlock(rs: seq<Range>, r: Range, lo: nat, hi: nat, k: nat, acc: Range)
    requires Canonical(rs) && NonEmpty(r) && Straddles(rs, r, lo, hi)
    requires lo <= k < hi && acc == (if k == lo then r else Merged(rs, r, lo, k))
    ensures CombineAll(acc, rs, Iota(k, hi)) == Ok(Merged(rs, r, lo, hi))
    decreases hi - k
  {
    var next := Merged(rs, r, lo, k + 1);
    assert NonEmpty(acc) && acc.start <= r.start && r.stop <= acc.stop;
    OverlapMeaning(acc, rs[k]);
    CombineIsUnion(acc, rs[k], 0);
    if k > lo {
      Separated(rs, lo, k);
      Separated(rs, k - 1, k);
    }
    assert Combine(acc, rs[k]) == Some(next);
    if k + 1 < hi {
      CombineBlock(rs, r, lo, hi, k + 1, next);
    }
  }

  /** `add_range` of a non-empty range keeps the list canonical, and the
      points it covers afterwards are the old points and those of `r`. */
  lemma {:induction false} AddRangeKeepsCanonical(rs: seq<Range>, r: Range)
    requires Canonical(rs) && NonEmpty(r)
    ensures AddRange(rs, r).Ok? && Canonical(AddRange(rs, r).value)
    ensures forall x :: Covers(AddRange(rs, r).value, x) <==> Covers(rs, x) || In(x, r)
  {
    var lo, hi, m := AddRangeSplices(rs, r);
    PlaceMerged(rs, r, lo, hi, m);
    SpliceCanonical(rs, lo, hi, m);
    var res := rs[..lo] + [m] + rs[hi..];
    forall x ensures Covers(res, x) <==> Covers(rs, x) || In(x, r) {
      if lo < hi {
        MergedCovers(rs, r, lo, hi, x);
      }
      SpliceCovers(rs, r, lo, hi, m, x);
    }
  }

  /** On a canonical list, `add_range` replaces the block of touching
      ranges by the merged range, in place. */
  lemma {:induction false} AddRangeSplices(rs: seq<Range>, r: Range) returns (lo: nat, hi: nat, m: Range)
    requires Canonical(rs) && NonEmpty(r)
    ensures Straddles(rs, r, lo, hi) && m == (if lo == hi then r else Merged(rs, r, lo, hi))
    ensures AddRange(rs, r) == Ok(rs[..lo] + [m] + rs[hi..])
  {
    lo, hi := Straddle(rs, r);
    m := if lo == hi then r else Merged(rs, r, lo, hi);
    AddRangeAppends(rs, r, lo, hi, m);
    var kept := rs[..lo] + rs[hi..];
    assert AddRange(rs, r) == Ok(SortBy(kept + [m], Start));
    KeptSorted(rs, lo, hi);
    PlaceMerged(rs, r, lo, hi, m);
    SortAppend(kept, m, lo);
    assert kept[..lo] == rs[..lo] && kept[lo..] == rs[hi..];
  }

  /** Sorting a sorted list with one element appended inserts it. */
  lemma {:induction false} SortAppend(kept: seq<Range>, m: Range, p: nat)
    requires SortedBy(kept, Start) && p <= |kept|
    requires forall i :: 0 <= i < p ==> kept[i].start <= m.start
    requires forall i :: p <= i < |kept| ==> m.start < kept[i].start
    ensures SortBy(kept + [m], Start) == kept[..p] + [m] + kept[p..]
  {
    assert (kept + [m])[..|kept|] == kept;
    assert SortBy(kept + [m], Start) == Insert(SortBy(kept, Start), m, Start);
    SortByOfSorted(kept, Start);
    InsertAt(kept, m, Start, p);
  }

  /** Before the sort, `add_range` leaves the ranges outside the block and
      the merged range at the end. */
  lemma {:induction false} AddRangeAppends(rs: seq<Range>, r: Range, lo: nat, hi: nat, m: Range)
    requires Canonical(rs) && NonEmpty(r) && Straddles(rs, r, lo, hi)
    requires m == (if lo == hi then r else Merged(rs, r, lo, hi))
    ensures Spliced(rs, r) == Ok(rs[..lo] + rs[hi..] + [m])
  {
    var idx := Touching(rs, r, 0);
    TouchingIsBlock(rs, r, lo, hi, 0);
    assert idx == Iota(lo, hi);
    if lo < hi {
      CombineBlock(rs, r, lo, hi, lo, r);
      SplicedBlock(rs, r, lo, hi, m);
    } else {
      assert rs[..lo] + rs[hi..] == rs;
    }
  }

  lemma {:induction false} SplicedBlock(rs: seq<Range>, r: Range, lo: nat, hi: nat, m: Range)
    requires lo < hi <= |rs| && Touching(rs, r, 0) == Iota(lo, hi)
    requires CombineAll(r, rs, Iota(lo, hi)) == Ok(m)
    ensures Spliced(rs, r) == Ok(rs[..lo] + rs[hi..] + [m])
  {
    var idx := Touching(rs, r, 0);
    assert |idx| == hi - lo && idx[0] == lo;
  }

  /** Dropping a block from a canonical list leaves it sorted. */
  lemma {:induction false} KeptSorted(rs: seq<Range>, lo: nat, hi: nat)
    requires Canonical(rs) && lo <= hi <= |rs|
    ensures SortedBy(rs[..lo] + rs[hi..], Start)
  {
    var kept := rs[..lo] + rs[hi..];
    forall i, j | 0 <= i < j < |kept| ensures kept[i].start <= kept[j].start {
      var i', j' := if i < lo then i else i + hi - lo, if j < lo then j else j + hi - lo;
      assert kept[i] == rs[i'] && kept[j] == rs[j'];
      Separated(rs, i', j');
    }
  }

  /** The merged range sorts right after the ranges before the block. */
  lemma {:induction false} PlaceMerged(rs: seq<Range>, r: Range, lo: nat, hi: nat, m: Range)
    requires Canonical(rs) && NonEmpty(r) && Straddles(rs, r, lo, hi)
    requires m == (if lo == hi then r else Merged(rs, r, lo, hi))
    ensures var kept := rs[..lo] + rs[hi..];
      && (forall i :: 0 <= i < lo ==> kept[i].start <= m.start)
      && (forall i :: lo <= i < |kept| ==> m.start < kept[i].start)
      && (lo > 0 ==> rs[lo - 1].stop < m.start)
      && (hi < |rs| ==> m.stop < rs[hi].start)
      && NonEmpty(m)
  {
    var kept := rs[..lo] + rs[hi..];
    forall i | 0 <= i < lo ensures kept[i].start <= m.start {
      if lo < hi {
        Separated(rs, i, lo);
      }
    }
    forall i | lo <= i < |kept| ensures m.start < kept[i].start {
      assert kept[i] == rs[i + hi - lo];
    }
    if lo > 0 && lo < hi {
      Separated(rs, lo - 1, lo);
    }
    if hi < |rs| && lo < hi {
      Separated(rs, hi - 1, hi);
    }
  }

  /** Replacing a block by a non-empty range that fits the gap keeps the
      list canonical. */
  lemma {:induction false} SpliceCanonical(rs: seq<Range>, lo: nat, hi: nat, m: Range)
    requires Canonical(rs) && lo <= hi <= |rs| && NonEmpty(m)
    requires lo > 0 ==> rs[lo - 1].stop < m.start
    requires hi < |rs| ==> m.stop < rs[hi].start
    ensures Canonical(rs[..lo] + [m] + rs[hi..])
  {
    var res := rs[..lo] + [m] + rs[hi..];
    forall i | 0 <= i < |res| - 1 ensures res[i].stop < res[i + 1].start {
      if i + 1 < lo {
        assert res[i] == rs[i] && res[i + 1] == rs[i + 1];
      } else if i > lo {
        assert res[i] == rs[i - lo - 1 + hi] && res[i + 1] == rs[i - lo + hi];
      }
    }
    forall i | 0 <= i < |res| ensures NonEmpty(res[i]) {
      if i < lo {
        assert res[i] == rs[i];
      } else if i > lo {
        assert res[i] == rs[i - lo - 1 + hi];
      }
    }
  }

  /** The merged range holds exactly the points of `r` and of the block. */
  lemma {:induction false} MergedCovers(rs: seq<Range>, r: Range, lo: nat, hi: nat, x: int)
    requires Canonical(rs) && NonEmpty(r) && Straddles(rs, r, lo, hi) && lo < hi
    ensures In(x, Merged(rs, r, lo, hi)) <==> In(x, r) || exists k :: lo <= k < hi && In(x, rs[k])
  {
    var m := Merged(rs, r, lo, hi);
    if In(x, m) && !In(x, r) {
      if x < r.start {
        assert In(x, rs[lo]);
      } else {
        assert In(x, rs[hi - 1]);
      }
    }
    if k :| lo <= k < hi && In(x, rs[k]) {
      if lo < k {
        Separated(rs, lo, k);
      }
      if k < hi - 1 {
        Separated(rs, k, hi - 1);
      }
    }
  }

  lemma {:induction false} SpliceCovers(rs: seq<Range>, r: Range, lo: nat, hi: nat, m: Range, x: int)
    requires lo <= hi <= |rs|
    requires In(x, m) <==> In(x, r) || exists k :: lo <= k < hi && In(x, rs[k])
    ensures Covers(rs[..lo] + [m] + rs[hi..], x) <==> Covers(rs, x) || In(x, r)
  {
    var res := rs[..lo] + [m] + rs[hi..];
    if i :| 0 <= i < |res| && In(x, res[i]) {
      if i < lo {
        assert res[i] == rs[i];
      } else if i > lo {
        assert res[i] == rs[i - lo - 1 + hi];
      }
    }
    if i :| 0 <= i < |rs| && In(x, rs[i]) {
      if i < lo {
        assert res[i] == rs[i];
      } else if i >= hi {
        assert res[i - hi + lo + 1] == rs[i];
      } else {
        assert res[lo] == m;
      }
    }
    if In(x, r) {
      assert res[lo] == m;
    }
  }

  /** Sorting by start keeps the covered points. */
  lemma {:induction false} SortCovers(rs: seq<Range>, x: int)
    ensures Covers(SortBy(rs, Start), x) <==> Covers(rs, x)
  {
    var sorted := SortBy(rs, Start);
    SortByPermutes(rs, Start);
    if i :| 0 <= i < |sorted| && In(x, sorted[i]) {
      assert sorted[i] in multiset(rs);
      var j :| 0 <= j < |rs| && rs[j] == sorted[i];
    }
    if i :| 0 <= i < |rs| && In(x, rs[i]) {
      assert rs[i] in multiset(sorted);
      var j :| 0 <= j < |sorted| && sorted[j] == rs[i];
    }
  }

  // ---------------------------------------------------------------------
  // remove_range

  /** The four branches of the loop body of `remove_range` for one stored
      range `cur`: inside `r`, overlapping its start, overlapping its end,
      containing it. A range that takes none of them contributes nothing. */
  function CutAsWritten(cur: Range, r: Range): seq<Range> {
    if cur.start >= r.start && cur.stop <= r.stop then []
    else if cur.start <= r.start && cur.stop >= r.start && cur.stop <= r.stop then
      [Range(cur.start, r.start)]
    else if cur.stop >= r.stop && cur.start >= r.start && cur.start <= r.stop then
      [Range(r.stop, cur.stop)]
    else if r.start >= cur.start && r.stop <= cur.stop then
      [Range(cur.start, r.start), Range(r.stop, cur.stop)]
    else []
  }

  /** `cur` takes none of the four branches. */
  predicate Untouched(cur: Range, r: Range) {
    && !(cur.start >= r.start && cur.stop <= r.stop)
    && !(cur.start <= r.start && cur.stop >= r.start && cur.stop <= r.stop)
    && !(cur.stop >= r.stop && cur.start >= r.start && cur.start <= r.stop)
    && !(r.start >= cur.start && r.stop <= cur.stop)
  }

  /** The loop body with the missing `else`: a range that takes no branch is kept. */
  function Cut(cur: Range, r: Range): seq<Range> {
    if Untouched(cur, r) then [cur] else CutAsWritten(cur, r)
  }

  /** A range that takes no branch shares no point with `r`, and the
      pieces `Cut` leaves are exactly the points of `cur` outside `r`. */
  lemma {:induction false} CutIsDifference(cur: Range, r: Range, x: int)
    requires r.start <= r.stop
    ensures Untouched(cur, r) ==> !(In(x, cur) && In(x, r))
    ensures Covers(Cut(cur, r), x) <==> In(x, cur) && !In(x, r)
  {
    var pieces := Cut(cur, r);
    if Untouched(cur, r) {
      assert pieces == [cur];
      CoversOne(cur, x);
    } else if cur.start >= r.start && cur.stop <= r.stop {
      assert pieces == [];
    } else if cur.start <= r.start && cur.stop >= r.start && cur.stop <= r.stop {
      CoversOne(Range(cur.start, r.start), x);
    } else if cur.stop >= r.stop && cur.start >= r.start && cur.start <= r.stop {
      CoversOne(Range(r.stop, cur.stop), x);
    } else {
      assert pieces == [Range(cur.start, r.start)] + [Range(r.stop, cur.stop)];
      CoversOne(Range(cur.start, r.start), x);
      CoversOne(Range(r.stop, cur.stop), x);
      CoversAppend([Range(cur.start, r.start)], [Range(r.stop, cur.stop)], x);
    }
  }

  lemma {:induction false} CoversOne(a: Range, x: int)
    ensures Covers([a], x) <==> In(x, a)
  {
    if In(x, a) {
      assert In(x, [a][0]);
    }
  }

  /** The pieces of every stored range, in list order. */
  function CutEach(rs: seq<Range>, r: Range, keepApart: bool): seq<Range> {
    if |rs| == 0 then []
    else (if keepApart then Cut(rs[0], r) else CutAsWritten(rs[0], r)) + CutEach(rs[1..], r, keepApart)
  }

  /** `remove_range(r)` as written: the pieces, sorted by start. */
  function RemoveRangeAsWritten(rs: seq<Range>, r: Range): seq<Range> {
    SortBy(CutEach(rs, r, false), Start)
  }

  /** `remove_range(r)` with the missing `else` branch. */
  function RemoveRange(rs: seq<Range>, r: Range): seq<Range> {
    SortBy(CutEach(rs, r, true), Start)
  }

  lemma {:induction false} CutEachCovers(rs: seq<Range>, r: Range, x: int)
    requires r.start <= r.stop
    ensures Covers(CutEach(rs, r, true), x) <==> Covers(rs, x) && !In(x, r)
    ensures Covers(CutEach(rs, r, false), x) ==> Covers(rs, x) && !In(x, r)
  {
    if |rs| > 0 {
      CutEachCovers(rs[1..], r, x);
      CutIsDifference(rs[0], r, x);
      CoversAppend(Cut(rs[0], r), CutEach(rs[1..], r, true), x);
      CoversAppend(CutAsWritten(rs[0], r), CutEach(rs[1..], r, false), x);
      CoversCons(rs, x);
      if !Untouched(rs[0], r) {
        assert Cut(rs[0], r) == CutAsWritten(rs[0], r);
      }
    }
  }

  lemma {:induction false} CoversAppend(a: seq<Range>, b: seq<Range>, x: int)
    ensures Covers(a + b, x) <==> Covers(a, x) || Covers(b, x)
  {
    var ab := a + b;
    if i :| 0 <= i < |ab| && In(x, ab[i]) {
      if i >= |a| {
        assert ab[i] == b[i - |a|];
      }
    }
    if i :| 0 <= i < |b| && In(x, b[i]) {
      assert ab[i + |a|] == b[i];
    }
    if i :| 0 <= i < |a| && In(x, a[i]) {
      assert ab[i] == a[i];
    }
  }

  lemma {:induction false} CoversCons(rs: seq<Range>, x: int)
    requires |rs| > 0
    ensures Covers(rs, x) <==> In(x, rs[0]) || Covers(rs[1..], x)
  {
    if i :| 0 <= i < |rs| && In(x, rs[i]) {
      if i > 0 {
        assert rs[1..][i - 1] == rs[i];
      }
    }
  }

  /** With the `else` branch, `remove_range` removes exactly the points of `r`. */
  lemma {:induction false} RemoveRangeIsDifference(rs: seq<Range>, r: Range, x: int)
    requires r.start <= r.stop
    ensures Covers(RemoveRange(rs, r), x) <==> Covers(rs, x) && !In(x, r)
  {
    CutEachCovers(rs, r, x);
    SortCovers(CutEach(rs, r, true), x);
  }

  /** As written, `remove_range` never adds a point and removes every
      point of `r`, but may remove more. */
  lemma {:induction false} RemoveRangeAsWrittenIsSound(rs: seq<Range>, r: Range, x: int)
    requires r.start <= r.stop
    ensures Covers(RemoveRangeAsWritten(rs, r), x) ==> Covers(rs, x) && !In(x, r)
  {
    CutEachCovers(rs, r, x);
    SortCovers(CutEach(rs, r, false), x);
  }

  /** Removing `[20, 30)` from `[[0, 10)]` drops `[0, 10)` as well. */
  lemma {:induction false} RemoveRangeDropsApart()
    ensures RemoveRangeAsWritten([Range(0, 10)], Range(20, 30)) == []
    ensures RemoveRange([Range(0, 10)], Range(20, 30)) == [Range(0, 10)]
    ensures Covers([Range(0, 10)], 5) && !In(5, Range(20, 30))
  {
    assert In(5, [Range(0, 10)][0]);
  }

  // ---------------------------------------------------------------------
  // __contains__

  /** The binary search of `__contains__` over indices `[lo, hi)`; `ind`
      is always `(lo + hi) // 2`. `stopAtLast` is the source's extra exit
      at the last index. */
  function Search(rs: seq<Range>, v: int, lo: nat, hi: nat, stopAtLast: bool): bool
    requires lo < hi <= |rs|
    decreases hi - lo
  {
    var ind := (lo + hi) / 2;
    if In(v, rs[ind]) then true
    else if ind == lo || (stopAtLast && ind == |rs| - 1) then false
    else if v < rs[ind].start then Search(rs, v, lo, ind, stopAtLast)
    else if v > rs[ind].stop then Search(rs, v, ind, hi, stopAtLast)
    else false
  }

  /** `value in ranges` as written. */
  function ContainsAsWritten(rs: seq<Range>, v: int): bool {
    if |rs| == 0 then false else Search(rs, v, 0, |rs|, true)
  }

  /** `value in ranges` without the exit at the last index. */
  function Contains(rs: seq<Range>, v: int): bool {
    if |rs| == 0 then false else Search(rs, v, 0, |rs|, false)
  }

  /** The search only says True for a covered value. */
  lemma {:induction false} SearchSound(rs: seq<Range>, v: int, lo: nat, hi: nat, stopAtLast: bool)
    requires lo < hi <= |rs|
    ensures Search(rs, v, lo, hi, stopAtLast) ==> Covers(rs, v)
    decreases hi - lo
  {
    var ind := (lo + hi) / 2;
    if !In(v, rs[ind]) && ind != lo && !(stopAtLast && ind == |rs| - 1) {
      if v < rs[ind].start {
        SearchSound(rs, v, lo, ind, stopAtLast);
      } else if v > rs[ind].stop {
        SearchSound(rs, v, ind, hi, stopAtLast);
      }
    }
  }

  /** On a canonical list the search finds every covered value, unless
      it takes the exit at the last index on a two-range list. */
  lemma {:induction false} SearchComplete(rs: seq<Range>, v: int, lo: nat, hi: nat, stopAtLast: bool)
    requires Canonical(rs) && lo < hi <= |rs|
    requires forall k :: 0 <= k < |rs| && In(v, rs[k]) ==> lo <= k < hi
    requires lo > 0 ==> !In(v, rs[lo])
    requires stopAtLast ==> |rs| != 2
    ensures Search(rs, v, lo, hi, stopAtLast) <==> Covers(rs, v)
    decreases hi - lo
  {
    SearchSound(rs, v, lo, hi, stopAtLast);
    var ind := (lo + hi) / 2;
    if !In(v, rs[ind]) {
      if v < rs[ind].start {
        forall k | 0 <= k < |rs| && In(v, rs[k]) ensures k < ind {
          if k > ind {
            Separated(rs, ind, k);
          }
        }
      } else {
        forall k | 0 <= k < |rs| && In(v, rs[k]) ensures ind < k {
          if k < ind {
            Separated(rs, k, ind);
          }
        }
      }
      if ind == lo || (stopAtLast && ind == |rs| - 1) {
      } else if v < rs[ind].start {
        SearchComplete(rs, v, lo, ind, stopAtLast);
      } else if v > rs[ind].stop {
        SearchComplete(rs, v, ind, hi, stopAtLast);
      } else {
        forall k | 0 <= k < |rs| ensures !In(v, rs[k]) {
          if ind < k {
            Separated(rs, ind, k);
          }
        }
      }
    }
  }

  /** Membership without the last-index exit is exact on canonical lists. */
  lemma {:induction false} ContainsIsCovers(rs: seq<Range>, v: int)
    requires Canonical(rs)
    ensures Contains(rs, v) <==> Covers(rs, v)
  {
    if |rs| > 0 {
      SearchComplete(rs, v, 0, |rs|, false);
    }
  }

  /** As written, membership is sound, and exact except on two ranges. */
  lemma {:induction false} ContainsAsWrittenIsSound(rs: seq<Range>, v: int)
    requires Canonical(rs)
    ensures ContainsAsWritten(rs, v) ==> Covers(rs, v)
    ensures |rs| != 2 ==> (ContainsAsWritten(rs, v) <==> Covers(rs, v))
  {
    if |rs| > 0 {
      SearchSound(rs, v, 0, |rs|, true);
      if |rs| != 2 {
        SearchComplete(rs, v, 0, |rs|, true);
      }
    }
  }

  /** With two ranges only the second is searched: 5 is in `[0, 10)`,
      but `5 in ranges` says False. */
  lemma {:induction false} ContainsMissesFirstOfTwo()
    ensures Canonical([Range(0, 10), Range(20, 30)])
    ensures !ContainsAsWritten([Range(0, 10), Range(20, 30)], 5)
    ensures Contains([Range(0, 10), Range(20, 30)], 5)
  {
  }
}
