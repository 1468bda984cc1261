/** Merging byte ranges that lie close together, so that fewer are fetched. */
module RangeCoalescing {
  import opened Grouping

  /** Ranges in file order that do not overlap. */
  ghost predicate InOrder(ranges: seq<Range>) {
    && (forall k :: 0 <= k < |ranges| ==> ranges[k].start <= ranges[k].end)
    && forall j, k :: 0 <= j < k < |ranges| ==> ranges[j].end <= ranges[k].start
  }

  ghost predicate Within(inner: Range, outer: Range) {
    outer.start <= inner.start && inner.end <= outer.end
  }

  ghost predicate Covered(r: Range, cover: seq<Range>) {
    exists m :: 0 <= m < |cover| && Within(r, cover[m])
  }

  /** Widening a list of ranges keeps what it covers. */
  lemma CoverWidens(r: Range, before: seq<Range>, after: seq<Range>)
    requires Covered(r, before) && |before| <= |after|
    requires forall m :: 0 <= m < |before| ==> Within(before[m], after[m])
    ensures Covered(r, after)
  {
    var m :| 0 <= m < |before| && Within(r, before[m]);
    assert Within(r, after[m]);
  }

  /** r begins and ends where ranges of the list do. */
  ghost predicate Spanned(r: Range, ranges: seq<Range>) {
    exists i, j :: 0 <= i <= j < |ranges| && r.start == ranges[i].start && r.end == ranges[j].end
  }

  ghost predicate AllCovered(ranges: seq<Range>, cover: seq<Range>) {
    forall k :: 0 <= k < |ranges| ==> Covered(ranges[k], cover)
  }

  ghost predicate AllSpanned(result: seq<Range>, ranges: seq<Range>) {
    forall m :: 0 <= m < |result| ==> Spanned(result[m], ranges)
  }

  ghost predicate Gapped(ranges: seq<Range>, maxGap: nat) {
    forall j, k :: 0 <= j < k < |ranges| ==> ranges[j].end + maxGap < ranges[k].start
  }

  /** Neighbours further apart than `maxGap` are not merged. */
  ghost predicate NoWideGap(ranges: seq<Range>, maxGap: nat, result: seq<Range>) {
    forall k, m :: 0 <= k < |ranges| - 1 && 0 <= m < |result| && ranges[k].end + maxGap < ranges[k + 1].start ==>
                     result[m].end <= ranges[k].end || ranges[k + 1].start <= result[m].start
  }

  /** A result so far: in order, gaps above `maxGap`, covering `ranges`, no wider than needed. */
  ghost predicate Coalesced(ranges: seq<Range>, maxGap: nat, result: seq<Range>) {
    && InOrder(result)
    && (result == [] <==> ranges == [])
    && AllCovered(ranges, result)
    && Gapped(result, maxGap)
    && AllSpanned(result, ranges)
    && NoWideGap(ranges, maxGap, result)
    && (result != [] ==> result[|result| - 1].end == ranges[|ranges| - 1].end)
  }

  lemma CoalescedNone(maxGap: nat)
    ensures Coalesced([], maxGap, [])
  {
  }

  lemma LastEnd(ranges: seq<Range>, maxGap: nat, result: seq<Range>)
    requires Coalesced(ranges, maxGap, result) && |result| > 0
    ensures |ranges| > 0 && result[|result| - 1].end == ranges[|ranges| - 1].end
  {
  }

  lemma SpannedSnoc(r: Range, ranges: seq<Range>, range: Range)
    requires Spanned(r, ranges)
    ensures Spanned(r, ranges + [range]) && Spanned(Range(r.start, range.end), ranges + [range])
  {
    var i, j :| 0 <= i <= j < |ranges| && r.start == ranges[i].start && r.end == ranges[j].end;
    var all := ranges + [range];
    assert r.start == all[i].start && r.end == all[j].end && range.end == all[|ranges|].end;
  }

  /** What a turn of the loop does to the result. */
  function AddRange(result: seq<Range>, range: Range, maxGap: nat): (after: seq<Range>) {
    if result != [] && range.start - result[|result| - 1].end <= maxGap
    then result[|result| - 1 := Range(result[|result| - 1].start, range.end)]
    else result + [range]
  }

  lemma StepCovers(ranges: seq<Range>, result: seq<Range>, range: Range, maxGap: nat)
    requires AllCovered(ranges, result)
    requires range.start <= range.end && InOrder(result) && (result != [] ==> result[|result| - 1].end <= range.start)
    ensures AllCovered(ranges + [range], AddRange(result, range, maxGap))
  {
    var all, after := ranges + [range], AddRange(result, range, maxGap);
    forall k | 0 <= k < |all| ensures Covered(all[k], after) {
      if k == |ranges| {
        assert Within(range, after[|after| - 1]);
      } else {
        CoverWidens(ranges[k], result, after);
      }
    }
  }

  lemma StepSpans(ranges: seq<Range>, result: seq<Range>, range: Range, maxGap: nat)
    requires AllSpanned(result, ranges)
    ensures AllSpanned(AddRange(result, range, maxGap), ranges + [range])
  {
    var all, after := ranges + [range], AddRange(result, range, maxGap);
    forall m | 0 <= m < |after| ensures Spanned(after[m], all) {
      if m < |result| {
        SpannedSnoc(result[m], ranges, range);
      } else {
        assert all[|ranges|] == range;
      }
    }
  }

  lemma StepOrders(result: seq<Range>, range: Range, maxGap: nat)
    requires InOrder(result) && Gapped(result, maxGap)
    requires range.start <= range.end && (result != [] ==> result[|result| - 1].end <= range.start)
    ensures InOrder(AddRange(result, range, maxGap)) && Gapped(AddRange(result, range, maxGap), maxGap)
  {
    var after := AddRange(result, range, maxGap);
    forall j, k | 0 <= j < k < |after| ensures after[j].end + maxGap < after[k].start {
      if k == |result| && j < |result| - 1 {
        assert result[j].end + maxGap < result[|result| - 1].start;
      }
    }
  }

  lemma StepKeepsGaps(ranges: seq<Range>, maxGap: nat, result: seq<Range>, range: Range)
    requires NoWideGap(ranges, maxGap, result) && InOrder(ranges) && AllSpanned(result, ranges) && range.start <= range.end
    requires ranges != [] ==> ranges[|ranges| - 1].end <= range.start
    requires result != [] ==> ranges != [] && result[|result| - 1].end == ranges[|ranges| - 1].end
    ensures NoWideGap(ranges + [range], maxGap, AddRange(result, range, maxGap))
  {
    var all, after := ranges + [range], AddRange(result, range, maxGap);
    forall k, m | 0 <= k < |all| - 1 && 0 <= m < |after| && all[k].end + maxGap < all[k + 1].start
      ensures after[m].end <= all[k].end || all[k + 1].start <= after[m].start
    {
      assert all[k] == ranges[k];
      if k == |ranges| - 1 {
        if m < |result| {
          EndsInside(ranges, result[m]);
        }
      } else if m < |result| {
        assert result[m].end <= ranges[k].end || ranges[k + 1].start <= result[m].start;
      }
    }
  }

  lemma EndsInside(ranges: seq<Range>, r: Range)
    requires InOrder(ranges) && Spanned(r, ranges)
    ensures ranges != [] && r.end <= ranges[|ranges| - 1].end
  {
  }

  /** One turn of the loop keeps the result coalesced, whether the range is merged or appended. */
  lemma CoalesceStep(ranges: seq<Range>, maxGap: nat, result: seq<Range>, range: Range)
    requires Coalesced(ranges, maxGap, result) && InOrder(ranges) && range.start <= range.end
    requires ranges != [] ==> ranges[|ranges| - 1].end <= range.start
    ensures Coalesced(ranges + [range], maxGap, AddRange(result, range, maxGap))
  {
    hide AllCovered, AllSpanned, InOrder, Gapped, NoWideGap;
    StepCovers(ranges, result, range, maxGap);
    StepSpans(ranges, result, range, maxGap);
    StepOrders(result, range, maxGap);
    StepKeepsGaps(ranges, maxGap, result, range);
  }

  lemma InOrderAt(ranges: seq<Range>, n: nat)
    requires InOrder(ranges) && n < |ranges|
    ensures ranges[n].start <= ranges[n].end && (n > 0 ==> ranges[n - 1].end <= ranges[n].start) && InOrder(ranges[..n])
  {
  }

  /** The loop body: widen the last result or start a new one. */
  method Merge(result: seq<Range>, range: Range, maxGap: nat) returns (after: seq<Range>)
    requires result != [] ==> result[|result| - 1].end <= range.end
    ensures after == AddRange(result, range, maxGap)
  {
    if result != [] && range.start - result[|result| - 1].end <= maxGap {
      var last := result[|result| - 1];
      after := result[|result| - 1 := Range(last.start, if last.end >= range.end then last.end else range.end)];
    } else {
      after := result + [range];
    }
  }

  /**
   Merges ranges whose gap is at most `maxGap`: every range is still covered, the results lie in order with larger
   gaps between them, and each begins and ends where some range does.
   */
  method Coalesce(ranges: seq<Range>, maxGap: nat) returns (result: seq<Range>)
    requires InOrder(ranges)
    ensures Coalesced(ranges, maxGap, result)
  {
    hide Coalesced, AddRange, InOrder;
    CoalescedNone(maxGap);
    result := [];
    ghost var done: seq<Range> := [];
    for n := 0 to |ranges|
      invariant Coalesced(done, maxGap, result) && done == ranges[..n]
    {
      if |result| > 0 {
        LastEnd(done, maxGap, result);
      }
      InOrderAt(ranges, n);
      CoalesceStep(done, maxGap, result, ranges[n]);
      result := Merge(result, ranges[n], maxGap);
      done := done + [ranges[n]];
    }
    assert done == ranges;
  }
}
