/**
 Content-defined grouping: the greedy partition both levels of a block map use. Blocks are grouped on their hashes and
 groups are super-grouped on theirs, by the same rule with other parameters.
 */
module Grouping {
  import opened Seqs

  /** Indices [start, end) of the members of one group. */
  datatype Range = Range(start: nat, end: nat)

  /** What the close rule sees of one item: its hash carries the cut marker, a boundary is forced before it. */
  datatype Item = Item(marker: bool, forced: bool)

  /** Fewest members before a marker may close a group, and the most a group has. */
  datatype Limits = Limits(min: nat, max: nat)

  /** The close rule: does a group started at `start` end with item i? */
  predicate Closes(items: seq<Item>, limits: Limits, start: nat, i: nat)
    requires start <= i < |items|
  {
    var count := i - start + 1;
    var forced := i + 1 >= |items| || items[i + 1].forced;
    forced || count >= limits.max || (count >= limits.min && items[i].marker)
  }

  /** The groups closed from item i on, when the open group started at `start`. */
  function GroupsFrom(items: seq<Item>, limits: Limits, start: nat, i: nat): (groups: seq<Range>)
    requires start <= i <= |items|
    decreases |items| - i
  {
    if i == |items| then []
    else if Closes(items, limits, start, i) then [Range(start, i + 1)] + GroupsFrom(items, limits, i + 1, i + 1)
    else GroupsFrom(items, limits, start, i + 1)
  }

  function Groups(items: seq<Item>, limits: Limits): (groups: seq<Range>) {
    GroupsFrom(items, limits, 0, 0)
  }

  // ---- the greedy partition as a property

  /** Non-empty ranges that follow one another from `lo` to `hi`. */
  ghost predicate Partitions(ranges: seq<Range>, lo: nat, hi: nat) {
    && (forall k :: 0 <= k < |ranges| ==> ranges[k].start < ranges[k].end <= hi)
    && (forall k :: 1 <= k < |ranges| ==> ranges[k].start == ranges[k - 1].end)
    && (if ranges == [] then lo == hi else ranges[0].start == lo && ranges[|ranges| - 1].end == hi)
  }

  lemma PartitionsCons(tail: seq<Range>, lo: nat, mid: nat, hi: nat)
    requires lo < mid && Partitions(tail, mid, hi)
    ensures Partitions([Range(lo, mid)] + tail, lo, hi)
  {
    var all := [Range(lo, mid)] + tail;
    forall k | 0 <= k < |all|
      ensures all[k].start < all[k].end <= hi
      ensures k > 0 ==> all[k].start == all[k - 1].end
    {
      if k > 0 {
        assert all[k] == tail[k - 1];
        assert k > 1 ==> all[k - 1] == tail[k - 2];
      }
    }
  }

  /** A group ends at the first item where the close rule holds. */
  ghost predicate EndsAtFirstClose(items: seq<Item>, limits: Limits, range: Range)
    requires range.start < range.end <= |items|
  {
    && Closes(items, limits, range.start, range.end - 1)
    && forall i :: range.start <= i < range.end - 1 ==> !Closes(items, limits, range.start, i)
  }

  ghost predicate IsGreedy(items: seq<Item>, limits: Limits, ranges: seq<Range>, lo: nat) {
    && Partitions(ranges, lo, |items|)
    && forall k :: 0 <= k < |ranges| ==> EndsAtFirstClose(items, limits, ranges[k])
  }

  lemma GreedyCons(items: seq<Item>, limits: Limits, rest: seq<Range>, start: nat, end: nat)
    requires start < end <= |items| && EndsAtFirstClose(items, limits, Range(start, end))
    requires IsGreedy(items, limits, rest, end)
    ensures IsGreedy(items, limits, [Range(start, end)] + rest, start)
  {
    hide EndsAtFirstClose;
    PartitionsCons(rest, start, end, |items|);
    var all := [Range(start, end)] + rest;
    forall k | 0 <= k < |all| ensures EndsAtFirstClose(items, limits, all[k]) {
      assert k > 0 ==> all[k] == rest[k - 1];
    }
  }

  lemma {:induction false} GroupsFromIsGreedy(items: seq<Item>, limits: Limits, start: nat, i: nat)
    requires start <= i <= |items|
    requires i < |items| || start == i
    requires forall j :: start <= j < i ==> !Closes(items, limits, start, j)
    ensures IsGreedy(items, limits, GroupsFrom(items, limits, start, i), start)
    decreases |items| - i
  {
    if i < |items| {
      if Closes(items, limits, start, i) {
        GroupsFromIsGreedy(items, limits, i + 1, i + 1);
        GreedyCons(items, limits, GroupsFrom(items, limits, i + 1, i + 1), start, i + 1);
      } else {
        GroupsFromIsGreedy(items, limits, start, i + 1);
      }
    }
  }

  /** The loop computes a greedy partition of all items. */
  lemma GroupsAreGreedy(items: seq<Item>, limits: Limits)
    ensures IsGreedy(items, limits, Groups(items, limits), 0)
  {
    GroupsFromIsGreedy(items, limits, 0, 0);
  }

  /** There is only one greedy partition. */
  lemma {:induction false} GreedyIsUnique(items: seq<Item>, limits: Limits, p: seq<Range>, q: seq<Range>, lo: nat)
    requires IsGreedy(items, limits, p, lo) && IsGreedy(items, limits, q, lo)
    ensures p == q
    decreases |p|
  {
    if p == [] {
      assert q == [];
    } else {
      assert q != [];
      assert EndsAtFirstClose(items, limits, p[0]) && EndsAtFirstClose(items, limits, q[0]);
      assert p[0] == q[0];
      GreedyTail(items, limits, p, lo);
      GreedyTail(items, limits, q, lo);
      GreedyIsUnique(items, limits, p[1..], q[1..], p[0].end);
    }
  }

  lemma GreedyTail(items: seq<Item>, limits: Limits, p: seq<Range>, lo: nat)
    requires IsGreedy(items, limits, p, lo) && p != []
    ensures IsGreedy(items, limits, p[1..], p[0].end)
  {
    var tail := p[1..];
    forall k | 0 <= k < |tail|
      ensures tail[k].start < tail[k].end <= |items|
      ensures tail[k].start == if k == 0 then p[0].end else tail[k - 1].end
      ensures EndsAtFirstClose(items, limits, tail[k])
    {
      assert tail[k] == p[k + 1];
    }
  }

  /** Sizes: at most `max`, and at least `min` unless the next boundary is forced. */
  lemma GroupSizes(items: seq<Item>, limits: Limits, k: nat)
    requires 1 <= limits.min <= limits.max
    requires k < |Groups(items, limits)|
    ensures var r := Groups(items, limits)[k];
            && r.start < r.end <= |items|
            && r.end - r.start <= limits.max
            && (r.end < |items| && !items[r.end].forced ==> r.end - r.start >= limits.min)
  {
    GroupsAreGreedy(items, limits);
    var r := Groups(items, limits)[k];
    assert EndsAtFirstClose(items, limits, r);
    if r.end - r.start > limits.max {
      assert Closes(items, limits, r.start, r.end - 2);
    }
  }

  /** Every item a boundary is forced before starts a group. */
  lemma ForcedItemStartsGroup(items: seq<Item>, limits: Limits, j: nat)
    requires j < |items| && (j == 0 || items[j].forced)
    ensures exists k :: 0 <= k < |Groups(items, limits)| && Groups(items, limits)[k].start == j
  {
    GroupsAreGreedy(items, limits);
    var k := GroupOf(Groups(items, limits), 0, |items|, j);
    var r := Groups(items, limits)[k];
    assert EndsAtFirstClose(items, limits, r);
    if r.start < j {
      assert Closes(items, limits, r.start, j - 1);
    }
  }

  /** Every index lies in exactly one range of a partition; this finds it. */
  lemma {:induction false} GroupOf(ranges: seq<Range>, lo: nat, hi: nat, j: nat) returns (k: nat)
    requires Partitions(ranges, lo, hi) && lo <= j < hi
    ensures k < |ranges| && ranges[k].start <= j < ranges[k].end
  {
    k := 0;
    while k + 1 < |ranges| && ranges[k].end <= j
      invariant k < |ranges| && ranges[k].start <= j
      decreases |ranges| - k
    {
      k := k + 1;
    }
  }

  /** The sizes of the ranges. */
  function Lengths(ranges: seq<Range>): (lengths: seq<int>)
    ensures |lengths| == |ranges|
  {
    seq(|ranges|, k requires 0 <= k < |ranges| => ranges[k].end - ranges[k].start)
  }

  /** Per range, the sum of the values of its members. */
  function RangeSums(xs: seq<int>, ranges: seq<Range>): (sums: seq<int>)
    requires forall k :: 0 <= k < |ranges| ==> ranges[k].start <= ranges[k].end <= |xs|
    ensures |sums| == |ranges|
  {
    seq(|ranges|, k requires 0 <= k < |ranges| && ranges[k].start <= ranges[k].end <= |xs| => Sum(xs[ranges[k].start..ranges[k].end]))
  }

  lemma PartitionsTail(ranges: seq<Range>, lo: nat, hi: nat)
    requires Partitions(ranges, lo, hi) && ranges != []
    ensures Partitions(ranges[1..], ranges[0].end, hi)
  {
    var tail := ranges[1..];
    forall k | 0 <= k < |tail|
      ensures tail[k].start < tail[k].end <= hi
      ensures k > 0 ==> tail[k].start == tail[k - 1].end
    {
      assert tail[k] == ranges[k + 1];
    }
  }

  /** A partition loses nothing: its sizes add up to the whole. */
  lemma {:induction false} LengthsSum(ranges: seq<Range>, lo: nat, hi: nat)
    requires Partitions(ranges, lo, hi)
    ensures Sum(Lengths(ranges)) == hi - lo
    decreases |ranges|
  {
    if ranges != [] {
      PartitionsTail(ranges, lo, hi);
      LengthsSum(ranges[1..], ranges[0].end, hi);
      assert Lengths(ranges)[1..] == Lengths(ranges[1..]);
    }
  }

  /** Range k starts where the sizes before it end. */
  lemma {:induction false} LengthsPrefix(ranges: seq<Range>, lo: nat, hi: nat, k: nat)
    requires Partitions(ranges, lo, hi) && k < |ranges|
    ensures Sum(Lengths(ranges)[..k]) == ranges[k].start - lo
    decreases k
  {
    if k > 0 {
      PartitionsTail(ranges, lo, hi);
      LengthsPrefix(ranges[1..], ranges[0].end, hi, k - 1);
      hide Partitions;
      assert Lengths(ranges)[..k][1..] == Lengths(ranges[1..])[..k - 1];
    }
  }

  /** The sums of the parts add up to the sum of the whole. */
  lemma {:induction false} RangeSumsSum(xs: seq<int>, ranges: seq<Range>, lo: nat)
    requires Partitions(ranges, lo, |xs|)
    ensures Sum(RangeSums(xs, ranges)) == Sum(xs[lo..])
    decreases |ranges|
  {
    if ranges != [] {
      PartitionsTail(ranges, lo, |xs|);
      var e := ranges[0].end;
      RangeSumsSum(xs, ranges[1..], e);
      assert RangeSums(xs, ranges)[1..] == RangeSums(xs, ranges[1..]);
      assert xs[lo..] == xs[lo..e] + xs[e..];
      SumAppend(xs[lo..e], xs[e..]);
    } else {
      assert xs[lo..] == [];
    }
  }

  // ---- locality

  function Shift(ranges: seq<Range>, delta: nat): (r: seq<Range>)
    ensures |r| == |ranges|
    ensures forall k :: 0 <= k < |r| ==> r[k] == Range(ranges[k].start + delta, ranges[k].end + delta)
  {
    seq(|ranges|, k requires 0 <= k < |ranges| => Range(ranges[k].start + delta, ranges[k].end + delta))
  }

  /** Grouping from a group start on does not look at what comes before it. */
  lemma {:induction false} GroupsIgnorePrefix(items: seq<Item>, limits: Limits, e: nat, start: nat, i: nat)
    requires e <= |items| && start <= i <= |items| - e
    ensures GroupsFrom(items, limits, start + e, i + e) == Shift(GroupsFrom(items[e..], limits, start, i), e)
    decreases |items| - e - i
  {
    if i < |items| - e {
      assert Closes(items, limits, start + e, i + e) == Closes(items[e..], limits, start, i);
      if Closes(items[e..], limits, start, i) {
        GroupsIgnorePrefix(items, limits, e, i + 1, i + 1);
      } else {
        GroupsIgnorePrefix(items, limits, e, start, i + 1);
      }
    }
  }

  /** Up to a forced boundary, grouping does not look at what comes after it. */
  lemma {:induction false} GroupsIgnoreSuffix(a: seq<Item>, b: seq<Item>, limits: Limits, start: nat, i: nat)
    requires start <= i <= |a| && (i == |a| ==> start == i)
    requires b != [] ==> b[0].forced
    ensures GroupsFrom(a + b, limits, start, i) == GroupsFrom(a, limits, start, i) + Shift(Groups(b, limits), |a|)
    decreases |a| - i
  {
    var items := a + b;
    if i == |a| {
      GroupsIgnorePrefix(items, limits, |a|, 0, 0);
      assert items[|a|..] == b;
    } else {
      assert Closes(items, limits, start, i) == Closes(a, limits, start, i);
      if Closes(a, limits, start, i) {
        GroupsIgnoreSuffix(a, b, limits, i + 1, i + 1);
      } else {
        GroupsIgnoreSuffix(a, b, limits, start, i + 1);
      }
    }
  }

  /** At a forced boundary the groups of the whole are those of the two parts. */
  lemma GroupsSplitAtForced(a: seq<Item>, b: seq<Item>, limits: Limits)
    requires b != [] ==> b[0].forced
    ensures Groups(a + b, limits) == Groups(a, limits) + Shift(Groups(b, limits), |a|)
  {
    GroupsIgnoreSuffix(a, b, limits, 0, 0);
  }

  /** Some group of `ranges` ends at `e`, or `e` is where the first one starts. */
  ghost predicate IsBoundary(ranges: seq<Range>, e: nat) {
    e == 0 || exists k :: 0 <= k < |ranges| && ranges[k].end == e
  }

  /** After group k, the remaining groups are those of the remaining items alone. */
  ghost predicate ResumesAfter(items: seq<Item>, limits: Limits, groups: seq<Range>, k: nat) {
    && k < |groups| && groups[k].end <= |items|
    && groups[k + 1..] == Shift(Groups(items[groups[k].end..], limits), groups[k].end)
  }

  /** At any boundary grouping starts afresh. */
  lemma {:induction false} GroupsResumeAtBoundary(items: seq<Item>, limits: Limits, start: nat, i: nat, k: nat)
    requires start <= i <= |items|
    requires k < |GroupsFrom(items, limits, start, i)|
    ensures ResumesAfter(items, limits, GroupsFrom(items, limits, start, i), k)
    decreases |items| - i
  {
    var all := GroupsFrom(items, limits, start, i);
    if Closes(items, limits, start, i) {
      var rest := GroupsFrom(items, limits, i + 1, i + 1);
      assert all == [Range(start, i + 1)] + rest;
      if k == 0 {
        GroupsIgnorePrefix(items, limits, i + 1, 0, 0);
        assert all[1..] == rest;
      } else {
        GroupsResumeAtBoundary(items, limits, i + 1, i + 1, k - 1);
        assert all[k] == rest[k - 1];
        assert all[k + 1..] == rest[k..];
      }
    } else {
      GroupsResumeAtBoundary(items, limits, start, i + 1, k);
    }
  }

  /** The groups from boundary `e` on, as the suffix of all groups. */
  lemma GroupsSuffix(items: seq<Item>, limits: Limits, e: nat)
    requires e <= |items| && IsBoundary(Groups(items, limits), e)
    ensures var all := Groups(items, limits); var rest := Groups(items[e..], limits);
            |rest| <= |all| && all[|all| - |rest|..] == Shift(rest, e)
  {
    var all := Groups(items, limits);
    if e == 0 {
      assert items[0..] == items;
    } else {
      var k :| 0 <= k < |all| && all[k].end == e;
      GroupsResumeAtBoundary(items, limits, 0, 0, k);
      assert all[|all| - |Groups(items[e..], limits)|..] == all[k + 1..];
    }
  }
}
