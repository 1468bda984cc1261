/** What to copy from the old block map and what to fetch: the plans of the two stages. */
module FetchPlan {
  import opened BlockMapDecoder
  import opened BlockMapIndex
  import opened BlockMapV3
  import opened BlockMapVerify
  import opened Grouping
  import opened RangeCoalescing
  import opened Seqs

  function IndexOfFirst<T(==)>(xs: seq<T>, x: T): (i: int)
    ensures i == -1 ==> x !in xs
    ensures i != -1 ==> 0 <= i < |xs| && xs[i] == x && x !in xs[..i]
  {
    if xs == [] then -1
    else if xs[0] == x then 0
    else
      var rest := IndexOfFirst(xs[1..], x);
      if rest == -1 then -1
      else
        assert xs[..rest + 1] == [xs[0]] + xs[1..][..rest];
        rest + 1
  }

  /** The first index of every value. */
  method FirstIndices<T(==)>(xs: seq<T>) returns (index: map<T, nat>)
    ensures forall x :: x in index <==> x in xs
    ensures forall x :: x in index ==> index[x] == IndexOfFirst(xs, x)
  {
    index := map[];
    for i := 0 to |xs|
      invariant forall x :: x in index <==> x in xs[..i]
      invariant forall x :: x in index ==> index[x] == IndexOfFirst(xs, x)
    {
      if xs[i] !in index {
        FirstIndexIs(xs, i);
        index := index[xs[i] := i];
      }
    }
    assert xs[..|xs|] == xs;
  }

  lemma FirstIndexIs<T>(xs: seq<T>, i: nat)
    requires i < |xs| && xs[i] !in xs[..i]
    ensures IndexOfFirst(xs, xs[i]) == i
  {
    var j := IndexOfFirst(xs, xs[i]);
    assert j != -1 && j <= i;
  }

  /** What the bytes in hand do not cover of a range. */
  function MissingOf(r: Range, prefetched: nat): Range {
    Range(if r.start >= prefetched then r.start else prefetched, r.end)
  }

  /** Nothing was matched to range k, and the bytes in hand do not cover it. */
  predicate IsMissing(ranges: seq<Range>, matches: seq<int>, prefetched: nat, k: int)
    requires |matches| <= |ranges|
  {
    0 <= k < |matches| && matches[k] < 0 && ranges[k].end > prefetched
  }

  /** The part of each unmatched range that the bytes in hand do not cover, and nothing else. */
  ghost predicate FetchesUnmatched(ranges: seq<Range>, matches: seq<int>, prefetched: nat, fetch: seq<Range>)
    requires |matches| <= |ranges|
  {
    && InOrder(fetch)
    && (forall k :: IsMissing(ranges, matches, prefetched, k) ==> Covered(MissingOf(ranges[k], prefetched), fetch))
    && forall m :: 0 <= m < |fetch| ==> InUnmatched(ranges, matches, prefetched, fetch[m])
  }

  /** `part` is what is missing of a range nothing was matched to. */
  ghost predicate InUnmatched(ranges: seq<Range>, matches: seq<int>, prefetched: nat, part: Range)
    requires |matches| <= |ranges|
  {
    exists k :: IsMissing(ranges, matches, prefetched, k) && part == MissingOf(ranges[k], prefetched)
  }

  /** Adds what is missing of range k, or nothing. */
  method AddMissing(ranges: seq<Range>, matches: seq<int>, prefetched: nat, fetch: seq<Range>) returns (more: seq<Range>)
    requires InOrder(ranges) && 0 < |matches| <= |ranges|
    requires FetchesUnmatched(ranges, matches[..|matches| - 1], prefetched, fetch)
    ensures FetchesUnmatched(ranges, matches, prefetched, more)
  {
    hide FetchesUnmatched, InOrder;
    var k := |matches| - 1;
    var range := ranges[k];
    more := fetch;
    if matches[k] < 0 && range.end > prefetched {
      var missing := Range(if range.start >= prefetched then range.start else prefetched, range.end);
      more := fetch + [missing];
    }
    FetchesOneMore(ranges, matches, prefetched, fetch, more);
  }

  lemma FetchesOneMore(ranges: seq<Range>, matches: seq<int>, prefetched: nat, fetch: seq<Range>, more: seq<Range>)
    requires InOrder(ranges) && 0 < |matches| <= |ranges|
    requires FetchesUnmatched(ranges, matches[..|matches| - 1], prefetched, fetch)
    requires var k := |matches| - 1;
             more == if IsMissing(ranges, matches, prefetched, k) then fetch + [MissingOf(ranges[k], prefetched)] else fetch
    ensures FetchesUnmatched(ranges, matches, prefetched, more)
  {
    hide InUnmatched, Covered;
    var k := |matches| - 1;
    var earlier := matches[..k];
    InOrderOneMore(ranges, earlier, prefetched, fetch, MissingOf(ranges[k], prefetched), ranges[k].end > prefetched);
    forall j | IsMissing(ranges, matches, prefetched, j) ensures Covered(MissingOf(ranges[j], prefetched), more) {
      assert j == k || IsMissing(ranges, earlier, prefetched, j);
      CoveredOneMore(MissingOf(ranges[j], prefetched), fetch, more);
    }
    forall m | 0 <= m < |more| ensures InUnmatched(ranges, matches, prefetched, more[m]) {
      if m < |fetch| {
        assert InUnmatched(ranges, earlier, prefetched, fetch[m]);
        StillUnmatched(ranges, matches, prefetched, fetch[m]);
      } else {
        IsUnmatched(ranges, matches, prefetched, k);
      }
    }
  }

  lemma CoveredOneMore(part: Range, fetch: seq<Range>, more: seq<Range>)
    requires fetch <= more
    ensures Covered(part, fetch) ==> Covered(part, more)
    ensures more == fetch + [part] ==> Covered(part, more)
  {
    if m :| 0 <= m < |fetch| && Within(part, fetch[m]) {
      assert Within(part, more[m]);
    }
    if more == fetch + [part] {
      assert Within(part, more[|fetch|]);
    }
  }

  lemma IsUnmatched(ranges: seq<Range>, matches: seq<int>, prefetched: nat, k: int)
    requires |matches| <= |ranges| && IsMissing(ranges, matches, prefetched, k)
    ensures InUnmatched(ranges, matches, prefetched, MissingOf(ranges[k], prefetched))
  {
  }

  lemma StillUnmatched(ranges: seq<Range>, matches: seq<int>, prefetched: nat, part: Range)
    requires 0 < |matches| <= |ranges| && InUnmatched(ranges, matches[..|matches| - 1], prefetched, part)
    ensures InUnmatched(ranges, matches, prefetched, part)
  {
    var k :| IsMissing(ranges, matches[..|matches| - 1], prefetched, k) && part == MissingOf(ranges[k], prefetched);
    assert IsMissing(ranges, matches, prefetched, k);
  }

  lemma InOrderOneMore(ranges: seq<Range>, earlier: seq<int>, prefetched: nat, fetch: seq<Range>, missing: Range, long: bool)
    requires InOrder(ranges) && |earlier| < |ranges| && FetchesUnmatched(ranges, earlier, prefetched, fetch)
    requires long ==> ranges[|earlier|].start <= missing.start <= missing.end
    ensures long ==> InOrder(fetch + [missing])
  {
    hide InUnmatched;
    if long && fetch != [] {
      assert InUnmatched(ranges, earlier, prefetched, fetch[|fetch| - 1]);
      UnmatchedEnds(ranges, earlier, prefetched, fetch[|fetch| - 1]);
    }
  }

  lemma UnmatchedEnds(ranges: seq<Range>, earlier: seq<int>, prefetched: nat, part: Range)
    requires InOrder(ranges) && |earlier| < |ranges| && InUnmatched(ranges, earlier, prefetched, part)
    ensures part.end <= ranges[|earlier|].start
  {
  }

  /** The missing parts of all unmatched ranges. */
  method FetchMissing(ranges: seq<Range>, matches: seq<int>, prefetched: nat) returns (fetch: seq<Range>)
    requires InOrder(ranges) && |matches| == |ranges|
    ensures FetchesUnmatched(ranges, matches, prefetched, fetch)
  {
    NothingPlanned(ranges, prefetched);
    hide FetchesUnmatched, InOrder;
    fetch := [];
    for index := 0 to |matches|
      invariant FetchesUnmatched(ranges, matches[..index], prefetched, fetch)
    {
      assert matches[..index + 1][..|matches[..index + 1]| - 1] == matches[..index];
      fetch := AddMissing(ranges, matches[..index + 1], prefetched, fetch);
    }
    assert matches[..|matches|] == matches;
  }

  lemma NothingPlanned(ranges: seq<Range>, prefetched: nat)
    ensures FetchesUnmatched(ranges, [], prefetched, [])
  {
  }

  /**
   Stage 2: every super-group with an equal one in the old map is matched to the first such; the entries of all
   others beyond the bytes in hand are to be fetched, and nothing else.
   */
  method PlanSuperStage(oldMap: BlockMap, header: Header, supers: seq<Super>, prefetched: nat) returns (superMatch: seq<int>, fetch: seq<Range>)
    requires InOrder(GroupEntryRangesOf(header, supers))
    ensures |superMatch| == |supers|
    ensures forall k :: 0 <= k < |supers| ==> superMatch[k] == IndexOfFirst(oldMap.supers, supers[k])
    ensures FetchesUnmatched(GroupEntryRangesOf(header, supers), superMatch, prefetched, fetch)
  {
    var ranges := GroupEntryRanges(header, supers);
    NothingPlanned(ranges, prefetched);
    hide FetchesUnmatched, InOrder, GroupEntryRangesOf;
    var oldByKey := FirstIndices(oldMap.supers);
    superMatch, fetch := [], [];
    for index := 0 to |supers|
      invariant |superMatch| == index
      invariant forall k :: 0 <= k < index ==> superMatch[k] == IndexOfFirst(oldMap.supers, supers[k])
      invariant FetchesUnmatched(ranges, superMatch, prefetched, fetch)
    {
      ghost var earlier := superMatch;
      superMatch := superMatch + [if supers[index] in oldByKey then oldByKey[supers[index]] else -1];
      assert superMatch[..|superMatch| - 1] == earlier;
      fetch := AddMissing(ranges, superMatch, prefetched, fetch);
    }
  }

  // ---- groups

  /** Index of group i of super-group s in the group table. */
  function IndexOfGroup(supers: seq<Super>, s: nat, i: nat): nat
    requires s < |supers|
  {
    FirstGroup(supers, s) + i
  }

  /** Index of the old map's group that new group `i` of a matched super-group takes, or of the first equal group. */
  function GroupSource(oldMap: BlockMap, groups: seq<Group>, g: nat, oldSuper: int, i: nat): (source: int)
    requires g < |groups|
  {
    if 0 <= oldSuper < |oldMap.supers| then FirstGroup(oldMap.supers, oldSuper) + i else IndexOfFirst(oldMap.groups, groups[g])
  }

  /** Group i of super-group s, when it is among those matched so far, is matched as planned. */
  ghost predicate PlannedAt(oldMap: BlockMap, supers: seq<Super>, groups: seq<Group>, superMatch: seq<int>, groupMatch: seq<int>, s: nat, i: nat)
    requires |superMatch| == |supers| && |groupMatch| <= |groups|
  {
    s < |supers| && i < supers[s].groupCount && FirstGroup(supers, s) + i < |groupMatch|
    ==> groupMatch[FirstGroup(supers, s) + i] == GroupSource(oldMap, groups, FirstGroup(supers, s) + i, superMatch[s], i)
  }

  ghost predicate MatchedAsPlanned(oldMap: BlockMap, supers: seq<Super>, groups: seq<Group>, superMatch: seq<int>, groupMatch: seq<int>)
    requires |superMatch| == |supers| && |groupMatch| <= |groups|
  {
    forall s: nat, i: nat :: PlannedAt(oldMap, supers, groups, superMatch, groupMatch, s, i)
  }

  /**
   Stage 3: groups of a matched super-group take the old super-group's groups by position, every other group the first
   equal old group; the records of the rest beyond the bytes in hand are to be fetched.
   */
  method PlanRecordStage(oldMap: BlockMap, header: Header, supers: seq<Super>, groups: seq<Group>, superMatch: seq<int>, prefetched: nat)
    returns (groupMatch: seq<int>, fetch: seq<Range>)
    requires Sum(GroupCounts(supers)) == |groups|
    requires |superMatch| == |supers| && forall k :: 0 <= k < |supers| ==> superMatch[k] == IndexOfFirst(oldMap.supers, supers[k])
    requires InOrder(RecordRangesOf(header, groups))
    ensures |groupMatch| == |groups| && MatchedAsPlanned(oldMap, supers, groups, superMatch, groupMatch)
    ensures forall s: nat, i: nat :: s < |supers| && i < supers[s].groupCount && IndexOfGroup(supers, s, i) < |groups| ==>
              groupMatch[IndexOfGroup(supers, s, i)] ==
              if 0 <= superMatch[s] < |oldMap.supers| then IndexOfGroup(oldMap.supers, superMatch[s], i) else IndexOfFirst(oldMap.groups, groups[IndexOfGroup(supers, s, i)])
    ensures FetchesUnmatched(RecordRangesOf(header, groups), groupMatch, prefetched, fetch)
  {
    var oldByKey := FirstIndices(oldMap.groups);
    var oldSuperFirstGroup := OldFirstGroups(oldMap);
    var ranges := RecordRanges(header, groups);
    groupMatch := [];
    for superIndex := 0 to |supers|
      invariant |groupMatch| == FirstGroup(supers, superIndex) <= |groups|
      invariant MatchedAsPlanned(oldMap, supers, groups, superMatch, groupMatch)
    {
      var oldSuper := superMatch[superIndex];
      NextFirstGroup(supers, superIndex, |groups|);
      for i := 0 to supers[superIndex].groupCount
        invariant |groupMatch| == FirstGroup(supers, superIndex) + i <= |groups|
        invariant MatchedAsPlanned(oldMap, supers, groups, superMatch, groupMatch)
      {
        var groupIndex := |groupMatch|;
        var oldIndex := if oldSuper >= 0 then oldSuperFirstGroup[oldSuper] + i else -1;
        if oldIndex < 0 {
          oldIndex := if groups[groupIndex] in oldByKey then oldByKey[groups[groupIndex]] else -1;
        }
        PlannedSnoc(oldMap, supers, groups, superMatch, groupMatch, superIndex, i, oldIndex);
        groupMatch := groupMatch + [oldIndex];
      }
    }
    AllGroupsPlanned(supers);
    assert forall s: nat, i: nat {:trigger IndexOfGroup(supers, s, i)} :: s < |supers| ==> PlannedAt(oldMap, supers, groups, superMatch, groupMatch, s, i);
    fetch := FetchMissing(ranges, groupMatch, prefetched);
  }

  /** The first group of each old super-group (the running count of planRecordStage). */
  method OldFirstGroups(oldMap: BlockMap) returns (first: seq<nat>)
    ensures |first| == |oldMap.supers|
    ensures forall k :: 0 <= k < |first| ==> first[k] == FirstGroup(oldMap.supers, k)
  {
    first := [];
    var g := 0;
    for k := 0 to |oldMap.supers|
      invariant |first| == k && g == FirstGroup(oldMap.supers, k)
      invariant forall j :: 0 <= j < k ==> first[j] == FirstGroup(oldMap.supers, j)
    {
      first := first + [g];
      SumStep(GroupCounts(oldMap.supers), k);
      g := g + oldMap.supers[k].groupCount;
    }
  }

  lemma NextFirstGroup(supers: seq<Super>, k: nat, total: nat)
    requires k < |supers| && Sum(GroupCounts(supers)) == total
    ensures FirstGroup(supers, k + 1) == FirstGroup(supers, k) + supers[k].groupCount <= total
  {
    RunAt(0, GroupCounts(supers), GROUP_SIZE, k);
    SumStep(GroupCounts(supers), k);
  }

  lemma AllGroupsPlanned(supers: seq<Super>)
    ensures FirstGroup(supers, |supers|) == Sum(GroupCounts(supers))
  {
    assert GroupCounts(supers)[..|supers|] == GroupCounts(supers);
  }

  lemma {:induction false} FirstGroupMonotone(supers: seq<Super>, a: nat, b: nat)
    requires a <= b <= |supers|
    ensures FirstGroup(supers, a) <= FirstGroup(supers, b)
  {
    SumPrefixMonotone(GroupCounts(supers), a, b);
  }

  /** A position in the group list belongs to one super-group only. */
  lemma OneOwner(supers: seq<Super>, s: nat, i: nat, t: nat, j: nat)
    requires s < |supers| && i < supers[s].groupCount && t < |supers| && j < supers[t].groupCount
    requires FirstGroup(supers, s) + i == FirstGroup(supers, t) + j
    ensures s == t && i == j
  {
    SumAtLeast(GroupCounts(supers), 0);
    var total := Sum(GroupCounts(supers));
    NextFirstGroup(supers, s, total);
    NextFirstGroup(supers, t, total);
    if s < t {
      FirstGroupMonotone(supers, s + 1, t);
    } else if t < s {
      FirstGroupMonotone(supers, t + 1, s);
    }
  }

  lemma PlannedSnoc(oldMap: BlockMap, supers: seq<Super>, groups: seq<Group>, superMatch: seq<int>, groupMatch: seq<int>, s: nat, i: nat, source: int)
    requires |superMatch| == |supers|
    requires s < |supers| && i < supers[s].groupCount && |groupMatch| == FirstGroup(supers, s) + i < |groups|
    requires MatchedAsPlanned(oldMap, supers, groups, superMatch, groupMatch)
    requires source == GroupSource(oldMap, groups, |groupMatch|, superMatch[s], i)
    ensures MatchedAsPlanned(oldMap, supers, groups, superMatch, groupMatch + [source])
  {
    var after := groupMatch + [source];
    forall t: nat, j: nat ensures PlannedAt(oldMap, supers, groups, superMatch, after, t, j) {
      assert PlannedAt(oldMap, supers, groups, superMatch, groupMatch, t, j);
      if t < |supers| && j < supers[t].groupCount && FirstGroup(supers, t) + j == |groupMatch| {
        OneOwner(supers, s, i, t, j);
      }
    }
  }
}
