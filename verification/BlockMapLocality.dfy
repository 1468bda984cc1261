/**
 Locality of the index: at a forced boundary the tables are those of the two parts; where blocks lie in the file does
 not matter, only which of them a boundary is forced at; and two files that both close a group before a common tail
 have the same table entries for that tail.
 */
module BlockMapLocality {
  import opened BlockMapV3
  import opened Bytes
  import opened Grouping
  import opened Seqs

  // ---- splitting at a forced boundary

  /** Ranges of two lists, as ranges of their concatenation. */
  lemma SliceOfAppend<T>(a: seq<T>, b: seq<T>, p: seq<Range>, q: seq<Range>, k: nat)
    requires RangesFit(p, |a|) && RangesFit(q, |b|) && k < |p| + |q|
    ensures RangesFit(p + Shift(q, |a|), |a + b|)
    ensures var r := (p + Shift(q, |a|))[k];
            (a + b)[r.start..r.end] == if k < |p| then a[p[k].start..p[k].end] else b[q[k - |p|].start..q[k - |p|].end]
  {
    var all := p + Shift(q, |a|);
    assert forall j :: |p| <= j < |all| ==> all[j] == Shift(q, |a|)[j - |p|];
  }

  lemma InfosSplit(h: bytes -> Hash8, a: seq<BlockInput>, b: seq<BlockInput>, p: seq<Range>, q: seq<Range>)
    requires SizesFit(a) && SizesFit(b) && SizesFit(a + b)
    requires RangesFit(p, |a|) && RangesFit(q, |b|) && RangesFit(p + Shift(q, |a|), |a + b|)
    ensures InfosOfRanges(h, a + b, p + Shift(q, |a|)) == InfosOfRanges(h, a, p) + InfosOfRanges(h, b, q)
  {
    hide GroupInfoOf, Shift, SizesFit;
    var all := p + Shift(q, |a|);
    var whole, parts := InfosOfRanges(h, a + b, all), InfosOfRanges(h, a, p) + InfosOfRanges(h, b, q);
    forall k | 0 <= k < |all| ensures whole[k] == parts[k] {
      SliceOfAppend(a, b, p, q, k);
    }
  }

  lemma SupersSplit(h: bytes -> Hash8, a: seq<GroupInfo>, b: seq<GroupInfo>, p: seq<Range>, q: seq<Range>)
    requires InfosFit(a) && InfosFit(b) && InfosFit(a + b)
    requires RangesFit(p, |a|) && RangesFit(q, |b|) && RangesFit(p + Shift(q, |a|), |a + b|)
    ensures SupersOfRanges(h, a + b, p + Shift(q, |a|)) == SupersOfRanges(h, a, p) + SupersOfRanges(h, b, q)
  {
    hide SuperInfoOf, Shift, InfosFit;
    var all := p + Shift(q, |a|);
    var whole, parts := SupersOfRanges(h, a + b, all), SupersOfRanges(h, a, p) + SupersOfRanges(h, b, q);
    forall k | 0 <= k < |all| ensures whole[k] == parts[k] {
      SliceOfAppend(a, b, p, q, k);
    }
  }

  lemma SizesFitParts(a: seq<BlockInput>, b: seq<BlockInput>)
    requires SizesFit(a + b)
    ensures SizesFit(a) && SizesFit(b)
  {
    forall k | 0 <= k < |b| ensures FitsUnsigned(b[k].size, 2) {
      assert b[k] == (a + b)[|a| + k];
    }
    forall k | 0 <= k < |a| ensures FitsUnsigned(a[k].size, 2) {
      assert a[k] == (a + b)[k];
    }
  }

  lemma GroupInfosSplit(h: bytes -> Hash8, a: seq<BlockInput>, b: seq<BlockInput>, forced: set<int>)
    requires SizesFit(a + b) && (b != [] ==> b[0].offset in forced)
    ensures SizesFit(a) && SizesFit(b)
    ensures GroupInfos(h, a + b, forced) == GroupInfos(h, a, forced) + GroupInfos(h, b, forced)
  {
    SizesFitParts(a, b);
    assert BlockItems(a + b, forced) == BlockItems(a, forced) + BlockItems(b, forced);
    GroupsSplitAtForced(BlockItems(a, forced), BlockItems(b, forced), GROUP_LIMITS);
    GroupRangesFit(a, forced);
    GroupRangesFit(b, forced);
    GroupRangesFit(a + b, forced);
    InfosSplit(h, a, b, GroupRanges(a, forced), GroupRanges(b, forced));
  }

  /** The first group starts where the first block does. */
  lemma FirstInfoOffset(h: bytes -> Hash8, blocks: seq<BlockInput>, forced: set<int>)
    requires SizesFit(blocks) && blocks != []
    ensures var infos := GroupInfos(h, blocks, forced); infos != [] && infos[0].offset == blocks[0].offset
  {
    GroupsAreGreedy(BlockItems(blocks, forced), GROUP_LIMITS);
    var ranges := GroupRanges(blocks, forced);
    assert GroupInfos(h, blocks, forced)[0] == GroupInfoOf(h, blocks[ranges[0].start..ranges[0].end]);
  }

  lemma SuperInfosSplit(h: bytes -> Hash8, a: seq<GroupInfo>, b: seq<GroupInfo>, forced: set<int>)
    requires InfosFit(a) && InfosFit(b) && (b != [] ==> b[0].offset in forced)
    ensures InfosFit(a + b)
    ensures SuperInfos(h, a + b, forced) == SuperInfos(h, a, forced) + SuperInfos(h, b, forced)
  {
    assert GroupItems(a + b, forced) == GroupItems(a, forced) + GroupItems(b, forced);
    GroupsSplitAtForced(GroupItems(a, forced), GroupItems(b, forced), SUPER_LIMITS);
    SuperRangesFit(a, forced);
    SuperRangesFit(b, forced);
    SuperRangesFit(a + b, forced);
    SupersSplit(h, a, b, SuperRanges(a, forced), SuperRanges(b, forced));
  }

  /** At a forced boundary the group table, the super-group table and the records are those of the two parts. */
  lemma TablesSplitAtForced(h: bytes -> Hash8, a: seq<BlockInput>, b: seq<BlockInput>, forced: set<int>)
    requires SizesFit(a + b) && (b != [] ==> b[0].offset in forced)
    ensures SizesFit(a) && SizesFit(b)
    ensures RecordTable(a + b) == RecordTable(a) + RecordTable(b)
    ensures var infos, infosA, infosB := GroupInfos(h, a + b, forced), GroupInfos(h, a, forced), GroupInfos(h, b, forced);
            && GroupTable(infos) == GroupTable(infosA) + GroupTable(infosB)
            && SuperTable(SuperInfos(h, infos, forced)) == SuperTable(SuperInfos(h, infosA, forced)) + SuperTable(SuperInfos(h, infosB, forced))
  {
    GroupInfosSplit(h, a, b, forced);
    assert RecordParts(a + b) == RecordParts(a) + RecordParts(b);
    ConcatAppend(RecordParts(a), RecordParts(b));
    var infosA, infosB := GroupInfos(h, a, forced), GroupInfos(h, b, forced);
    if b != [] {
      FirstInfoOffset(h, b, forced);
    } else {
      assert infosB == [];
    }
    GroupTableAppend(infosA, infosB);
    SuperInfosSplit(h, infosA, infosB, forced);
    SuperTableAppend(SuperInfos(h, infosA, forced), SuperInfos(h, infosB, forced));
  }

  lemma GroupTableAppend(a: seq<GroupInfo>, b: seq<GroupInfo>)
    requires InfosFit(a) && InfosFit(b) && InfosFit(a + b)
    ensures GroupTable(a + b) == GroupTable(a) + GroupTable(b)
  {
    assert GroupParts(a + b) == GroupParts(a) + GroupParts(b);
    ConcatAppend(GroupParts(a), GroupParts(b));
  }

  lemma SuperTableAppend(a: seq<SuperInfo>, b: seq<SuperInfo>)
    requires SupersFit(a) && SupersFit(b) && SupersFit(a + b)
    ensures SuperTable(a + b) == SuperTable(a) + SuperTable(b)
  {
    assert SuperParts(a + b) == SuperParts(a) + SuperParts(b);
    ConcatAppend(SuperParts(a), SuperParts(b));
  }

  // ---- only the content and the forced boundaries count

  /** Block by block the same digest, the same size and the same forced boundary. */
  ghost predicate SameContent(a: seq<BlockInput>, forcedA: set<int>, b: seq<BlockInput>, forcedB: set<int>) {
    && |a| == |b|
    && forall k :: 0 <= k < |a| ==>
         a[k].digest == b[k].digest && a[k].size == b[k].size && (a[k].offset in forcedA <==> b[k].offset in forcedB)
  }

  /** Group by group the same entry and the same forced boundary. */
  ghost predicate SameGroups(a: seq<GroupInfo>, forcedA: set<int>, b: seq<GroupInfo>, forcedB: set<int>) {
    && |a| == |b|
    && forall k :: 0 <= k < |a| ==>
         a[k].hash == b[k].hash && a[k].byteLength == b[k].byteLength && a[k].blockCount == b[k].blockCount
         && (a[k].offset in forcedA <==> b[k].offset in forcedB)
  }

  lemma SameRecordTable(a: seq<BlockInput>, b: seq<BlockInput>)
    requires SizesFit(a) && |a| == |b| && forall k :: 0 <= k < |a| ==> a[k].digest == b[k].digest && a[k].size == b[k].size
    ensures SizesFit(b) && RecordTable(a) == RecordTable(b) && Sizes(a) == Sizes(b)
  {
    assert SizesFit(b);
    assert RecordParts(a) == RecordParts(b);
  }

  lemma SameGroupTable(a: seq<GroupInfo>, forcedA: set<int>, b: seq<GroupInfo>, forcedB: set<int>)
    requires InfosFit(a) && SameGroups(a, forcedA, b, forcedB)
    ensures InfosFit(b) && GroupTable(a) == GroupTable(b)
  {
    assert GroupParts(a) == GroupParts(b);
  }

  lemma SameContentSameGroups(h: bytes -> Hash8, a: seq<BlockInput>, forcedA: set<int>, b: seq<BlockInput>, forcedB: set<int>)
    requires SizesFit(a) && SizesFit(b) && SameContent(a, forcedA, b, forcedB)
    ensures SameGroups(GroupInfos(h, a, forcedA), forcedA, GroupInfos(h, b, forcedB), forcedB)
  {
    assert BlockItems(a, forcedA) == BlockItems(b, forcedB);
    GroupRangesFit(a, forcedA);
    var ranges := GroupRanges(a, forcedA);
    var infosA, infosB := GroupInfos(h, a, forcedA), GroupInfos(h, b, forcedB);
    forall k | 0 <= k < |ranges|
      ensures infosA[k].hash == infosB[k].hash && infosA[k].byteLength == infosB[k].byteLength && infosA[k].blockCount == infosB[k].blockCount
      ensures infosA[k].offset in forcedA <==> infosB[k].offset in forcedB
    {
      SameRecordTable(a[ranges[k].start..ranges[k].end], b[ranges[k].start..ranges[k].end]);
    }
  }

  lemma SameGroupsSameSupers(h: bytes -> Hash8, a: seq<GroupInfo>, forcedA: set<int>, b: seq<GroupInfo>, forcedB: set<int>)
    requires InfosFit(a) && InfosFit(b) && SameGroups(a, forcedA, b, forcedB)
    ensures SuperInfos(h, a, forcedA) == SuperInfos(h, b, forcedB)
  {
    assert GroupItems(a, forcedA) == GroupItems(b, forcedB);
    SuperRangesFit(a, forcedA);
    var ranges := SuperRanges(a, forcedA);
    forall k | 0 <= k < |ranges|
      ensures SuperInfoOf(h, a[ranges[k].start..ranges[k].end]) == SuperInfoOf(h, b[ranges[k].start..ranges[k].end])
    {
      var x, y := a[ranges[k].start..ranges[k].end], b[ranges[k].start..ranges[k].end];
      SameGroupTable(x, forcedA, y, forcedB);
      assert BlockCounts(x) == BlockCounts(y);
    }
  }

  /** Files with the same content and the same forced boundaries have byte-identical tables, wherever their blocks lie. */
  lemma SameContentSameTables(h: bytes -> Hash8, a: seq<BlockInput>, forcedA: set<int>, b: seq<BlockInput>, forcedB: set<int>)
    requires SizesFit(a) && SizesFit(b) && SameContent(a, forcedA, b, forcedB)
    ensures IndexBytes(h, a, forcedA) == IndexBytes(h, b, forcedB)
  {
    var infosA, infosB := GroupInfos(h, a, forcedA), GroupInfos(h, b, forcedB);
    SameContentSameGroups(h, a, forcedA, b, forcedB);
    SameGroupTable(infosA, forcedA, infosB, forcedB);
    SameGroupsSameSupers(h, infosA, forcedA, infosB, forcedB);
    SameRecordTable(a, b);
  }

  function ShiftBlocks(blocks: seq<BlockInput>, delta: int): (r: seq<BlockInput>)
    ensures |r| == |blocks|
  {
    seq(|blocks|, k requires 0 <= k < |blocks| => blocks[k].(offset := blocks[k].offset + delta))
  }

  /** Moving all blocks and all boundaries by a constant changes no byte of the tables. */
  lemma ShiftKeepsTables(h: bytes -> Hash8, blocks: seq<BlockInput>, forced: set<int>, delta: int)
    requires SizesFit(blocks)
    ensures SizesFit(ShiftBlocks(blocks, delta))
    ensures IndexBytes(h, ShiftBlocks(blocks, delta), set x | x in forced :: x + delta) == IndexBytes(h, blocks, forced)
  {
    var moved, bounds := ShiftBlocks(blocks, delta), set x | x in forced :: x + delta;
    forall k | 0 <= k < |blocks| ensures moved[k].offset in bounds <==> blocks[k].offset in forced {
      if moved[k].offset in bounds {
        var x :| x in forced && x + delta == moved[k].offset;
      }
    }
    SameContentSameTables(h, moved, bounds, blocks, forced);
  }

  // ---- common tails

  lemma GroupRangesResume(blocks: seq<BlockInput>, forced: set<int>, e: nat)
    requires e <= |blocks| && IsBoundary(GroupRanges(blocks, forced), e)
    ensures var all, rest := GroupRanges(blocks, forced), GroupRanges(blocks[e..], forced);
            |rest| <= |all| && all[|all| - |rest|..] == Shift(rest, e)
  {
    GroupsSuffix(BlockItems(blocks, forced), GROUP_LIMITS, e);
    assert BlockItems(blocks, forced)[e..] == BlockItems(blocks[e..], forced);
  }

  /** From a group boundary on, the groups are those of the remaining blocks alone. */
  lemma GroupInfosResume(h: bytes -> Hash8, blocks: seq<BlockInput>, forced: set<int>, e: nat)
    requires SizesFit(blocks) && e <= |blocks| && IsBoundary(GroupRanges(blocks, forced), e)
    ensures SizesFit(blocks[e..])
    ensures var all, rest := GroupInfos(h, blocks, forced), GroupInfos(h, blocks[e..], forced);
            |rest| <= |all| && all[|all| - |rest|..] == rest
  {
    var tail := blocks[e..];
    assert SizesFit(tail);
    GroupRangesResume(blocks, forced, e);
    GroupRangesFit(blocks, forced);
    GroupRangesFit(tail, forced);
    hide GroupRanges, SizesFit, InfosOfRanges;
    InfosOfTail(h, blocks, e, GroupRanges(blocks, forced), GroupRanges(tail, forced));
  }

  lemma SliceOfTail<T>(xs: seq<T>, e: nat, ranges: seq<Range>, rest: seq<Range>, k: nat)
    requires e <= |xs| && RangesFit(ranges, |xs|) && RangesFit(rest, |xs| - e) && |rest| <= |ranges|
    requires ranges[|ranges| - |rest|..] == Shift(rest, e) && k < |rest|
    ensures var r := ranges[|ranges| - |rest| + k];
            xs[r.start..r.end] == xs[e..][rest[k].start..rest[k].end]
  {
    var skip := |ranges| - |rest|;
    assert ranges[skip + k] == ranges[skip..][k] == Shift(rest, e)[k];
    SubSlice(xs, e, |xs|, rest[k].start, rest[k].end);
    assert xs[e..] == xs[e..|xs|];
  }

  lemma InfosOfTail(h: bytes -> Hash8, blocks: seq<BlockInput>, e: nat, ranges: seq<Range>, rest: seq<Range>)
    requires e <= |blocks| && SizesFit(blocks) && SizesFit(blocks[e..])
    requires RangesFit(ranges, |blocks|) && RangesFit(rest, |blocks| - e) && |rest| <= |ranges|
    requires ranges[|ranges| - |rest|..] == Shift(rest, e)
    ensures InfosOfRanges(h, blocks, ranges)[|ranges| - |rest|..] == InfosOfRanges(h, blocks[e..], rest)
  {
    hide GroupInfoOf, Shift, SizesFit;
    forall k | 0 <= k < |rest|
      ensures InfosOfRanges(h, blocks, ranges)[|ranges| - |rest| + k] == InfosOfRanges(h, blocks[e..], rest)[k]
    {
      SliceOfTail(blocks, e, ranges, rest, k);
    }
  }

  lemma SupersOfTail(h: bytes -> Hash8, infos: seq<GroupInfo>, e: nat, ranges: seq<Range>, rest: seq<Range>)
    requires e <= |infos| && InfosFit(infos) && InfosFit(infos[e..])
    requires RangesFit(ranges, |infos|) && RangesFit(rest, |infos| - e) && |rest| <= |ranges|
    requires ranges[|ranges| - |rest|..] == Shift(rest, e)
    ensures SupersOfRanges(h, infos, ranges)[|ranges| - |rest|..] == SupersOfRanges(h, infos[e..], rest)
  {
    hide SuperInfoOf, Shift, InfosFit;
    forall k | 0 <= k < |rest|
      ensures SupersOfRanges(h, infos, ranges)[|ranges| - |rest| + k] == SupersOfRanges(h, infos[e..], rest)[k]
    {
      SliceOfTail(infos, e, ranges, rest, k);
    }
  }

  lemma GroupTableEndsWith(infos: seq<GroupInfo>, rest: seq<GroupInfo>)
    requires InfosFit(infos) && InfosFit(rest) && |rest| <= |infos| && infos[|infos| - |rest|..] == rest
    ensures EndsWith(GroupTable(infos), GroupTable(rest))
  {
    var head := infos[..|infos| - |rest|];
    assert infos == head + rest;
    assert InfosFit(head);
    GroupTableAppend(head, rest);
  }

  /**
   Resynchronization: when two files both close a group right before tails with the same content, their group tables
   end with the same entries for those tails, whatever precedes them.
   */
  lemma SharedTailSharesGroups(h: bytes -> Hash8, a: seq<BlockInput>, forcedA: set<int>, e: nat, b: seq<BlockInput>, forcedB: set<int>, f: nat)
    requires SizesFit(a) && SizesFit(b) && e <= |a| && f <= |b|
    requires IsBoundary(GroupRanges(a, forcedA), e) && IsBoundary(GroupRanges(b, forcedB), f)
    requires SameContent(a[e..], forcedA, b[f..], forcedB)
    ensures SizesFit(a[e..])
    ensures var tail := GroupTable(GroupInfos(h, a[e..], forcedA));
            EndsWith(GroupTable(GroupInfos(h, a, forcedA)), tail) && EndsWith(GroupTable(GroupInfos(h, b, forcedB)), tail)
  {
    GroupInfosResume(h, a, forcedA, e);
    GroupInfosResume(h, b, forcedB, f);
    var tailA, tailB := GroupInfos(h, a[e..], forcedA), GroupInfos(h, b[f..], forcedB);
    SameContentSameGroups(h, a[e..], forcedA, b[f..], forcedB);
    SameGroupTable(tailA, forcedA, tailB, forcedB);
    GroupTableEndsWith(GroupInfos(h, a, forcedA), tailA);
    GroupTableEndsWith(GroupInfos(h, b, forcedB), tailB);
  }

  lemma SuperRangesResume(infos: seq<GroupInfo>, forced: set<int>, e: nat)
    requires e <= |infos| && IsBoundary(SuperRanges(infos, forced), e)
    ensures var all, rest := SuperRanges(infos, forced), SuperRanges(infos[e..], forced);
            |rest| <= |all| && all[|all| - |rest|..] == Shift(rest, e)
  {
    GroupsSuffix(GroupItems(infos, forced), SUPER_LIMITS, e);
    assert GroupItems(infos, forced)[e..] == GroupItems(infos[e..], forced);
  }

  lemma InfosFitTail(infos: seq<GroupInfo>, e: nat)
    requires InfosFit(infos) && e <= |infos|
    ensures InfosFit(infos[e..])
  {
  }

  lemma SuperInfosResume(h: bytes -> Hash8, infos: seq<GroupInfo>, forced: set<int>, e: nat)
    requires InfosFit(infos) && e <= |infos| && IsBoundary(SuperRanges(infos, forced), e)
    ensures InfosFit(infos[e..])
    ensures var all, rest := SuperInfos(h, infos, forced), SuperInfos(h, infos[e..], forced);
            |rest| <= |all| && all[|all| - |rest|..] == rest
  {
    hide SuperRanges, InfosFit, SupersOfRanges, SupersFit, IsBoundary, RangesFit, Shift;
    InfosFitTail(infos, e);
    SuperRangesResume(infos, forced, e);
    SuperRangesFit(infos, forced);
    SuperRangesFit(infos[e..], forced);
    SupersOfTail(h, infos, e, SuperRanges(infos, forced), SuperRanges(infos[e..], forced));
  }

  /** The same one level up: where both close a super-group before groups with the same entries, the super tables end alike. */
  lemma SharedTailSharesSupers(h: bytes -> Hash8, a: seq<GroupInfo>, forcedA: set<int>, e: nat, b: seq<GroupInfo>, forcedB: set<int>, f: nat)
    requires InfosFit(a) && InfosFit(b) && e <= |a| && f <= |b|
    requires IsBoundary(SuperRanges(a, forcedA), e) && IsBoundary(SuperRanges(b, forcedB), f)
    requires SameGroups(a[e..], forcedA, b[f..], forcedB)
    ensures InfosFit(a[e..])
    ensures var tail := SuperTable(SuperInfos(h, a[e..], forcedA));
            EndsWith(SuperTable(SuperInfos(h, a, forcedA)), tail) && EndsWith(SuperTable(SuperInfos(h, b, forcedB)), tail)
  {
    SuperInfosResume(h, a, forcedA, e);
    SuperInfosResume(h, b, forcedB, f);
    var tailA, tailB := SuperInfos(h, a[e..], forcedA), SuperInfos(h, b[f..], forcedB);
    SameGroupsSameSupers(h, a[e..], forcedA, b[f..], forcedB);
    SuperTableEndsWith(SuperInfos(h, a, forcedA), tailA);
    SuperTableEndsWith(SuperInfos(h, b, forcedB), tailB);
  }

  lemma SuperTableEndsWith(supers: seq<SuperInfo>, rest: seq<SuperInfo>)
    requires SupersFit(supers) && SupersFit(rest) && |rest| <= |supers| && supers[|supers| - |rest|..] == rest
    ensures EndsWith(SuperTable(supers), SuperTable(rest))
  {
    var head := supers[..|supers| - |rest|];
    assert supers == head + rest;
    assert SupersFit(head);
    SuperTableAppend(head, rest);
  }

  // ---- region edges

  /** A region begins or ends at the offset. */
  ghost predicate IsEdge(regions: seq<Region>, offset: int) {
    exists k :: 0 <= k < |regions| && (offset == regions[k].offset || offset == regions[k].offset + regions[k].size)
  }

  /** Boundaries are forced where a region begins or ends, and nowhere else. */
  lemma ForcedIff(regions: seq<Region>, offset: int)
    ensures offset in Forced(regions) <==> IsEdge(regions, offset)
  {
    if k :| 0 <= k < |regions| && (offset == regions[k].offset || offset == regions[k].offset + regions[k].size) {
      assert regions[k] in regions;
    }
  }

  /** A block at a region edge starts a group, and that group starts a super-group. */
  lemma RegionEdgeIsBoundary(h: bytes -> Hash8, blocks: seq<BlockInput>, regions: seq<Region>, j: nat)
    requires SizesFit(blocks) && j < |blocks| && IsEdge(regions, blocks[j].offset)
    ensures exists g: nat, s: nat :: EdgeAt(h, blocks, Forced(regions), j, g, s)
  {
    var forced := Forced(regions);
    ForcedIff(regions, blocks[j].offset);
    hide IsEdge, Forced;
    var ranges := GroupRanges(blocks, forced);
    ForcedItemStartsGroup(BlockItems(blocks, forced), GROUP_LIMITS, j);
    var g :| 0 <= g < |ranges| && ranges[g].start == j;
    GroupRangesFit(blocks, forced);
    var infos := GroupInfos(h, blocks, forced);
    assert infos[g] == GroupInfoOf(h, blocks[ranges[g].start..ranges[g].end]);
    ForcedItemStartsGroup(GroupItems(infos, forced), SUPER_LIMITS, g);
    var supers := SuperRanges(infos, forced);
    var s :| 0 <= s < |supers| && supers[s].start == g;
    assert EdgeAt(h, blocks, forced, j, g, s);
  }

  /** Group g starts at block j and super-group s starts at group g. */
  ghost predicate EdgeAt(h: bytes -> Hash8, blocks: seq<BlockInput>, forced: set<int>, j: nat, g: nat, s: nat)
    requires SizesFit(blocks)
  {
    && g < |GroupRanges(blocks, forced)| && GroupRanges(blocks, forced)[g].start == j
    && var supers := SuperRanges(GroupInfos(h, blocks, forced), forced);
       s < |supers| && supers[s].start == g
  }
}
