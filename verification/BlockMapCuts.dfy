/**
 Where the groups of a block map end, on the bytes of the hashes: cuts depend on content, so two files with common content
 cut it alike again after a difference.
 */
module BlockMapCuts {
  import opened BlockMapLocality
  import opened BlockMapV3
  import opened Bytes
  import opened Grouping
  import opened Seqs

  // ---- groups of blocks

  /**
   Group k, on the digests: no boundary is forced inside, from its eighth member on no member but the last has the low five
   bits of digest byte 7 set, and a group that ends before the last block, below 128 members and before no forced boundary
   has at least 8 and ends in such a block.
   */
  lemma GroupCut(blocks: seq<BlockInput>, forced: set<int>, k: nat)
    requires k < |GroupRanges(blocks, forced)|
    ensures var r := GroupRanges(blocks, forced)[k];
            && r.start < r.end <= |blocks| && r.end - r.start <= 128
            && (forall i :: r.start < i < r.end ==> blocks[i].offset !in forced)
            && (forall i :: r.start + 7 <= i < r.end - 1 && |blocks[i].digest| >= 8 ==> blocks[i].digest[7] % 32 != 31)
            && (r.end < |blocks| && r.end - r.start < 128 && blocks[r.end].offset !in forced ==>
                  r.end - r.start >= 8 && |blocks[r.end - 1].digest| >= 8 && blocks[r.end - 1].digest[7] % 32 == 31)
  {
    var items := BlockItems(blocks, forced);
    GroupsAreGreedy(items, GROUP_LIMITS);
    GroupSizes(items, GROUP_LIMITS, k);
    var r := GroupRanges(blocks, forced)[k];
    assert EndsAtFirstClose(items, GROUP_LIMITS, r);
    forall i | r.start < i < r.end ensures blocks[i].offset !in forced {
      assert !Closes(items, GROUP_LIMITS, r.start, i - 1);
      assert items[i].forced == (blocks[i].offset in forced);
    }
    forall i | r.start + 7 <= i < r.end - 1 && |blocks[i].digest| >= 8 ensures blocks[i].digest[7] % 32 != 31 {
      assert !Closes(items, GROUP_LIMITS, r.start, i);
    }
  }

  /** A block with the marker ends its group as soon as the group has 8 members. */
  lemma MarkerEndsGroup(blocks: seq<BlockInput>, forced: set<int>, k: nat, i: nat)
    requires k < |GroupRanges(blocks, forced)|
    requires GroupRanges(blocks, forced)[k].start + 7 <= i < GroupRanges(blocks, forced)[k].end <= |blocks|
    requires |blocks[i].digest| >= 8 && blocks[i].digest[7] % 32 == 31
    ensures GroupRanges(blocks, forced)[k].end == i + 1
  {
    GroupCut(blocks, forced, k);
  }

  /** The open group that block i belongs to already has at least 8 members with it. */
  ghost predicate FullEnoughAt(ranges: seq<Range>, i: nat, least: nat) {
    exists k :: 0 <= k < |ranges| && ranges[k].start + least - 1 <= i < ranges[k].end
  }

  /**
   Resynchronization: when two files reach a marker block of common content with open groups of at least 8 blocks, whatever
   precedes it, both cut there, and what follows it has the same group entries in both.
   */
  lemma MarkerResynchronizes(h: bytes -> Hash8, a: seq<BlockInput>, forcedA: set<int>, i: nat, b: seq<BlockInput>, forcedB: set<int>, j: nat)
    requires SizesFit(a) && SizesFit(b) && i < |a| && j < |b|
    requires a[i].digest == b[j].digest && |a[i].digest| >= 8 && a[i].digest[7] % 32 == 31
    requires FullEnoughAt(GroupRanges(a, forcedA), i, 8) && FullEnoughAt(GroupRanges(b, forcedB), j, 8)
    requires SameContent(a[i + 1..], forcedA, b[j + 1..], forcedB)
    ensures IsBoundary(GroupRanges(a, forcedA), i + 1) && IsBoundary(GroupRanges(b, forcedB), j + 1)
    ensures SizesFit(a[i + 1..])
    ensures var tail := GroupTable(GroupInfos(h, a[i + 1..], forcedA));
            EndsWith(GroupTable(GroupInfos(h, a, forcedA)), tail) && EndsWith(GroupTable(GroupInfos(h, b, forcedB)), tail)
  {
    CutAtMarker(a, forcedA, i);
    CutAtMarker(b, forcedB, j);
    SharedTailSharesGroups(h, a, forcedA, i + 1, b, forcedB, j + 1);
  }

  lemma CutAtMarker(blocks: seq<BlockInput>, forced: set<int>, i: nat)
    requires i < |blocks| && |blocks[i].digest| >= 8 && blocks[i].digest[7] % 32 == 31
    requires FullEnoughAt(GroupRanges(blocks, forced), i, 8)
    ensures IsBoundary(GroupRanges(blocks, forced), i + 1)
  {
    var ranges := GroupRanges(blocks, forced);
    var k :| 0 <= k < |ranges| && ranges[k].start + 7 <= i < ranges[k].end;
    GroupCut(blocks, forced, k);
    MarkerEndsGroup(blocks, forced, k, i);
  }

  // ---- super-groups

  /** Super-group k, on the group hashes: the same with the low four bits of the last hash byte, 4 and 64. */
  lemma SuperCut(infos: seq<GroupInfo>, forced: set<int>, k: nat)
    requires k < |SuperRanges(infos, forced)|
    ensures var r := SuperRanges(infos, forced)[k];
            && r.start < r.end <= |infos| && r.end - r.start <= 64
            && (forall i :: r.start < i < r.end ==> infos[i].offset !in forced)
            && (forall i :: r.start + 3 <= i < r.end - 1 ==> infos[i].hash[7] % 16 != 15)
            && (r.end < |infos| && r.end - r.start < 64 && infos[r.end].offset !in forced ==>
                  r.end - r.start >= 4 && infos[r.end - 1].hash[7] % 16 == 15)
  {
    var items := GroupItems(infos, forced);
    GroupsAreGreedy(items, SUPER_LIMITS);
    GroupSizes(items, SUPER_LIMITS, k);
    var r := SuperRanges(infos, forced)[k];
    assert EndsAtFirstClose(items, SUPER_LIMITS, r);
    forall i | r.start < i < r.end ensures infos[i].offset !in forced {
      assert !Closes(items, SUPER_LIMITS, r.start, i - 1);
      assert items[i].forced == (infos[i].offset in forced);
    }
    forall i | r.start + 3 <= i < r.end - 1 ensures infos[i].hash[7] % 16 != 15 {
      assert !Closes(items, SUPER_LIMITS, r.start, i);
    }
  }

  lemma SuperCutAtMarker(infos: seq<GroupInfo>, forced: set<int>, i: nat)
    requires i < |infos| && infos[i].hash[7] % 16 == 15
    requires FullEnoughAt(SuperRanges(infos, forced), i, 4)
    ensures IsBoundary(SuperRanges(infos, forced), i + 1)
  {
    var ranges := SuperRanges(infos, forced);
    var k :| 0 <= k < |ranges| && ranges[k].start + 3 <= i < ranges[k].end;
    SuperCut(infos, forced, k);
  }

  /** Two lists of groups that reach a marker group with open super-groups of at least 4 both cut there and go on alike. */
  lemma MarkerResynchronizesSupers(h: bytes -> Hash8, a: seq<GroupInfo>, forcedA: set<int>, i: nat, b: seq<GroupInfo>, forcedB: set<int>, j: nat)
    requires InfosFit(a) && InfosFit(b) && i < |a| && j < |b|
    requires a[i].hash == b[j].hash && a[i].hash[7] % 16 == 15
    requires FullEnoughAt(SuperRanges(a, forcedA), i, 4) && FullEnoughAt(SuperRanges(b, forcedB), j, 4)
    requires SameGroups(a[i + 1..], forcedA, b[j + 1..], forcedB)
    ensures IsBoundary(SuperRanges(a, forcedA), i + 1) && IsBoundary(SuperRanges(b, forcedB), j + 1)
    ensures InfosFit(a[i + 1..])
    ensures var tail := SuperTable(SuperInfos(h, a[i + 1..], forcedA));
            EndsWith(SuperTable(SuperInfos(h, a, forcedA)), tail) && EndsWith(SuperTable(SuperInfos(h, b, forcedB)), tail)
  {
    SuperCutAtMarker(a, forcedA, i);
    SuperCutAtMarker(b, forcedB, j);
    SharedTailSharesSupers(h, a, forcedA, i + 1, b, forcedB, j + 1);
  }
}
