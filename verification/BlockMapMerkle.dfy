/**
 The hashes of an encoded map: verification accepts it exactly when the blocks cover the file and none is empty, and
 equal hashes in two verified maps mean equal content beneath them.
 */
module BlockMapMerkle {
  import opened BlockMapDecoder
  import opened BlockMapIndex
  import opened BlockMapRoundTrip
  import opened BlockMapV3
  import opened BlockMapVerify
  import opened Bytes
  import opened Grouping
  import opened Seqs
  import opened Wrappers

  // ---- the parts of an encoded map under its index

  lemma {:induction false} BlocksInIsSum(infos: seq<GroupInfo>, first: nat, count: nat)
    requires InfosFit(infos) && first + count <= |infos|
    ensures BlocksIn(GroupsOf(infos), first, count) == Sum(BlockCounts(infos[first..first + count]))
    decreases count
  {
    if count > 0 {
      BlocksInIsSum(infos, first, count - 1);
      var last := infos[first + count - 1];
      hide InfosFit, Sum;
      assert BlockCounts(infos[first..first + count]) == BlockCounts(infos[first..first + count - 1]) + [last.blockCount];
      SumSnoc(BlockCounts(infos[first..first + count - 1]), last.blockCount);
    }
  }

  /** A run of a table that lies in the buffer, as a subarray of it. */
  lemma SubarrayOfTable(buf: bytes, at: nat, table: bytes, lo: nat, hi: nat, part: bytes)
    requires Holds(buf, at, table) && lo <= hi <= |table| && table[lo..hi] == part
    ensures Subarray(buf, Range(at + lo, at + hi)) == part
  {
    SubSlice(buf, at, at + |table|, lo, hi);
  }

  /** Where the span of range k of a partition lies. */
  lemma SpanOfRange(at: nat, ranges: seq<Range>, n: nat, width: nat, k: nat)
    requires Partitions(ranges, 0, n) && k < |ranges|
    ensures Spans(at, Scaled(Lengths(ranges), width))[k] == Range(at + width * ranges[k].start, at + width * ranges[k].end)
  {
    LengthsPrefix(ranges, 0, n, k);
    RunAt(at, Lengths(ranges), width, k);
  }

  /** Super-group k's byte range holds the entries of exactly its groups. */
  lemma EntriesOfSuper(buf: bytes, at: nat, infos: seq<GroupInfo>, ranges: seq<Range>, k: nat)
    requires InfosFit(infos) && Holds(buf, at, GroupTable(infos))
    requires Partitions(ranges, 0, |infos|) && k < |ranges|
    ensures Subarray(buf, Spans(at, Scaled(Lengths(ranges), GROUP_SIZE))[k]) == GroupTable(infos[ranges[k].start..ranges[k].end])
  {
    var r := ranges[k];
    assert r.start < r.end <= |infos|;
    hide GroupTable, Subarray, Spans, Scaled, Lengths, Partitions, Holds, InfosFit;
    SpanOfRange(at, ranges, |infos|, GROUP_SIZE, k);
    GroupTableSlice(infos, r.start, r.end);
    SubarrayOfTable(buf, at, GroupTable(infos), GROUP_SIZE * r.start, GROUP_SIZE * r.end, GroupTable(infos[r.start..r.end]));
  }

  /** Group k's byte range holds the records of exactly its blocks. */
  lemma RecordsOfGroup(buf: bytes, at: nat, blocks: seq<BlockInput>, ranges: seq<Range>, k: nat)
    requires SizesFit(blocks) && Holds(buf, at, RecordTable(blocks))
    requires Partitions(ranges, 0, |blocks|) && k < |ranges|
    ensures Subarray(buf, Spans(at, Scaled(Lengths(ranges), RECORD_SIZE))[k]) == RecordTable(blocks[ranges[k].start..ranges[k].end])
  {
    var r := ranges[k];
    assert r.start < r.end <= |blocks|;
    hide RecordTable, Subarray, Spans, Scaled, Lengths, Partitions, Holds;
    SpanOfRange(at, ranges, |blocks|, RECORD_SIZE, k);
    RecordTableSlice(blocks, r.start, r.end);
    SubarrayOfTable(buf, at, RecordTable(blocks), RECORD_SIZE * r.start, RECORD_SIZE * r.end, RecordTable(blocks[r.start..r.end]));
  }

  // ---- every super-group and group of an encoded map verifies

  lemma EncodedCounts(h: bytes -> Hash8, infos: seq<GroupInfo>, ranges: seq<Range>)
    requires InfosFit(infos) && Partitions(ranges, 0, |infos|)
    ensures GroupCounts(SupersOf(SupersOfRanges(h, infos, ranges))) == Lengths(ranges)
  {
    forall k | 0 <= k < |ranges| ensures GroupCounts(SupersOf(SupersOfRanges(h, infos, ranges)))[k] == Lengths(ranges)[k] {
      SuperCountsAt(h, infos, ranges, k);
    }
  }

  lemma EncodedSuperVerifies(h: bytes -> Hash8, buf: bytes, header: Header, infos: seq<GroupInfo>, ranges: seq<Range>, supers: seq<Super>, k: nat)
    requires InfosFit(infos) && Holds(buf, GroupTableStart(header), GroupTable(infos))
    requires Partitions(ranges, 0, |infos|) && k < |ranges| == |supers|
    requires GroupCounts(supers) == Lengths(ranges)
    requires var info := SuperInfoOf(h, infos[ranges[k].start..ranges[k].end]);
             supers[k] == Super(Hex(info.hash), info.blockCount, info.groupCount)
    ensures SuperVerifies(h, buf, GroupEntryRangesOf(header, supers)[k], supers[k], GroupsOf(infos), FirstGroup(supers, k))
  {
    var r := ranges[k];
    EntriesOfSuper(buf, GroupTableStart(header), infos, ranges, k);
    LengthsPrefix(ranges, 0, |infos|, k);
    BlocksInIsSum(infos, r.start, r.end - r.start);
    hide Holds, GroupTable, Partitions, Spans, Scaled, Subarray, BlocksIn, GroupsOf, Lengths;
  }

  ghost predicate NoneEmpty(blocks: seq<BlockInput>) {
    forall j :: 0 <= j < |blocks| ==> blocks[j].size != 0
  }

  /** A property of every block is one of every block of every group. */
  lemma NoneEmptyByGroup(blocks: seq<BlockInput>, ranges: seq<Range>)
    requires Partitions(ranges, 0, |blocks|)
    ensures NoneEmpty(blocks) <==> forall k :: 0 <= k < |ranges| ==> NoneEmpty(blocks[ranges[k].start..ranges[k].end])
  {
    if forall k :: 0 <= k < |ranges| ==> NoneEmpty(blocks[ranges[k].start..ranges[k].end]) {
      forall j | 0 <= j < |blocks| ensures blocks[j].size != 0 {
        var k := GroupOf(ranges, 0, |blocks|, j);
        var members := blocks[ranges[k].start..ranges[k].end];
        assert NoneEmpty(members) && members[j - ranges[k].start] == blocks[j];
      }
    }
  }

  /** An encoded group verifies exactly when none of its blocks is empty. */
  lemma EncodedGroupVerifies(h: bytes -> Hash8, buf: bytes, header: Header, blocks: seq<BlockInput>, ranges: seq<Range>, infos: seq<GroupInfo>, k: nat)
    requires SizesFit(blocks) && Holds(buf, RecordsStart(header), RecordTable(blocks))
    requires Partitions(ranges, 0, |blocks|) && k < |ranges|
    requires infos == InfosOfRanges(h, blocks, ranges) && InfosFit(infos)
    requires GroupBlockCounts(GroupsOf(infos)) == Lengths(ranges)
    ensures GroupVerifies(h, buf, RecordRangesOf(header, GroupsOf(infos))[k], GroupsOf(infos)[k])
            <==> NoneEmpty(blocks[ranges[k].start..ranges[k].end])
  {
    var r := ranges[k];
    var members := blocks[r.start..r.end];
    RecordsOfGroup(buf, RecordsStart(header), blocks, ranges, k);
    var recordBytes := RecordTable(members);
    RecordsRoundTrip(recordBytes, 0, members);
    assert RecordSizes(RecordsOf(members)) == Sizes(members);
    EmptyBlocks(members);
  }

  /** The super-group half of verification never fails on an encoded map. */
  lemma EncodedSupersVerify(h: bytes -> Hash8, buf: bytes, header: Header, infos: seq<GroupInfo>, ranges: seq<Range>, supers: seq<Super>)
    requires InfosFit(infos) && Holds(buf, GroupTableStart(header), GroupTable(infos))
    requires Partitions(ranges, 0, |infos|) && supers == SupersOf(SupersOfRanges(h, infos, ranges))
    ensures SupersVerify(h, buf, header, supers, GroupsOf(infos))
  {
    EncodedCounts(h, infos, ranges);
    LengthsSum(ranges, 0, |infos|);
    hide SuperVerifies, GroupEntryRangesOf, FirstGroup, GroupTable, GroupsOf;
    forall k | 0 <= k < |supers|
      ensures supers[k].groupCount != 0
      ensures SuperVerifies(h, buf, GroupEntryRangesOf(header, supers)[k], supers[k], GroupsOf(infos), FirstGroup(supers, k))
    {
      EncodedSuperVerifies(h, buf, header, infos, ranges, supers, k);
    }
  }

  lemma GroupColumnsAt(h: bytes -> Hash8, blocks: seq<BlockInput>, ranges: seq<Range>, k: nat)
    requires SizesFit(blocks) && RangesFit(ranges, |blocks|) && k < |ranges|
    ensures var info := InfosOfRanges(h, blocks, ranges)[k];
            info.blockCount == Lengths(ranges)[k] && info.byteLength == RangeSums(Sizes(blocks), ranges)[k]
  {
    var r := ranges[k];
    assert Sizes(blocks[r.start..r.end]) == Sizes(blocks)[r.start..r.end];
  }

  /** The columns of the group table: sizes of the ranges and of their blocks. */
  lemma GroupColumns(h: bytes -> Hash8, blocks: seq<BlockInput>, ranges: seq<Range>, infos: seq<GroupInfo>)
    requires SizesFit(blocks) && Partitions(ranges, 0, |blocks|) && infos == InfosOfRanges(h, blocks, ranges) && InfosFit(infos)
    ensures GroupBlockCounts(GroupsOf(infos)) == Lengths(ranges)
    ensures Sum(GroupBlockCounts(GroupsOf(infos))) == |blocks|
    ensures Sum(ByteLengths(GroupsOf(infos))) == Sum(Sizes(blocks))
  {
    assert RangesFit(ranges, |blocks|);
    assert Sizes(blocks)[0..] == Sizes(blocks);
    hide InfosOfRanges, Lengths, RangeSums, Partitions, InfosFit, SizesFit, Sizes, RangesFit;
    LengthsSum(ranges, 0, |blocks|);
    RangeSumsSum(Sizes(blocks), ranges, 0);
    var counts, lengths := GroupBlockCounts(GroupsOf(infos)), ByteLengths(GroupsOf(infos));
    forall k | 0 <= k < |ranges|
      ensures counts[k] == Lengths(ranges)[k] && lengths[k] == RangeSums(Sizes(blocks), ranges)[k]
    {
      GroupColumnsAt(h, blocks, ranges, k);
    }
    assert counts == Lengths(ranges);
    assert lengths == RangeSums(Sizes(blocks), ranges);
  }

  lemma EachGroupVerifies(h: bytes -> Hash8, buf: bytes, header: Header, blocks: seq<BlockInput>, ranges: seq<Range>, infos: seq<GroupInfo>)
    requires SizesFit(blocks) && Holds(buf, RecordsStart(header), RecordTable(blocks))
    requires Partitions(ranges, 0, |blocks|) && infos == InfosOfRanges(h, blocks, ranges) && InfosFit(infos)
    requires GroupBlockCounts(GroupsOf(infos)) == Lengths(ranges)
    ensures (forall k :: 0 <= k < |infos| ==> GroupVerifies(h, buf, RecordRangesOf(header, GroupsOf(infos))[k], GroupsOf(infos)[k]))
            <==> NoneEmpty(blocks)
  {
    NoneEmptyByGroup(blocks, ranges);
    hide GroupVerifies, RecordRangesOf, GroupsOf, RecordTable, Holds, Lengths, InfosOfRanges, InfosFit, NoneEmpty, GroupBlockCounts;
    forall k | 0 <= k < |ranges|
      ensures GroupVerifies(h, buf, RecordRangesOf(header, GroupsOf(infos))[k], GroupsOf(infos)[k])
              <==> NoneEmpty(blocks[ranges[k].start..ranges[k].end])
    {
      EncodedGroupVerifies(h, buf, header, blocks, ranges, infos, k);
    }
  }

  /** The group half fails only on an empty block or a file size the blocks do not add up to. */
  lemma EncodedGroupsVerify(h: bytes -> Hash8, buf: bytes, header: Header, blocks: seq<BlockInput>, ranges: seq<Range>, infos: seq<GroupInfo>)
    requires SizesFit(blocks) && Holds(buf, RecordsStart(header), RecordTable(blocks))
    requires Partitions(ranges, 0, |blocks|) && infos == InfosOfRanges(h, blocks, ranges) && InfosFit(infos)
    requires header.blockCount == |blocks|
    ensures GroupsVerify(h, buf, header, GroupsOf(infos)) <==> NoneEmpty(blocks) && Sum(Sizes(blocks)) == header.fileSize
  {
    GroupColumns(h, blocks, ranges, infos);
    assert forall k :: 0 <= k < |infos| ==> GroupBlockCounts(GroupsOf(infos))[k] == Lengths(ranges)[k] > 0;
    assert forall k :: 0 <= k < |infos| ==> GroupsOf(infos)[k].blockCount != 0;
    hide GroupVerifies, RecordRangesOf, GroupsOf, RecordTable, Holds, Lengths, InfosOfRanges, InfosFit, NoneEmpty, Sizes, ByteLengths, Partitions;
    EachGroupVerifies(h, buf, header, blocks, ranges, infos);
  }

  lemma LaidOutMapVerifies(h: bytes -> Hash8, buf: bytes, options: EncodeOptions, blocks: seq<BlockInput>, groupRanges: seq<Range>, superRanges: seq<Range>,
                           infos: seq<GroupInfo>, superInfos: seq<SuperInfo>)
    requires LaidOut(buf, options, superInfos, infos, blocks)
    requires Partitions(groupRanges, 0, |blocks|) && infos == InfosOfRanges(h, blocks, groupRanges)
    requires Partitions(superRanges, 0, |infos|) && superInfos == SupersOfRanges(h, infos, superRanges)
    ensures OptionsFit(options)
    ensures Verified(h, buf, HeaderOf(OptionsAsRead(options), |superInfos|, |infos|, |blocks|), SupersOf(superInfos), GroupsOf(infos))
            <==> NoneEmpty(blocks) && Sum(Sizes(blocks)) == AsRead(options.fileSize)
  {
    hide SupersVerify, GroupsVerify, Holds, Partitions, SupersOfRanges, InfosOfRanges, NoneEmpty, Sizes, FixedHeader, RegionParts, RegionsAsRead, FixedFits,
         SupersFit, InfosFit, SizesFit, RecordTable, GroupTable, SuperTable, SupersOf, GroupsOf;
    LaidOutFits(buf, options, superInfos, infos, blocks);
    var header := HeaderOf(OptionsAsRead(options), |superInfos|, |infos|, |blocks|);
    EncodedSupersVerify(h, buf, header, infos, superRanges, SupersOf(superInfos));
    EncodedGroupsVerify(h, buf, header, blocks, groupRanges, infos);
    GroupColumns(h, blocks, groupRanges, infos);
  }

  /**
   Verification accepts an encoded map exactly when no block is empty and the blocks add up to the file size as read: the
   hashes and counts the encoder wrote always check out.
   */
  lemma EncodedMapVerifies(h: bytes -> Hash8, blocks: seq<BlockInput>, options: EncodeOptions)
    requires Encode(h, blocks, options).Success?
    ensures SizesFit(blocks) && OptionsFit(options)
    ensures var m := ExpectedMap(h, blocks, options);
            Verified(h, Encode(h, blocks, options).value, m.header, m.supers, m.groups)
            <==> NoneEmpty(blocks) && Sum(Sizes(blocks)) == AsRead(options.fileSize)
  {
    EncodedIsLaidOut(h, blocks, options);
    var forced := Forced(options.regions);
    var infos := GroupInfos(h, blocks, forced);
    GroupsAreGreedy(BlockItems(blocks, forced), GROUP_LIMITS);
    GroupsAreGreedy(GroupItems(infos, forced), SUPER_LIMITS);
    hide LaidOut, Verified, SupersOf, GroupsOf, NoneEmpty, EndsAtFirstClose, Partitions, HeaderOf, Encode, Forced;
    LaidOutMapVerifies(h, Encode(h, blocks, options).value, options, blocks, GroupRanges(blocks, forced), SuperRanges(infos, forced), infos,
                       SuperInfos(h, infos, forced));
  }
}
