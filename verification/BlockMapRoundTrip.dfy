/** Decoding what was encoded: exactly when it succeeds, and that it returns exactly what was put in. */
module BlockMapRoundTrip {
  import opened BlockMapDecoder
  import opened BlockMapV3
  import opened Bytes
  import opened Grouping
  import opened Seqs
  import opened Wrappers

  // ---- fields

  lemma FieldIs(buf: bytes, at: nat, width: nat, n: nat)
    requires at + width <= |buf| && n < Pow256(width) && buf[at..at + width] == ToLE(n, width)
    ensures Field(buf, at, width) == n
  {
    FromToLE(n, width);
  }

  lemma FixedHeaderSlices(options: EncodeOptions, supers: nat, groups: nat, blocks: nat)
    requires FixedFits(options, supers, groups, blocks)
    ensures HeaderLength(|options.regions|) < Pow256(4)
    ensures var f := FixedHeader(options, supers, groups, blocks);
            && f[..4] == MAGIC && f[4] == VERSION && f[5] == HASH_LEN && f[6] == HASH_LEN
            && f[8..16] == ToLE(options.fileSize, 8) && f[16..20] == ToLE(groups, 4) && f[20..24] == ToLE(blocks, 4)
            && f[24..28] == ToLE(HeaderLength(|options.regions|), 4) && f[28..40] == ChunkerBytes(options.defaultChunker)
            && f[40..42] == ToLE(|options.regions|, 2) && f[42..46] == ToLE(supers, 4)
  {
    hide ChunkerBytes;
    Pow256Values();
    var f := FixedHeader(options, supers, groups, blocks);
    assert f[42..46] == f[42..];
  }

  /** The value of each fixed field. */
  lemma FixedHeaderFields(options: EncodeOptions, supers: nat, groups: nat, blocks: nat)
    requires FixedFits(options, supers, groups, blocks)
    ensures HeaderLength(|options.regions|) < Pow256(4)
    ensures var f := FixedHeader(options, supers, groups, blocks);
            && f[..4] == MAGIC && f[4] == VERSION && f[5] == HASH_LEN && f[6] == HASH_LEN
            && Field(f, 8, 8) == options.fileSize && Field(f, 16, 4) == groups && Field(f, 20, 4) == blocks
            && Field(f, 24, 4) == HeaderLength(|options.regions|)
            && ChunkerAt(f, 28) == options.defaultChunker
            && Field(f, 40, 2) == |options.regions| && Field(f, 42, 4) == supers
  {
    Pow256Values();
    var f := FixedHeader(options, supers, groups, blocks);
    var c := options.defaultChunker;
    FixedHeaderSlices(options, supers, groups, blocks);
    hide FixedHeader, ChunkerBytes;
    FieldIs(f, 8, 8, options.fileSize);
    FieldIs(f, 16, 4, groups);
    FieldIs(f, 20, 4, blocks);
    FieldIs(f, 24, 4, HeaderLength(|options.regions|));
    ChunkerIs(f, 28, c);
    FieldIs(f, 40, 2, |options.regions|);
    FieldIs(f, 42, 4, supers);
  }

  lemma ChunkerIs(buf: bytes, at: nat, c: Chunker)
    requires ChunkerFits(c) && at + 12 <= |buf| && buf[at..at + 12] == ChunkerBytes(c)
    ensures ChunkerAt(buf, at) == c
  {
    var x, y, z := ToLE(c.min, 4), ToLE(c.avg, 4), ToLE(c.max, 4);
    var b := x + y + z;
    assert b[0..4] == x && b[4..8] == y && b[8..12] == z;
    SubSlice(buf, at, at + 12, 0, 4);
    SubSlice(buf, at, at + 12, 4, 8);
    SubSlice(buf, at, at + 12, 8, 12);
    FieldIs(buf, at, 4, c.min);
    FieldIs(buf, at + 4, 4, c.avg);
    FieldIs(buf, at + 8, 4, c.max);
  }

  /** A 64-bit field as a JavaScript number: what reading it back gives. */
  function AsRead(n: int): (r: int)
    requires FitsUnsigned(n, 8)
    ensures r >= 0
  {
    ToNumber(n)
  }

  /** A region as read back: its 64-bit offset and size become JavaScript numbers. */
  function RegionAsRead(r: Region): Region
    requires RegionFits(r)
  {
    Region(AsRead(r.offset), AsRead(r.size), r.chunker)
  }

  lemma RegionIs(buf: bytes, at: nat, r: Region)
    requires RegionFits(r) && at + REGION_SIZE <= |buf| && buf[at..at + REGION_SIZE] == RegionBytes(r)
    ensures RegionAt(buf, at) == RegionAsRead(r)
  {
    var x, y, z := ToLE(r.offset, 8), ToLE(r.size, 8), ChunkerBytes(r.chunker);
    var b := x + y + z;
    assert b[0..8] == x && b[8..16] == y && b[16..28] == z;
    SubSlice(buf, at, at + 28, 0, 8);
    SubSlice(buf, at, at + 28, 8, 16);
    SubSlice(buf, at, at + 28, 16, 28);
    FieldIs(buf, at, 8, r.offset);
    FieldIs(buf, at + 8, 8, r.size);
    ChunkerIs(buf, at + 16, r.chunker);
  }

  // ---- table entries

  function RecordOf(block: BlockInput): Record
    requires FitsUnsigned(block.size, 2)
  {
    Record(Hex(Prefix8(block.digest)), block.size)
  }

  lemma RecordIs(buf: bytes, at: nat, block: BlockInput)
    requires FitsUnsigned(block.size, 2) && at + RECORD_SIZE <= |buf| && buf[at..at + RECORD_SIZE] == RecordBytes(block)
    ensures RecordAt(buf, at) == RecordOf(block)
  {
    var x: bytes, y: bytes := Prefix8(block.digest), ToLE(block.size, 2);
    var b: bytes := x + y;
    assert b[0..8] == x && b[8..10] == y;
    SubSlice(buf, at, at + 10, 0, 8);
    SubSlice(buf, at, at + 10, 8, 10);
    FieldIs(buf, at + HASH_LEN, 2, block.size);
  }

  lemma EntryIs(buf: bytes, at: nat, hash: Hash8, wide: nat, narrow: nat)
    requires FitsUnsigned(wide, 4) && FitsUnsigned(narrow, 2)
    requires at + GROUP_SIZE <= |buf| && buf[at..at + GROUP_SIZE] == EntryBytes(hash, wide, narrow)
    ensures GroupAt(buf, at) == Group(Hex(hash), wide, narrow)
    ensures SuperAt(buf, at) == Super(Hex(hash), wide, narrow)
  {
    var x, y := ToLE(wide, 4), ToLE(narrow, 2);
    var b := hash + x + y + Zeros(2);
    assert b[0..8] == hash && b[8..12] == x && b[12..14] == y;
    SubSlice(buf, at, at + 16, 0, 8);
    SubSlice(buf, at, at + 16, 8, 12);
    SubSlice(buf, at, at + 16, 12, 14);
    FieldIs(buf, at + 8, 4, wide);
    FieldIs(buf, at + 12, 2, narrow);
  }

  // ---- whole tables inside a buffer

  /** `table` occupies the buffer from `at` on. */
  ghost predicate Holds(buf: bytes, at: nat, table: bytes) {
    at + |table| <= |buf| && buf[at..at + |table|] == table
  }

  lemma PartOfTable(buf: bytes, at: nat, parts: seq<bytes>, width: nat, i: nat, lo: nat)
    requires Uniform(parts, width) && i < |parts| && Holds(buf, at, Concat(parts)) && lo == width * i
    ensures Holds(buf, at + lo, parts[i])
  {
    ConcatPart(parts, width, i, lo);
    var table, part := Concat(parts), parts[i];
    HoldsPart(buf, at, table, lo, part);
  }

  lemma HoldsPart(buf: bytes, at: nat, table: bytes, lo: nat, part: bytes)
    requires Holds(buf, at, table) && Holds(table, lo, part)
    ensures Holds(buf, at + lo, part)
  {
    SubSlice(buf, at, at + |table|, lo, lo + |part|);
  }

  ghost predicate RegionsFit(regions: seq<Region>) {
    forall k :: 0 <= k < |regions| ==> RegionFits(regions[k])
  }

  ghost function RegionsAsRead(regions: seq<Region>): (read: seq<Region>)
    requires RegionsFit(regions)
    ensures |read| == |regions|
  {
    seq(|regions|, k requires 0 <= k < |regions| && RegionsFit(regions) => RegionAsRead(regions[k]))
  }

  lemma RegionsRoundTrip(buf: bytes, regions: seq<Region>)
    requires RegionsFit(regions)
    requires Holds(buf, HEADER_FIXED_SIZE, Concat(RegionParts(regions)))
    ensures HeaderLength(|regions|) <= |buf| && RegionsOf(buf, |regions|) == RegionsAsRead(regions)
  {
    var parts := RegionParts(regions);
    ConcatLength(parts, REGION_SIZE);
    forall i | 0 <= i < |regions| ensures RegionAt(buf, HeaderLength(i)) == RegionsAsRead(regions)[i] {
      PartOfTable(buf, HEADER_FIXED_SIZE, parts, REGION_SIZE, i, REGION_SIZE * i);
      RegionIs(buf, HeaderLength(i), regions[i]);
    }
  }

  function RecordsOf(blocks: seq<BlockInput>): (records: seq<Record>)
    requires forall k :: 0 <= k < |blocks| ==> FitsUnsigned(blocks[k].size, 2)
    ensures |records| == |blocks|
  {
    seq(|blocks|, k requires 0 <= k < |blocks| && FitsUnsigned(blocks[k].size, 2) => RecordOf(blocks[k]))
  }

  lemma RecordRoundTrip(buf: bytes, at: nat, blocks: seq<BlockInput>, i: nat)
    requires SizesFit(blocks) && Holds(buf, at, RecordTable(blocks)) && i < |blocks|
    ensures at + i * RECORD_SIZE + RECORD_SIZE <= |buf|
    ensures RecordAt(buf, at + i * RECORD_SIZE) == RecordOf(blocks[i])
  {
    PartOfTable(buf, at, RecordParts(blocks), RECORD_SIZE, i, i * RECORD_SIZE);
    RecordIs(buf, at + i * RECORD_SIZE, blocks[i]);
  }

  lemma RecordsRoundTrip(buf: bytes, at: nat, blocks: seq<BlockInput>)
    requires SizesFit(blocks) && Holds(buf, at, RecordTable(blocks))
    ensures |RecordTable(blocks)| == |blocks| * RECORD_SIZE
    ensures RecordsAt(buf, at, |blocks|) == RecordsOf(blocks)
  {
    ConcatLength(RecordParts(blocks), RECORD_SIZE);
    var records := RecordsAt(buf, at, |blocks|);
    forall i | 0 <= i < |blocks| ensures records[i] == RecordsOf(blocks)[i] {
      RecordRoundTrip(buf, at, blocks, i);
    }
  }

  ghost function GroupsOf(infos: seq<GroupInfo>): (groups: seq<Group>)
    requires InfosFit(infos)
    ensures |groups| == |infos|
  {
    seq(|infos|, k requires 0 <= k < |infos| && InfosFit(infos) => Group(Hex(infos[k].hash), infos[k].byteLength, infos[k].blockCount))
  }

  lemma GroupRoundTrip(buf: bytes, at: nat, infos: seq<GroupInfo>, i: nat)
    requires InfosFit(infos) && Holds(buf, at, GroupTable(infos)) && i < |infos|
    ensures at + i * GROUP_SIZE + GROUP_SIZE <= |buf|
    ensures GroupAt(buf, at + i * GROUP_SIZE) == GroupsOf(infos)[i]
  {
    Pow256Values();
    PartOfTable(buf, at, GroupParts(infos), GROUP_SIZE, i, i * GROUP_SIZE);
    EntryIs(buf, at + i * GROUP_SIZE, infos[i].hash, infos[i].byteLength, infos[i].blockCount);
  }

  lemma GroupsRoundTrip(buf: bytes, at: nat, infos: seq<GroupInfo>)
    requires InfosFit(infos) && Holds(buf, at, GroupTable(infos))
    ensures |GroupTable(infos)| == |infos| * GROUP_SIZE
    ensures GroupsAt(buf, at, |infos|) == GroupsOf(infos)
  {
    ConcatLength(GroupParts(infos), GROUP_SIZE);
    var groups := GroupsAt(buf, at, |infos|);
    forall i | 0 <= i < |infos| ensures groups[i] == GroupsOf(infos)[i] {
      GroupRoundTrip(buf, at, infos, i);
    }
  }

  ghost function SupersOf(infos: seq<SuperInfo>): (supers: seq<Super>)
    ensures |supers| == |infos|
  {
    seq(|infos|, k requires 0 <= k < |infos| => Super(Hex(infos[k].hash), infos[k].blockCount, infos[k].groupCount))
  }

  lemma SuperRoundTrip(buf: bytes, at: nat, supers: seq<SuperInfo>, i: nat)
    requires SupersFit(supers) && Holds(buf, at, SuperTable(supers)) && i < |supers|
    ensures at + i * SUPER_SIZE + SUPER_SIZE <= |buf|
    ensures SuperAt(buf, at + i * SUPER_SIZE) == SupersOf(supers)[i]
  {
    Pow256Values();
    PartOfTable(buf, at, SuperParts(supers), SUPER_SIZE, i, i * SUPER_SIZE);
    EntryIs(buf, at + i * SUPER_SIZE, supers[i].hash, supers[i].blockCount, supers[i].groupCount);
  }

  lemma SupersRoundTrip(buf: bytes, at: nat, supers: seq<SuperInfo>)
    requires SupersFit(supers) && Holds(buf, at, SuperTable(supers))
    ensures |SuperTable(supers)| == |supers| * SUPER_SIZE
    ensures SupersAt(buf, at, |supers|) == SupersOf(supers)
  {
    ConcatLength(SuperParts(supers), SUPER_SIZE);
    var read := SupersAt(buf, at, |supers|);
    forall i | 0 <= i < |supers| ensures read[i] == SupersOf(supers)[i] {
      SuperRoundTrip(buf, at, supers, i);
    }
  }

  // ---- the counts of an encoded index agree

  /** Group sizes add up to the number of blocks. */
  lemma GroupsCoverBlocks(h: bytes -> Hash8, blocks: seq<BlockInput>, forced: set<int>)
    requires SizesFit(blocks)
    ensures Sum(BlockCounts(GroupInfos(h, blocks, forced))) == |blocks|
    ensures GroupCount(blocks, forced) <= |blocks|
  {
    var ranges := GroupRanges(blocks, forced);
    var infos := GroupInfos(h, blocks, forced);
    GroupsAreGreedy(BlockItems(blocks, forced), GROUP_LIMITS);
    LengthsSum(ranges, 0, |blocks|);
    SumAtLeast(Lengths(ranges), 1);
    forall k | 0 <= k < |ranges| ensures BlockCounts(infos)[k] == Lengths(ranges)[k] {
      assert infos[k] == GroupInfoOf(h, blocks[ranges[k].start..ranges[k].end]);
    }
    assert BlockCounts(infos) == Lengths(ranges);
  }

  lemma SuperCountsAt(h: bytes -> Hash8, infos: seq<GroupInfo>, ranges: seq<Range>, k: nat)
    requires InfosFit(infos) && RangesFit(ranges, |infos|) && k < |ranges|
    ensures var s := SupersOfRanges(h, infos, ranges)[k];
            s.groupCount == Lengths(ranges)[k] && s.blockCount == RangeSums(BlockCounts(infos), ranges)[k]
  {
    var r := ranges[k];
    assert BlockCounts(infos[r.start..r.end]) == BlockCounts(infos)[r.start..r.end];
  }

  /** Super-group counts add up to the numbers of groups and blocks. */
  lemma SupersCoverGroups(h: bytes -> Hash8, infos: seq<GroupInfo>, forced: set<int>)
    requires InfosFit(infos)
    ensures var supers := SupersOf(SuperInfos(h, infos, forced));
            Sum(GroupCounts(supers)) == |infos| && Sum(SuperBlockCounts(supers)) == Sum(BlockCounts(infos)) && |supers| <= |infos|
  {
    SuperRangesFit(infos, forced);
    GroupsAreGreedy(GroupItems(infos, forced), SUPER_LIMITS);
    SuperColumns(h, infos, SuperRanges(infos, forced));
  }

  lemma SuperColumns(h: bytes -> Hash8, infos: seq<GroupInfo>, ranges: seq<Range>)
    requires InfosFit(infos) && RangesFit(ranges, |infos|) && Partitions(ranges, 0, |infos|)
    ensures var supers := SupersOf(SupersOfRanges(h, infos, ranges));
            Sum(GroupCounts(supers)) == |infos| && Sum(SuperBlockCounts(supers)) == Sum(BlockCounts(infos)) && |supers| <= |infos|
  {
    var supers := SupersOf(SupersOfRanges(h, infos, ranges));
    var counts := BlockCounts(infos);
    SumAtLeast(Lengths(ranges), 1);
    assert counts[0..] == counts;
    hide SupersOfRanges, Lengths, RangeSums, Partitions, InfosFit, RangesFit, BlockCounts;
    LengthsSum(ranges, 0, |infos|);
    RangeSumsSum(counts, ranges, 0);
    forall k | 0 <= k < |ranges|
      ensures GroupCounts(supers)[k] == Lengths(ranges)[k]
      ensures SuperBlockCounts(supers)[k] == RangeSums(counts, ranges)[k]
    {
      SuperCountsAt(h, infos, ranges, k);
    }
    assert GroupCounts(supers) == Lengths(ranges);
    assert SuperBlockCounts(supers) == RangeSums(counts, ranges);
  }

  // ---- the round trip

  /** The 64-bit fields an encoded header holds. */
  ghost predicate OptionsFit(options: EncodeOptions) {
    FitsUnsigned(options.fileSize, 8) && RegionsFit(options.regions)
  }

  ghost function OptionsAsRead(options: EncodeOptions): (read: EncodeOptions)
    requires OptionsFit(options)
    ensures read.fileSize >= 0 && |read.regions| == |options.regions|
  {
    EncodeOptions(AsRead(options.fileSize), options.defaultChunker, RegionsAsRead(options.regions))
  }

  function HeaderOf(options: EncodeOptions, supers: nat, groups: nat, blocks: nat): Header
    requires options.fileSize >= 0
  {
    Header(VERSION, options.fileSize, supers, groups, blocks, HeaderLength(|options.regions|), options.defaultChunker, options.regions)
  }

  /** The parts of a map, and where they lie. */
  ghost predicate LaidOut(buf: bytes, options: EncodeOptions, supers: seq<SuperInfo>, infos: seq<GroupInfo>, blocks: seq<BlockInput>) {
    && SupersFit(supers) && InfosFit(infos) && SizesFit(blocks) && HeaderFits(options, |supers|, |infos|, |blocks|)
    && var header := HeaderOf(options, |supers|, |infos|, |blocks|);
    && Holds(buf, 0, FixedHeader(options, |supers|, |infos|, |blocks|))
    && Holds(buf, HEADER_FIXED_SIZE, Concat(RegionParts(options.regions)))
    && Holds(buf, header.headerLen, SuperTable(supers))
    && Holds(buf, GroupTableStart(header), GroupTable(infos))
    && Holds(buf, RecordsStart(header), RecordTable(blocks))
    && |buf| == MapSize(header)
  }

  lemma FiveParts(buf: bytes, a: bytes, b: bytes, c: bytes, d: bytes, e: bytes)
    requires buf == a + b + (c + d + e)
    ensures Holds(buf, 0, a) && Holds(buf, |a|, b) && Holds(buf, |a| + |b|, c) && Holds(buf, |a| + |b| + |c|, d) && Holds(buf, |a| + |b| + |c| + |d|, e)
    ensures |buf| == |a| + |b| + |c| + |d| + |e|
  {
  }

  lemma Layout(buf: bytes, options: EncodeOptions, supers: seq<SuperInfo>, infos: seq<GroupInfo>, blocks: seq<BlockInput>)
    requires SupersFit(supers) && InfosFit(infos) && SizesFit(blocks) && HeaderFits(options, |supers|, |infos|, |blocks|)
    requires buf == HeaderBytes(options, |supers|, |infos|, |blocks|) + (SuperTable(supers) + GroupTable(infos) + RecordTable(blocks))
    ensures LaidOut(buf, options, supers, infos, blocks)
  {
    hide FixedHeader, RegionParts, SuperParts, GroupParts, RecordParts, Holds, SupersFit, InfosFit, SizesFit;
    ConcatLength(RegionParts(options.regions), REGION_SIZE);
    ConcatLength(SuperParts(supers), SUPER_SIZE);
    ConcatLength(GroupParts(infos), GROUP_SIZE);
    ConcatLength(RecordParts(blocks), RECORD_SIZE);
    FiveParts(buf, FixedHeader(options, |supers|, |infos|, |blocks|), Concat(RegionParts(options.regions)), SuperTable(supers), GroupTable(infos), RecordTable(blocks));
  }

  lemma LaidOutFits(buf: bytes, options: EncodeOptions, supers: seq<SuperInfo>, infos: seq<GroupInfo>, blocks: seq<BlockInput>)
    requires LaidOut(buf, options, supers, infos, blocks)
    ensures SupersFit(supers) && InfosFit(infos) && SizesFit(blocks) && OptionsFit(options)
  {
  }

  /** The fixed fields as they lie in the map. */
  lemma FixedFieldsOfMap(buf: bytes, options: EncodeOptions, supers: nat, groups: nat, blocks: nat)
    requires FixedFits(options, supers, groups, blocks) && Holds(buf, 0, FixedHeader(options, supers, groups, blocks))
    ensures |buf| >= HEADER_FIXED_SIZE && buf[..4] == MAGIC && buf[4] == VERSION && buf[5] == HASH_LEN && buf[6] == HASH_LEN
    ensures Field(buf, 8, 8) == options.fileSize && Field(buf, 16, 4) == groups && Field(buf, 20, 4) == blocks
    ensures Field(buf, 24, 4) == HeaderLength(|options.regions|) && ChunkerAt(buf, 28) == options.defaultChunker
    ensures Field(buf, 40, 2) == |options.regions| && Field(buf, 42, 4) == supers
  {
    FixedHeaderFields(options, supers, groups, blocks);
    var f := FixedHeader(options, supers, groups, blocks);
    assert buf[..46] == f;
    SubSlice(buf, 0, 46, 0, 4);
    SubSlice(buf, 0, 46, 8, 16);
    SubSlice(buf, 0, 46, 16, 20);
    SubSlice(buf, 0, 46, 20, 24);
    SubSlice(buf, 0, 46, 24, 28);
    SubSlice(buf, 0, 46, 28, 32);
    SubSlice(buf, 0, 46, 32, 36);
    SubSlice(buf, 0, 46, 36, 40);
    SubSlice(buf, 0, 46, 40, 42);
    SubSlice(buf, 0, 46, 42, 46);
    assert forall k :: 0 <= k < 46 ==> buf[k] == f[k];
  }

  /** The header is read back with its 64-bit fields as JavaScript numbers, up to the consistency check on its counts. */
  lemma HeaderRoundTrip(buf: bytes, options: EncodeOptions, supers: seq<SuperInfo>, infos: seq<GroupInfo>, blocks: seq<BlockInput>)
    requires LaidOut(buf, options, supers, infos, blocks)
    ensures OptionsFit(options)
    ensures ParseHeader(buf) == if |blocks| > AsRead(options.fileSize) || |infos| > |blocks| || |supers| > |infos| then Failure(InconsistentCounts)
                                else Success(HeaderOf(OptionsAsRead(options), |supers|, |infos|, |blocks|))
  {
    FixedFieldsOfMap(buf, options, |supers|, |infos|, |blocks|);
    RegionsRoundTrip(buf, options.regions);
  }

  /** The 64-bit fields that survive reading: whole numbers a JavaScript number can hold. */
  ghost predicate OptionsAreJs(options: EncodeOptions) {
    && IsJsInteger(options.fileSize)
    && forall k :: 0 <= k < |options.regions| ==> IsJsInteger(options.regions[k].offset) && IsJsInteger(options.regions[k].size)
  }

  lemma ReadUnchangedIff(options: EncodeOptions)
    requires OptionsFit(options)
    ensures OptionsAsRead(options) == options <==> OptionsAreJs(options)
  {
    ToNumberIsExactIff(options.fileSize);
    forall k | 0 <= k < |options.regions|
      ensures RegionAsRead(options.regions[k]) == options.regions[k] <==>
              IsJsInteger(options.regions[k].offset) && IsJsInteger(options.regions[k].size)
    {
      ToNumberIsExactIff(options.regions[k].offset);
      ToNumberIsExactIff(options.regions[k].size);
    }
    assert forall k :: 0 <= k < |options.regions| ==> RegionAsRead(options.regions[k]) == OptionsAsRead(options).regions[k];
    assert OptionsAreJs(options) ==> OptionsAsRead(options).regions == options.regions;
  }

  /** The tables and records are read back and pass their checks. */
  lemma TablesRoundTrip(buf: bytes, options: EncodeOptions, supers: seq<SuperInfo>, infos: seq<GroupInfo>, blocks: seq<BlockInput>)
    requires LaidOut(buf, options, supers, infos, blocks)
    requires Sum(GroupCounts(SupersOf(supers))) == |infos| && Sum(SuperBlockCounts(SupersOf(supers))) == |blocks|
    requires Sum(BlockCounts(infos)) == |blocks|
    ensures OptionsFit(options)
    ensures var header := HeaderOf(OptionsAsRead(options), |supers|, |infos|, |blocks|);
            && MapSize(header) == |buf|
            && ParseSupers(header, buf) == Success(SupersOf(supers)) && CheckSupers(header, SupersOf(supers)).None?
            && ParseGroups(header, buf) == Success(GroupsOf(infos)) && CheckGroups(header, GroupsOf(infos)).None?
            && ParseRecords(buf, RecordsStart(header), |blocks|) == Success(RecordsOf(blocks))
  {
    hide FixedHeader, RegionParts, RegionsAsRead, FixedFits, RecordTable, GroupTable, SuperTable, Sum;
    LaidOutFits(buf, options, supers, infos, blocks);
    var header := HeaderOf(OptionsAsRead(options), |supers|, |infos|, |blocks|);
    SupersRoundTrip(buf, header.headerLen, supers);
    GroupsRoundTrip(buf, GroupTableStart(header), infos);
    RecordsRoundTrip(buf, RecordsStart(header), blocks);
    assert GroupBlockCounts(GroupsOf(infos)) == BlockCounts(infos);
  }

  /** What the decoder checks beyond the format: counts that fit the file, the size limits, the expected file, no empty block. */
  ghost predicate Acceptable(header: Header, blocks: seq<BlockInput>, expectedFileSize: Option<int>, maxSize: Option<int>) {
    && |blocks| <= header.fileSize
    && MapSize(header) <= SizeLimit(maxSize)
    && (expectedFileSize.Some? ==> expectedFileSize.value == header.fileSize)
    && forall k :: 0 <= k < |blocks| ==> blocks[k].size != 0
  }

  /** What went in: the header's fields as read back, the two index levels and one record per block, in order. */
  ghost function ExpectedMap(h: bytes -> Hash8, blocks: seq<BlockInput>, options: EncodeOptions): BlockMap
    requires SizesFit(blocks) && OptionsFit(options)
  {
    var forced := Forced(options.regions);
    var infos := GroupInfos(h, blocks, forced);
    var supers := SuperInfos(h, infos, forced);
    BlockMap(HeaderOf(OptionsAsRead(options), |supers|, |infos|, |blocks|), SupersOf(supers), GroupsOf(infos), RecordsOf(blocks))
  }

  lemma EncodedIsLaidOut(h: bytes -> Hash8, blocks: seq<BlockInput>, options: EncodeOptions)
    requires Encode(h, blocks, options).Success?
    ensures SizesFit(blocks) && OptionsFit(options)
    ensures var infos := GroupInfos(h, blocks, Forced(options.regions));
            LaidOut(Encode(h, blocks, options).value, options, SuperInfos(h, infos, Forced(options.regions)), infos, blocks)
  {
    var forced := Forced(options.regions);
    var infos := GroupInfos(h, blocks, forced);
    Layout(Encode(h, blocks, options).value, options, SuperInfos(h, infos, forced), infos, blocks);
  }

  /** Decoding a laid-out map whose counts agree. */
  lemma DecodeLaidOut(buf: bytes, options: EncodeOptions, supers: seq<SuperInfo>, infos: seq<GroupInfo>, blocks: seq<BlockInput>,
                      expectedFileSize: Option<int>, maxSize: Option<int>)
    requires LaidOut(buf, options, supers, infos, blocks)
    requires Sum(GroupCounts(SupersOf(supers))) == |infos| && Sum(SuperBlockCounts(SupersOf(supers))) == |blocks|
    requires Sum(BlockCounts(infos)) == |blocks|
    requires |supers| <= |infos| <= |blocks|
    ensures OptionsFit(options)
    ensures var r := Decode(buf, expectedFileSize, maxSize);
            var header := HeaderOf(OptionsAsRead(options), |supers|, |infos|, |blocks|);
            && (r.Success? <==> Acceptable(header, blocks, expectedFileSize, maxSize))
            && (r.Success? ==> r.value == BlockMap(header, SupersOf(supers), GroupsOf(infos), RecordsOf(blocks)))
  {
    hide ParseHeader, ParseSupers, ParseGroups, ParseRecords, CheckSupers, CheckGroups, SupersOf, GroupsOf, RecordsOf, SizeLimit, LaidOut, MapSize, RegionsAsRead, OptionsFit, SizesFit;
    LaidOutFits(buf, options, supers, infos, blocks);
    HeaderRoundTrip(buf, options, supers, infos, blocks);
    TablesRoundTrip(buf, options, supers, infos, blocks);
    EmptyBlocks(blocks);
  }

  /**
   Decoding an encoded map succeeds exactly when the map is acceptable, and then returns exactly what was encoded:
   for every list of blocks and every header the encoder takes.
   */
  lemma DecodeEncode(h: bytes -> Hash8, blocks: seq<BlockInput>, options: EncodeOptions, expectedFileSize: Option<int>, maxSize: Option<int>)
    requires Encode(h, blocks, options).Success?
    ensures SizesFit(blocks) && OptionsFit(options)
    ensures var r := Decode(Encode(h, blocks, options).value, expectedFileSize, maxSize);
            var expected := ExpectedMap(h, blocks, options);
            && (r.Success? <==> Acceptable(expected.header, blocks, expectedFileSize, maxSize))
            && (r.Success? ==> r.value == expected)
  {
    EncodedIsLaidOut(h, blocks, options);
    var forced := Forced(options.regions);
    var infos := GroupInfos(h, blocks, forced);
    GroupsCoverBlocks(h, blocks, forced);
    SupersCoverGroups(h, infos, forced);
    DecodeLaidOut(Encode(h, blocks, options).value, options, SuperInfos(h, infos, forced), infos, blocks, expectedFileSize, maxSize);
  }

  /**
   The parsed header of an encoded map equals the encoded fields exactly when the blocks are not more than the bytes of
   the file and every 64-bit field is a number JavaScript can hold.
   */
  lemma HeaderReadBackIff(h: bytes -> Hash8, blocks: seq<BlockInput>, options: EncodeOptions)
    requires Encode(h, blocks, options).Success?
    ensures SizesFit(blocks)
    ensures var forced := Forced(options.regions);
            ParseHeader(Encode(h, blocks, options).value)
            == Success(HeaderOf(options, SuperCount(h, blocks, forced), GroupCount(blocks, forced), |blocks|))
            <==> |blocks| <= options.fileSize && OptionsAreJs(options)
  {
    hide Encode, ParseHeader, GroupInfos, SuperInfos, Forced, LaidOut, OptionsAreJs, OptionsFit, RegionsAsRead;
    EncodedIsLaidOut(h, blocks, options);
    var forced := Forced(options.regions);
    var infos := GroupInfos(h, blocks, forced);
    GroupsCoverBlocks(h, blocks, forced);
    SupersCoverGroups(h, infos, forced);
    HeaderRoundTrip(Encode(h, blocks, options).value, options, SuperInfos(h, infos, forced), infos, blocks);
    ReadUnchangedIff(options);
  }

  /** In particular no header with fields of at most 2^53 changes. */
  lemma SafeHeaderIsReadBack(h: bytes -> Hash8, blocks: seq<BlockInput>, options: EncodeOptions)
    requires Encode(h, blocks, options).Success? && |blocks| <= options.fileSize <= TWO_POW_53
    requires forall k :: 0 <= k < |options.regions| ==> options.regions[k].offset <= TWO_POW_53 && options.regions[k].size <= TWO_POW_53
    ensures SizesFit(blocks)
    ensures var forced := Forced(options.regions);
            ParseHeader(Encode(h, blocks, options).value)
            == Success(HeaderOf(options, SuperCount(h, blocks, forced), GroupCount(blocks, forced), |blocks|))
  {
    hide ParseHeader, GroupInfos, SuperInfos, Forced, IsJsInteger, HeaderBytes, IndexBytes;
    HeaderReadBackIff(h, blocks, options);
    SafeIntegersAreExact(options.fileSize);
    forall k | 0 <= k < |options.regions| ensures IsJsInteger(options.regions[k].offset) && IsJsInteger(options.regions[k].size) {
      assert RegionFits(options.regions[k]);
      SafeIntegersAreExact(options.regions[k].offset);
      SafeIntegersAreExact(options.regions[k].size);
    }
  }

  /** A file of 2^53 + 1 bytes and no blocks: its header is read as that of a file of 2^53 bytes. */
  lemma LargeFileSizeIsRead(h: bytes -> Hash8)
    ensures var options := EncodeOptions(TWO_POW_53 + 1, Chunker(0, 0, 0), []);
            var encoded := Encode(h, [], options);
            && encoded.Success?
            && ParseHeader(encoded.value) == Success(Header(VERSION, TWO_POW_53, 0, 0, 0, HEADER_FIXED_SIZE, Chunker(0, 0, 0), []))
  {
    Pow256Values();
    var options := EncodeOptions(TWO_POW_53 + 1, Chunker(0, 0, 0), []);
    assert SuperCount(h, [], Forced([])) == 0 && GroupCount([], Forced([])) == 0;
    EncodedIsLaidOut(h, [], options);
    var forced := Forced(options.regions);
    var infos := GroupInfos(h, [], forced);
    HeaderRoundTrip(Encode(h, [], options).value, options, SuperInfos(h, infos, forced), infos, []);
    UnsafeIntegerRounds();
  }

  /** In particular the records are those of the blocks. */
  lemma RecordsSurvive(h: bytes -> Hash8, blocks: seq<BlockInput>, options: EncodeOptions, expectedFileSize: Option<int>, maxSize: Option<int>)
    requires Encode(h, blocks, options).Success?
    requires Decode(Encode(h, blocks, options).value, expectedFileSize, maxSize).Success?
    ensures SizesFit(blocks)
    ensures Decode(Encode(h, blocks, options).value, expectedFileSize, maxSize).value.records == RecordsOf(blocks)
  {
    hide Encode, Decode, SizesFit, OptionsFit, OptionsAsRead, GroupInfos, SuperInfos, SupersOf, GroupsOf, RecordsOf, HeaderOf, Forced, Acceptable;
    DecodeEncode(h, blocks, options, expectedFileSize, maxSize);
  }

  lemma EmptyBlocks(blocks: seq<BlockInput>)
    requires SizesFit(blocks)
    ensures HasEmptyBlock(RecordsOf(blocks)) <==> exists k :: 0 <= k < |blocks| && blocks[k].size == 0
  {
    forall k | 0 <= k < |blocks| ensures RecordsOf(blocks)[k].size == blocks[k].size {
    }
  }
}
