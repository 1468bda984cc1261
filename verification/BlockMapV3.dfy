/**
 The v3 block map: a header, a super-group table, a group table and the block records, all little-endian.
 This module holds the entities, the byte layout of each table entry and the tables an encoder must produce.
 The blake2b prefix is a parameter `h`: the first 8 bytes of the digest of a byte string.
 */
module BlockMapV3 {
  import opened Bytes
  import opened Grouping
  import opened Seqs
  import opened Wrappers

  const VERSION: nat := 2
  const HASH_LEN: nat := 8
  const SUPER_SIZE: nat := 16
  const GROUP_SIZE: nat := 16
  const RECORD_SIZE: nat := 10
  const REGION_SIZE: nat := 28
  const HEADER_FIXED_SIZE: nat := 46
  const MAX_BLOCK_MAP_V3_SIZE: nat := 128 * 1024 * 1024

  /** "EBB3". */
  const MAGIC: bytes := [0x45, 0x42, 0x42, 0x33]

  const GROUP_LIMITS := Limits(8, 128)
  const SUPER_LIMITS := Limits(4, 64)

  datatype Chunker = Chunker(min: int, avg: int, max: int)
  datatype Region = Region(offset: int, size: int, chunker: Chunker)
  datatype BlockInput = BlockInput(digest: bytes, size: int, offset: int)
  datatype EncodeOptions = EncodeOptions(fileSize: int, defaultChunker: Chunker, regions: seq<Region>)

  datatype Super = Super(hash: string, blockCount: nat, groupCount: nat)
  datatype Group = Group(hash: string, byteLength: nat, blockCount: nat)
  datatype Record = Record(hash: string, size: nat)
  datatype Header = Header(version: nat, fileSize: nat, superCount: nat, groupCount: nat, blockCount: nat, headerLen: nat,
                           defaultChunker: Chunker, regions: seq<Region>)
  datatype BlockMap = BlockMap(header: Header, supers: seq<Super>, groups: seq<Group>, records: seq<Record>)

  datatype EncodeError = BlockTooLarge(size: int) | RangeError

  // ---- table entries

  function RecordBytes(block: BlockInput): (b: bytes)
    requires FitsUnsigned(block.size, 2)
    ensures |b| == RECORD_SIZE
  {
    Prefix8(block.digest) + ToLE(block.size, 2)
  }

  /** The record keeps 8 bytes of the digest; a shorter digest leaves zeros behind. */
  function Prefix8(digest: bytes): (b: Hash8) {
    if |digest| >= HASH_LEN then digest[..HASH_LEN] else digest + Zeros(HASH_LEN - |digest|)
  }

  /** A super-group or group entry: hash, a 32-bit count, a 16-bit count and two reserved zero bytes. */
  function EntryBytes(hash: Hash8, wide: int, narrow: int): (b: bytes)
    requires FitsUnsigned(wide, 4) && FitsUnsigned(narrow, 2)
    ensures |b| == GROUP_SIZE
  {
    hash + ToLE(wide, 4) + ToLE(narrow, 2) + Zeros(2)
  }

  predicate ChunkerFits(c: Chunker) {
    FitsUnsigned(c.min, 4) && FitsUnsigned(c.avg, 4) && FitsUnsigned(c.max, 4)
  }

  function ChunkerBytes(c: Chunker): (b: bytes)
    requires ChunkerFits(c)
    ensures |b| == 12
  {
    ToLE(c.min, 4) + ToLE(c.avg, 4) + ToLE(c.max, 4)
  }

  predicate RegionFits(r: Region) {
    FitsUnsigned(r.offset, 8) && FitsUnsigned(r.size, 8) && ChunkerFits(r.chunker)
  }

  function RegionBytes(r: Region): (b: bytes)
    requires RegionFits(r)
    ensures |b| == REGION_SIZE
  {
    ToLE(r.offset, 8) + ToLE(r.size, 8) + ChunkerBytes(r.chunker)
  }

  // ---- what the encoder computes

  ghost predicate SizesFit(blocks: seq<BlockInput>) {
    forall k :: 0 <= k < |blocks| ==> FitsUnsigned(blocks[k].size, 2)
  }

  function Sizes(blocks: seq<BlockInput>): (s: seq<int>)
    ensures |s| == |blocks|
  {
    seq(|blocks|, k requires 0 <= k < |blocks| => blocks[k].size)
  }

  ghost function RecordParts(blocks: seq<BlockInput>): (parts: seq<bytes>)
    requires SizesFit(blocks)
    ensures |parts| == |blocks| && Uniform(parts, RECORD_SIZE)
  {
    seq(|blocks|, k requires 0 <= k < |blocks| && SizesFit(blocks) => RecordBytes(blocks[k]))
  }

  ghost function RecordTable(blocks: seq<BlockInput>): (b: bytes)
    requires SizesFit(blocks)
  {
    Concat(RecordParts(blocks))
  }

  /** Offsets a boundary is forced at: both edges of every region. */
  function Forced(regions: seq<Region>): set<int> {
    (set r | r in regions :: r.offset) + (set r | r in regions :: r.offset + r.size)
  }

  /** The low 5 bits of the last hash byte decide a cut between groups. */
  predicate IsGroupMarker(digest: bytes) {
    |digest| >= HASH_LEN && digest[HASH_LEN - 1] % 32 == 31
  }

  /** The low 4 bits decide a cut between super-groups. */
  predicate IsSuperMarker(hash: Hash8) {
    hash[HASH_LEN - 1] % 16 == 15
  }

  function BlockItems(blocks: seq<BlockInput>, forced: set<int>): (items: seq<Item>)
    ensures |items| == |blocks|
  {
    seq(|blocks|, k requires 0 <= k < |blocks| => Item(IsGroupMarker(blocks[k].digest), blocks[k].offset in forced))
  }

  function GroupRanges(blocks: seq<BlockInput>, forced: set<int>): (ranges: seq<Range>) {
    Groups(BlockItems(blocks, forced), GROUP_LIMITS)
  }

  /** One group: the hash of its records, what it covers and where it starts. */
  datatype GroupInfo = GroupInfo(hash: Hash8, byteLength: int, blockCount: nat, offset: int)

  ghost function GroupInfoOf(h: bytes -> Hash8, members: seq<BlockInput>): (g: GroupInfo)
    requires members != [] && SizesFit(members)
  {
    GroupInfo(h(RecordTable(members)), Sum(Sizes(members)), |members|, members[0].offset)
  }

  /** Ranges that lie in a list of `n` elements. */
  ghost predicate RangesFit(ranges: seq<Range>, n: nat) {
    forall k :: 0 <= k < |ranges| ==> ranges[k].start < ranges[k].end <= n
  }

  ghost function InfosOfRanges(h: bytes -> Hash8, blocks: seq<BlockInput>, ranges: seq<Range>): (infos: seq<GroupInfo>)
    requires SizesFit(blocks) && RangesFit(ranges, |blocks|)
    ensures |infos| == |ranges|
  {
    seq(|ranges|, k requires 0 <= k < |ranges| && SizesFit(blocks) && RangesFit(ranges, |blocks|) =>
      GroupInfoOf(h, blocks[ranges[k].start..ranges[k].end]))
  }

  /** Group entries fit their fields: at most 128 blocks of at most 65535 bytes. */
  ghost predicate InfosFit(infos: seq<GroupInfo>) {
    forall k :: 0 <= k < |infos| ==> 0 <= infos[k].byteLength <= 128 * 0xffff && 1 <= infos[k].blockCount <= 128
  }

  lemma GroupInfoFits(h: bytes -> Hash8, members: seq<BlockInput>)
    requires 1 <= |members| <= 128 && SizesFit(members)
    ensures InfosFit([GroupInfoOf(h, members)])
  {
    Pow256Values();
    SumAtLeast(Sizes(members), 0);
    SumAtMost(Sizes(members), 0xffff);
  }

  /** Ranges of at most `most` elements. */
  ghost predicate AtMost(ranges: seq<Range>, most: nat) {
    forall k :: 0 <= k < |ranges| ==> ranges[k].end - ranges[k].start <= most
  }

  lemma InfosOfRangesFit(h: bytes -> Hash8, blocks: seq<BlockInput>, ranges: seq<Range>)
    requires SizesFit(blocks) && RangesFit(ranges, |blocks|) && AtMost(ranges, 128)
    ensures InfosFit(InfosOfRanges(h, blocks, ranges))
  {
    var infos := InfosOfRanges(h, blocks, ranges);
    forall k | 0 <= k < |infos|
      ensures 0 <= infos[k].byteLength <= 128 * 0xffff && 1 <= infos[k].blockCount <= 128
    {
      GroupInfoFits(h, blocks[ranges[k].start..ranges[k].end]);
      assert InfosFit([infos[k]]) && [infos[k]][0] == infos[k];
    }
  }

  lemma GroupRangesFit(blocks: seq<BlockInput>, forced: set<int>)
    ensures RangesFit(GroupRanges(blocks, forced), |blocks|) && AtMost(GroupRanges(blocks, forced), 128)
  {
    var items := BlockItems(blocks, forced);
    GroupsAreGreedy(items, GROUP_LIMITS);
    forall k | 0 <= k < |Groups(items, GROUP_LIMITS)|
      ensures Groups(items, GROUP_LIMITS)[k].end - Groups(items, GROUP_LIMITS)[k].start <= 128
    {
      GroupSizes(items, GROUP_LIMITS, k);
    }
  }

  /** The groups of a block list; their entries always fit. */
  ghost function GroupInfos(h: bytes -> Hash8, blocks: seq<BlockInput>, forced: set<int>): (infos: seq<GroupInfo>)
    requires SizesFit(blocks)
    ensures |infos| == |GroupRanges(blocks, forced)| && InfosFit(infos)
  {
    GroupRangesFit(blocks, forced);
    InfosOfRangesFit(h, blocks, GroupRanges(blocks, forced));
    InfosOfRanges(h, blocks, GroupRanges(blocks, forced))
  }

  ghost function GroupParts(infos: seq<GroupInfo>): (parts: seq<bytes>)
    requires InfosFit(infos)
    ensures |parts| == |infos| && Uniform(parts, GROUP_SIZE)
  {
    Pow256Values();
    seq(|infos|, k requires 0 <= k < |infos| && InfosFit(infos) => (Pow256Values(); EntryBytes(infos[k].hash, infos[k].byteLength, infos[k].blockCount)))
  }

  ghost function GroupTable(infos: seq<GroupInfo>): (b: bytes)
    requires InfosFit(infos)
  {
    Concat(GroupParts(infos))
  }

  function GroupItems(infos: seq<GroupInfo>, forced: set<int>): (items: seq<Item>)
    ensures |items| == |infos|
  {
    seq(|infos|, k requires 0 <= k < |infos| => Item(IsSuperMarker(infos[k].hash), infos[k].offset in forced))
  }

  function SuperRanges(infos: seq<GroupInfo>, forced: set<int>): (ranges: seq<Range>) {
    Groups(GroupItems(infos, forced), SUPER_LIMITS)
  }

  datatype SuperInfo = SuperInfo(hash: Hash8, blockCount: nat, groupCount: nat)

  function BlockCounts(infos: seq<GroupInfo>): (s: seq<int>)
    ensures |s| == |infos|
  {
    seq(|infos|, k requires 0 <= k < |infos| => infos[k].blockCount)
  }

  ghost function SuperInfoOf(h: bytes -> Hash8, members: seq<GroupInfo>): (s: SuperInfo)
    requires members != [] && InfosFit(members)
  {
    SumAtLeast(BlockCounts(members), 0);
    SuperInfo(h(GroupTable(members)), Sum(BlockCounts(members)), |members|)
  }

  ghost function SupersOfRanges(h: bytes -> Hash8, infos: seq<GroupInfo>, ranges: seq<Range>): (supers: seq<SuperInfo>)
    requires InfosFit(infos) && RangesFit(ranges, |infos|)
    ensures |supers| == |ranges|
  {
    seq(|ranges|, k requires 0 <= k < |ranges| && InfosFit(infos) && RangesFit(ranges, |infos|) =>
      SuperInfoOf(h, infos[ranges[k].start..ranges[k].end]))
  }

  ghost predicate SupersFit(supers: seq<SuperInfo>) {
    forall k :: 0 <= k < |supers| ==> 1 <= supers[k].blockCount <= 64 * 128 && 1 <= supers[k].groupCount <= 64
  }

  lemma SuperInfoFits(h: bytes -> Hash8, members: seq<GroupInfo>)
    requires 1 <= |members| <= 64 && InfosFit(members)
    ensures SupersFit([SuperInfoOf(h, members)])
  {
    SumAtLeast(BlockCounts(members), 1);
    SumAtMost(BlockCounts(members), 128);
  }

  lemma SupersOfRangesFit(h: bytes -> Hash8, infos: seq<GroupInfo>, ranges: seq<Range>)
    requires InfosFit(infos) && RangesFit(ranges, |infos|) && AtMost(ranges, 64)
    ensures SupersFit(SupersOfRanges(h, infos, ranges))
  {
    var supers := SupersOfRanges(h, infos, ranges);
    forall k | 0 <= k < |supers|
      ensures 1 <= supers[k].blockCount <= 64 * 128 && 1 <= supers[k].groupCount <= 64
    {
      SuperInfoFits(h, infos[ranges[k].start..ranges[k].end]);
      assert SupersFit([supers[k]]) && [supers[k]][0] == supers[k];
    }
  }

  lemma SuperRangesFit(infos: seq<GroupInfo>, forced: set<int>)
    ensures RangesFit(SuperRanges(infos, forced), |infos|) && AtMost(SuperRanges(infos, forced), 64)
  {
    var items := GroupItems(infos, forced);
    GroupsAreGreedy(items, SUPER_LIMITS);
    forall k | 0 <= k < |Groups(items, SUPER_LIMITS)|
      ensures Groups(items, SUPER_LIMITS)[k].end - Groups(items, SUPER_LIMITS)[k].start <= 64
    {
      GroupSizes(items, SUPER_LIMITS, k);
    }
  }

  /** The super-groups of a group list; their entries always fit. */
  ghost function SuperInfos(h: bytes -> Hash8, infos: seq<GroupInfo>, forced: set<int>): (supers: seq<SuperInfo>)
    requires InfosFit(infos)
    ensures |supers| == |SuperRanges(infos, forced)| && SupersFit(supers)
  {
    SuperRangesFit(infos, forced);
    SupersOfRangesFit(h, infos, SuperRanges(infos, forced));
    SupersOfRanges(h, infos, SuperRanges(infos, forced))
  }

  ghost function SuperParts(supers: seq<SuperInfo>): (parts: seq<bytes>)
    requires SupersFit(supers)
    ensures |parts| == |supers| && Uniform(parts, SUPER_SIZE)
  {
    Pow256Values();
    seq(|supers|, k requires 0 <= k < |supers| && SupersFit(supers) => (Pow256Values(); EntryBytes(supers[k].hash, supers[k].blockCount, supers[k].groupCount)))
  }

  ghost function SuperTable(supers: seq<SuperInfo>): (b: bytes)
    requires SupersFit(supers)
  {
    Concat(SuperParts(supers))
  }

  /** A run of records hashes like the records of those blocks alone. */
  lemma RecordTableSlice(blocks: seq<BlockInput>, a: nat, b: nat)
    requires SizesFit(blocks) && a <= b <= |blocks|
    ensures |RecordTable(blocks)| == RECORD_SIZE * |blocks|
    ensures RecordTable(blocks)[RECORD_SIZE * a..RECORD_SIZE * b] == RecordTable(blocks[a..b])
  {
    ConcatLength(RecordParts(blocks), RECORD_SIZE);
    ConcatUniformSlice(RecordParts(blocks), RECORD_SIZE, a, b);
    assert RecordParts(blocks)[a..b] == RecordParts(blocks[a..b]);
  }

  lemma GroupTableSlice(infos: seq<GroupInfo>, a: nat, b: nat)
    requires InfosFit(infos) && a <= b <= |infos|
    ensures |GroupTable(infos)| == GROUP_SIZE * |infos|
    ensures GroupTable(infos)[GROUP_SIZE * a..GROUP_SIZE * b] == GroupTable(infos[a..b])
  {
    ConcatLength(GroupParts(infos), GROUP_SIZE);
    ConcatUniformSlice(GroupParts(infos), GROUP_SIZE, a, b);
    assert GroupParts(infos)[a..b] == GroupParts(infos[a..b]);
  }

  // ---- the whole map

  /** The fixed fields' limits: a 64-bit file size, 32-bit counts and chunker parameters, at most 65535 regions. */
  predicate FixedFits(options: EncodeOptions, supers: nat, groups: nat, blocks: nat) {
    && FitsUnsigned(options.fileSize, 8) && ChunkerFits(options.defaultChunker)
    && FitsUnsigned(|options.regions|, 2)
    && FitsUnsigned(supers, 4) && FitsUnsigned(groups, 4) && FitsUnsigned(blocks, 4)
  }

  ghost predicate HeaderFits(options: EncodeOptions, supers: nat, groups: nat, blocks: nat) {
    && FixedFits(options, supers, groups, blocks)
    && forall k :: 0 <= k < |options.regions| ==> RegionFits(options.regions[k])
  }

  ghost function RegionParts(regions: seq<Region>): (parts: seq<bytes>)
    requires forall k :: 0 <= k < |regions| ==> RegionFits(regions[k])
    ensures |parts| == |regions| && Uniform(parts, REGION_SIZE)
  {
    seq(|regions|, k requires 0 <= k < |regions| && RegionFits(regions[k]) => RegionBytes(regions[k]))
  }

  function HeaderLength(regions: nat): nat {
    HEADER_FIXED_SIZE + REGION_SIZE * regions
  }

  /** The 46 fixed bytes. */
  ghost function FixedHeader(options: EncodeOptions, supers: nat, groups: nat, blocks: nat): (b: bytes)
    requires FixedFits(options, supers, groups, blocks)
    ensures |b| == HEADER_FIXED_SIZE
  {
    Pow256Values();
    MAGIC + [VERSION, HASH_LEN, HASH_LEN, 0] + ToLE(options.fileSize, 8)
    + ToLE(groups, 4) + ToLE(blocks, 4) + ToLE(HeaderLength(|options.regions|), 4)
    + ChunkerBytes(options.defaultChunker)
    + ToLE(|options.regions|, 2) + ToLE(supers, 4)
  }

  ghost function HeaderBytes(options: EncodeOptions, supers: nat, groups: nat, blocks: nat): (b: bytes)
    requires HeaderFits(options, supers, groups, blocks)
  {
    FixedHeader(options, supers, groups, blocks) + Concat(RegionParts(options.regions))
  }

  /** The first error the record loop throws: a block over 65535 bytes, or a negative size. */
  function FirstSizeError(blocks: seq<BlockInput>): (e: Option<EncodeError>)
    ensures e.None? <==> SizesFit(blocks)
  {
    Pow256Values();
    if blocks == [] then None
    else if blocks[0].size > 0xffff then Some(BlockTooLarge(blocks[0].size))
    else if blocks[0].size < 0 then Some(RangeError)
    else FirstSizeError(blocks[1..])
  }

  /** Everything behind the header. */
  ghost function IndexBytes(h: bytes -> Hash8, blocks: seq<BlockInput>, forced: set<int>): (b: bytes)
    requires SizesFit(blocks)
  {
    var infos := GroupInfos(h, blocks, forced);
    var supers := SuperInfos(h, infos, forced);
    SuperTable(supers) + GroupTable(infos) + RecordTable(blocks)
  }

  ghost function GroupCount(blocks: seq<BlockInput>, forced: set<int>): nat {
    |GroupRanges(blocks, forced)|
  }

  ghost function SuperCount(h: bytes -> Hash8, blocks: seq<BlockInput>, forced: set<int>): nat
    requires SizesFit(blocks)
  {
    |SuperRanges(GroupInfos(h, blocks, forced), forced)|
  }

  /** `tables` are the three tables of these blocks, with that many super-groups and groups. */
  ghost predicate IsIndexOf(h: bytes -> Hash8, blocks: seq<BlockInput>, forced: set<int>, tables: bytes, supers: nat, groups: nat)
    requires SizesFit(blocks)
  {
    && tables == IndexBytes(h, blocks, forced)
    && supers == SuperCount(h, blocks, forced) && groups == GroupCount(blocks, forced)
  }

  /** The map of `blocks`, or the error the encoder throws. */
  ghost function Encode(h: bytes -> Hash8, blocks: seq<BlockInput>, options: EncodeOptions): (r: Result<bytes, EncodeError>) {
    var error := FirstSizeError(blocks);
    if error.Some? then Failure(error.value)
    else
      var forced := Forced(options.regions);
      var supers, groups := SuperCount(h, blocks, forced), GroupCount(blocks, forced);
      if HeaderFits(options, supers, groups, |blocks|) then
        Success(HeaderBytes(options, supers, groups, |blocks|) + IndexBytes(h, blocks, forced))
      else
        Failure(RangeError)
  }
}
