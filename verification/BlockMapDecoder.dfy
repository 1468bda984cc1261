/** The validating decoder: header checks before table checks before records, every error it throws, and its loops. */
module BlockMapDecoder {
  import opened BlockMapV3
  import opened Bytes
  import opened Seqs
  import opened Wrappers

  datatype DecodeError =
    | BadMagic
    | UnsupportedVersion
    | UnsupportedHashLength
    | InconsistentHeaderLength
    | TruncatedHeader
    | InconsistentCounts
    | WrongFileSize
    | MapTooLarge
    | TruncatedMap
    | WrongMapSize
    | TruncatedSupers
    | TruncatedGroups
    | TruncatedRecords
    | EmptySuper
    | SuperCountsDoNotSum
    | EmptyGroup
    | GroupCountsDoNotSum
    | EmptyBlock

  /** An unsigned little-endian field. */
  function Field(buf: bytes, at: nat, width: nat): (n: nat)
    requires at + width <= |buf|
  {
    FromLE(buf[at..at + width])
  }

  // ---- header

  function ChunkerAt(buf: bytes, at: nat): Chunker
    requires at + 12 <= |buf|
  {
    Chunker(Field(buf, at, 4), Field(buf, at + 4, 4), Field(buf, at + 8, 4))
  }

  function RegionAt(buf: bytes, at: nat): Region
    requires at + REGION_SIZE <= |buf|
  {
    Region(ToNumber(Field(buf, at, 8)), ToNumber(Field(buf, at + 8, 8)), ChunkerAt(buf, at + 16))
  }

  function RegionsOf(buf: bytes, count: nat): (regions: seq<Region>)
    requires HeaderLength(count) <= |buf|
    ensures |regions| == count
  {
    seq(count, i requires 0 <= i < count && HeaderLength(count) <= |buf| => RegionAt(buf, HeaderLength(i)))
  }

  /** The checks up to the region table: None, or the error. */
  function HeaderError(buf: bytes): Option<DecodeError> {
    if |buf| < HEADER_FIXED_SIZE || buf[..4] != MAGIC then Some(BadMagic)
    else if buf[4] != VERSION then Some(UnsupportedVersion)
    else if buf[5] != HASH_LEN || buf[6] != HASH_LEN then Some(UnsupportedHashLength)
    else if Field(buf, 24, 4) != HeaderLength(Field(buf, 40, 2)) then Some(InconsistentHeaderLength)
    else if |buf| < Field(buf, 24, 4) then Some(TruncatedHeader)
    else None
  }

  function ParseHeader(buf: bytes): Result<Header, DecodeError> {
    var error := HeaderError(buf);
    if error.Some? then Failure(error.value)
    else
      var header := Header(buf[4], ToNumber(Field(buf, 8, 8)), Field(buf, 42, 4), Field(buf, 16, 4), Field(buf, 20, 4), Field(buf, 24, 4),
                           ChunkerAt(buf, 28), RegionsOf(buf, Field(buf, 40, 2)));
      if header.blockCount > header.fileSize || header.groupCount > header.blockCount || header.superCount > header.groupCount
      then Failure(InconsistentCounts)
      else Success(header)
  }

  method ParseBlockMapV3Header(buf: bytes) returns (r: Result<Header, DecodeError>)
    ensures r == ParseHeader(buf)
  {
    if |buf| < HEADER_FIXED_SIZE || buf[..4] != MAGIC {
      return Failure(BadMagic);
    }
    if buf[4] != VERSION {
      return Failure(UnsupportedVersion);
    }
    if buf[5] != HASH_LEN || buf[6] != HASH_LEN {
      return Failure(UnsupportedHashLength);
    }
    var regionCount := Field(buf, 40, 2);
    var headerLen := Field(buf, 24, 4);
    if headerLen != HeaderLength(regionCount) {
      return Failure(InconsistentHeaderLength);
    }
    if |buf| < headerLen {
      return Failure(TruncatedHeader);
    }
    var regions := [];
    var p := HEADER_FIXED_SIZE;
    for i := 0 to regionCount
      invariant p == HeaderLength(i)
      invariant regions == RegionsOf(buf, regionCount)[..i]
    {
      regions := regions + [RegionAt(buf, p)];
      p := p + REGION_SIZE;
    }
    var fileSize := ToNumber(Field(buf, 8, 8));
    var superCount, groupCount, blockCount := Field(buf, 42, 4), Field(buf, 16, 4), Field(buf, 20, 4);
    if blockCount > fileSize || groupCount > blockCount || superCount > groupCount {
      return Failure(InconsistentCounts);
    }
    assert regions == RegionsOf(buf, regionCount);
    r := Success(Header(buf[4], fileSize, superCount, groupCount, blockCount, headerLen, ChunkerAt(buf, 28), regions));
  }

  function GroupTableStart(header: Header): nat {
    header.headerLen + header.superCount * SUPER_SIZE
  }

  function RecordsStart(header: Header): nat {
    GroupTableStart(header) + header.groupCount * GROUP_SIZE
  }

  function MapSize(header: Header): nat {
    RecordsStart(header) + header.blockCount * RECORD_SIZE
  }

  function SizeLimit(maxSize: Option<int>): (limit: int)
    ensures 0 < limit <= MAX_BLOCK_MAP_V3_SIZE
  {
    if maxSize.Some? && 0 < maxSize.value < MAX_BLOCK_MAP_V3_SIZE then maxSize.value else MAX_BLOCK_MAP_V3_SIZE
  }

  /** What checkBlockMapV3Header rejects, in its order. */
  function CheckHeader(header: Header, expectedFileSize: Option<int>, length: Option<nat>, maxSize: Option<int>): Option<DecodeError> {
    if expectedFileSize.Some? && header.fileSize != expectedFileSize.value then Some(WrongFileSize)
    else if MapSize(header) > SizeLimit(maxSize) then Some(MapTooLarge)
    else if length.Some? && length.value < MapSize(header) then Some(TruncatedMap)
    else if length.Some? && length.value != MapSize(header) then Some(WrongMapSize)
    else None
  }

  // ---- tables

  function SuperAt(buf: bytes, at: nat): Super
    requires at + SUPER_SIZE <= |buf|
  {
    Super(Hex(buf[at..at + HASH_LEN]), Field(buf, at + 8, 4), Field(buf, at + 12, 2))
  }

  function GroupAt(buf: bytes, at: nat): Group
    requires at + GROUP_SIZE <= |buf|
  {
    Group(Hex(buf[at..at + HASH_LEN]), Field(buf, at + 8, 4), Field(buf, at + 12, 2))
  }

  function RecordAt(buf: bytes, at: nat): Record
    requires at + RECORD_SIZE <= |buf|
  {
    Record(Hex(buf[at..at + HASH_LEN]), Field(buf, at + HASH_LEN, 2))
  }

  function SupersAt(buf: bytes, at: nat, count: nat): (supers: seq<Super>)
    requires at + count * SUPER_SIZE <= |buf|
    ensures |supers| == count
  {
    seq(count, i requires 0 <= i < count && at + count * SUPER_SIZE <= |buf| => SuperAt(buf, at + i * SUPER_SIZE))
  }

  function GroupsAt(buf: bytes, at: nat, count: nat): (groups: seq<Group>)
    requires at + count * GROUP_SIZE <= |buf|
    ensures |groups| == count
  {
    seq(count, i requires 0 <= i < count && at + count * GROUP_SIZE <= |buf| => GroupAt(buf, at + i * GROUP_SIZE))
  }

  function RecordsAt(buf: bytes, at: nat, count: nat): (records: seq<Record>)
    requires at + count * RECORD_SIZE <= |buf|
    ensures |records| == count
  {
    seq(count, i requires 0 <= i < count && at + count * RECORD_SIZE <= |buf| => RecordAt(buf, at + i * RECORD_SIZE))
  }

  function ParseSupers(header: Header, buf: bytes): Result<seq<Super>, DecodeError> {
    if |buf| < GroupTableStart(header) then Failure(TruncatedSupers)
    else Success(SupersAt(buf, header.headerLen, header.superCount))
  }

  function ParseGroups(header: Header, buf: bytes): Result<seq<Group>, DecodeError> {
    if |buf| < RecordsStart(header) then Failure(TruncatedGroups)
    else Success(GroupsAt(buf, GroupTableStart(header), header.groupCount))
  }

  function ParseRecords(buf: bytes, offset: nat, count: nat): Result<seq<Record>, DecodeError> {
    if |buf| < offset + count * RECORD_SIZE then Failure(TruncatedRecords)
    else Success(RecordsAt(buf, offset, count))
  }

  method ParseBlockMapV3Supers(header: Header, buf: bytes) returns (r: Result<seq<Super>, DecodeError>)
    ensures r == ParseSupers(header, buf)
  {
    var end := GroupTableStart(header);
    if |buf| < end {
      return Failure(TruncatedSupers);
    }
    var supers := [];
    var s := header.headerLen;
    while s < end
      invariant |supers| <= header.superCount && s == header.headerLen + |supers| * SUPER_SIZE
      invariant supers == SupersAt(buf, header.headerLen, header.superCount)[..|supers|]
    {
      supers := supers + [SuperAt(buf, s)];
      s := s + SUPER_SIZE;
    }
    assert supers == SupersAt(buf, header.headerLen, header.superCount);
    r := Success(supers);
  }

  method ParseBlockMapV3Groups(header: Header, buf: bytes) returns (r: Result<seq<Group>, DecodeError>)
    ensures r == ParseGroups(header, buf)
  {
    var start, end := GroupTableStart(header), RecordsStart(header);
    if |buf| < end {
      return Failure(TruncatedGroups);
    }
    var groups := [];
    var g := start;
    while g < end
      invariant |groups| <= header.groupCount && g == start + |groups| * GROUP_SIZE
      invariant groups == GroupsAt(buf, start, header.groupCount)[..|groups|]
    {
      groups := groups + [GroupAt(buf, g)];
      g := g + GROUP_SIZE;
    }
    assert groups == GroupsAt(buf, start, header.groupCount);
    r := Success(groups);
  }

  method ParseBlockMapV3Records(buf: bytes, offset: nat, count: nat) returns (r: Result<seq<Record>, DecodeError>)
    ensures r == ParseRecords(buf, offset, count)
  {
    if |buf| < offset + count * RECORD_SIZE {
      return Failure(TruncatedRecords);
    }
    var records := [];
    var i, at := 0, offset;
    while i < count
      invariant i == |records| <= count && at == offset + i * RECORD_SIZE
      invariant records == RecordsAt(buf, offset, count)[..i]
    {
      records := records + [RecordAt(buf, at)];
      i, at := i + 1, at + RECORD_SIZE;
    }
    assert records == RecordsAt(buf, offset, count);
    r := Success(records);
  }

  // ---- table checks

  function GroupCounts(supers: seq<Super>): (s: seq<nat>)
    ensures |s| == |supers|
  {
    seq(|supers|, k requires 0 <= k < |supers| => supers[k].groupCount)
  }

  function SuperBlockCounts(supers: seq<Super>): (s: seq<nat>)
    ensures |s| == |supers|
  {
    seq(|supers|, k requires 0 <= k < |supers| => supers[k].blockCount)
  }

  function GroupBlockCounts(groups: seq<Group>): (s: seq<nat>)
    ensures |s| == |groups|
  {
    seq(|groups|, k requires 0 <= k < |groups| => groups[k].blockCount)
  }

  function CheckSupers(header: Header, supers: seq<Super>): Option<DecodeError> {
    if exists k :: 0 <= k < |supers| && supers[k].groupCount == 0 then Some(EmptySuper)
    else if Sum(GroupCounts(supers)) != header.groupCount || Sum(SuperBlockCounts(supers)) != header.blockCount then Some(SuperCountsDoNotSum)
    else None
  }

  function CheckGroups(header: Header, groups: seq<Group>): Option<DecodeError> {
    if exists k :: 0 <= k < |groups| && groups[k].blockCount == 0 then Some(EmptyGroup)
    else if Sum(GroupBlockCounts(groups)) != header.blockCount then Some(GroupCountsDoNotSum)
    else None
  }

  method CheckBlockMapV3Supers(header: Header, supers: seq<Super>) returns (error: Option<DecodeError>)
    ensures error == CheckSupers(header, supers)
  {
    var groupsCounted, blocksCounted := 0, 0;
    for i := 0 to |supers|
      invariant forall k :: 0 <= k < i ==> supers[k].groupCount != 0
      invariant groupsCounted == Sum(GroupCounts(supers)[..i]) && blocksCounted == Sum(SuperBlockCounts(supers)[..i])
    {
      if supers[i].groupCount == 0 {
        return Some(EmptySuper);
      }
      SumStep(GroupCounts(supers), i);
      SumStep(SuperBlockCounts(supers), i);
      groupsCounted := groupsCounted + supers[i].groupCount;
      blocksCounted := blocksCounted + supers[i].blockCount;
    }
    assert GroupCounts(supers)[..|supers|] == GroupCounts(supers);
    assert SuperBlockCounts(supers)[..|supers|] == SuperBlockCounts(supers);
    error := if groupsCounted != header.groupCount || blocksCounted != header.blockCount then Some(SuperCountsDoNotSum) else None;
  }

  method CheckBlockMapV3Groups(header: Header, groups: seq<Group>) returns (error: Option<DecodeError>)
    ensures error == CheckGroups(header, groups)
  {
    var counted := 0;
    for i := 0 to |groups|
      invariant forall k :: 0 <= k < i ==> groups[k].blockCount != 0
      invariant counted == Sum(GroupBlockCounts(groups)[..i])
    {
      if groups[i].blockCount == 0 {
        return Some(EmptyGroup);
      }
      SumStep(GroupBlockCounts(groups), i);
      counted := counted + groups[i].blockCount;
    }
    assert GroupBlockCounts(groups)[..|groups|] == GroupBlockCounts(groups);
    error := if counted != header.blockCount then Some(GroupCountsDoNotSum) else None;
  }

  // ---- the whole map

  function Require(error: Option<DecodeError>): Result<(), DecodeError> {
    if error.Some? then Failure(error.value) else Success(())
  }

  predicate HasEmptyBlock(records: seq<Record>) {
    exists k :: 0 <= k < |records| && records[k].size == 0
  }

  function Decode(buf: bytes, expectedFileSize: Option<int>, maxSize: Option<int>): Result<BlockMap, DecodeError> {
    var header :- ParseHeader(buf);
    var _ :- Require(CheckHeader(header, expectedFileSize, Some(|buf|), maxSize));
    var supers :- ParseSupers(header, buf);
    var _ :- Require(CheckSupers(header, supers));
    var groups :- ParseGroups(header, buf);
    var _ :- Require(CheckGroups(header, groups));
    var records :- ParseRecords(buf, RecordsStart(header), header.blockCount);
    if HasEmptyBlock(records) then Failure(EmptyBlock) else Success(BlockMap(header, supers, groups, records))
  }

  method DecodeBlockMapV3(buf: bytes, expectedFileSize: Option<int>, maxSize: Option<int>) returns (r: Result<BlockMap, DecodeError>)
    ensures r == Decode(buf, expectedFileSize, maxSize)
  {
    var header :- ParseBlockMapV3Header(buf);
    var headerError := CheckHeader(header, expectedFileSize, Some(|buf|), maxSize);
    if headerError.Some? {
      return Failure(headerError.value);
    }
    var supers :- ParseBlockMapV3Supers(header, buf);
    var supersError := CheckBlockMapV3Supers(header, supers);
    if supersError.Some? {
      return Failure(supersError.value);
    }
    var groups :- ParseBlockMapV3Groups(header, buf);
    var groupsError := CheckBlockMapV3Groups(header, groups);
    if groupsError.Some? {
      return Failure(groupsError.value);
    }
    var records :- ParseBlockMapV3Records(buf, RecordsStart(header), header.blockCount);
    if HasEmptyBlock(records) {
      return Failure(EmptyBlock);
    }
    r := Success(BlockMap(header, supers, groups, records));
  }
}
