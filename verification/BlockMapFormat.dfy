/**
 The v3 format on the bytes, with little-endian numbers spelled out: what lies where in an encoded map, and exactly which
 byte strings the decoder accepts.
 */
module BlockMapFormat {
  import opened BlockMapDecoder
  import opened BlockMapRoundTrip
  import opened BlockMapV3
  import opened Bytes
  import opened Grouping
  import opened Seqs
  import opened Wrappers

  // ---- little-endian numbers

  function Number2(buf: bytes, at: nat): nat
    requires at + 2 <= |buf|
  {
    var low: int, high: int := buf[at], buf[at + 1];
    low + 0x100 * high
  }

  function Number4(buf: bytes, at: nat): nat
    requires at + 4 <= |buf|
  {
    Number2(buf, at) + 0x1_0000 * Number2(buf, at + 2)
  }

  function Number8(buf: bytes, at: nat): nat
    requires at + 8 <= |buf|
  {
    Number4(buf, at) + 0x1_0000_0000 * Number4(buf, at + 4)
  }

  lemma Field2(buf: bytes, at: nat)
    requires at + 2 <= |buf|
    ensures Field(buf, at, 2) == Number2(buf, at)
  {
    var b := buf[at..at + 2];
    assert b[1..][1..] == [];
    assert FromLE(b[1..]) == b[1] + 256 * FromLE(b[1..][1..]);
  }

  lemma Field4(buf: bytes, at: nat)
    requires at + 4 <= |buf|
    ensures Field(buf, at, 4) == Number4(buf, at)
  {
    LaterBytes(buf, at, 4);
    LaterBytes(buf, at + 1, 3);
    Field2(buf, at + 2);
  }

  lemma Field8(buf: bytes, at: nat)
    requires at + 8 <= |buf|
    ensures Field(buf, at, 8) == Number8(buf, at)
  {
    LaterBytes(buf, at, 8);
    LaterBytes(buf, at + 1, 7);
    LaterBytes(buf, at + 2, 6);
    LaterBytes(buf, at + 3, 5);
    Field4(buf, at + 4);
  }

  lemma LaterBytes(buf: bytes, at: nat, width: nat)
    requires 0 < width && at + width <= |buf|
    ensures Field(buf, at, width) == buf[at] + 256 * Field(buf, at + 1, width - 1)
  {
    assert buf[at..at + width][1..] == buf[at + 1..at + width];
  }

  // ---- an encoded map

  ghost predicate HasChunker(buf: bytes, at: nat, c: Chunker) {
    at + 12 <= |buf| && Number4(buf, at) == c.min && Number4(buf, at + 4) == c.avg && Number4(buf, at + 8) == c.max
  }

  /** The 46 fixed bytes: "EBB3", version 2, hash lengths 8, a zero byte, and the fields at their offsets. */
  ghost predicate HasHeader(buf: bytes, options: EncodeOptions, supers: nat, groups: nat, blocks: nat) {
    && |buf| >= 46 && buf[..4] == [0x45, 0x42, 0x42, 0x33] && buf[4] == 2 && buf[5] == 8 && buf[6] == 8 && buf[7] == 0
    && Number8(buf, 8) == options.fileSize && Number4(buf, 16) == groups && Number4(buf, 20) == blocks
    && Number4(buf, 24) == 46 + 28 * |options.regions| && HasChunker(buf, 28, options.defaultChunker)
    && Number2(buf, 40) == |options.regions| && Number4(buf, 42) == supers
  }

  ghost predicate HasRegion(buf: bytes, at: nat, r: Region) {
    at + 28 <= |buf| && Number8(buf, at) == r.offset && Number8(buf, at + 8) == r.size && HasChunker(buf, at + 16, r.chunker)
  }

  /** A table entry: hash, 32-bit count, 16-bit count, two zero bytes. */
  ghost predicate HasEntry(buf: bytes, at: nat, hash: Hash8, wide: nat, narrow: nat) {
    && at + 16 <= |buf| && buf[at..at + 8] == hash && Number4(buf, at + 8) == wide && Number2(buf, at + 12) == narrow
    && buf[at + 14] == 0 && buf[at + 15] == 0
  }

  /** A record: the first 8 bytes of the digest and the size; of a shorter digest what there is, and zeros. */
  ghost predicate HasRecord(buf: bytes, at: nat, block: BlockInput) {
    && at + 10 <= |buf| && Number2(buf, at + 8) == block.size
    && forall k :: 0 <= k < 8 ==> buf[at + k] == if k < |block.digest| then block.digest[k] else 0
  }

  lemma ChunkerHeld(buf: bytes, at: nat, c: Chunker)
    requires ChunkerFits(c) && at + 12 <= |buf| && buf[at..at + 12] == ChunkerBytes(c)
    ensures HasChunker(buf, at, c)
  {
    hide ChunkerBytes;
    ChunkerIs(buf, at, c);
    Field4(buf, at);
    Field4(buf, at + 4);
    Field4(buf, at + 8);
  }

  lemma HeaderHeld(buf: bytes, options: EncodeOptions, supers: nat, groups: nat, blocks: nat)
    requires FixedFits(options, supers, groups, blocks) && Holds(buf, 0, FixedHeader(options, supers, groups, blocks))
    ensures HasHeader(buf, options, supers, groups, blocks)
  {
    hide FixedHeader, FromLE;
    FixedFieldsOfMap(buf, options, supers, groups, blocks);
    ReservedIsZero(buf, options, supers, groups, blocks);
    Field8(buf, 8);
    Field4(buf, 16);
    Field4(buf, 20);
    Field4(buf, 24);
    Field4(buf, 28);
    Field4(buf, 32);
    Field4(buf, 36);
    Field2(buf, 40);
    Field4(buf, 42);
  }

  lemma ReservedIsZero(buf: bytes, options: EncodeOptions, supers: nat, groups: nat, blocks: nat)
    requires FixedFits(options, supers, groups, blocks) && Holds(buf, 0, FixedHeader(options, supers, groups, blocks))
    ensures |buf| > 7 && buf[7] == 0
  {
    var f := FixedHeader(options, supers, groups, blocks);
    assert f[7] == 0 == buf[..46][7];
  }

  lemma RegionHeld(buf: bytes, at: nat, r: Region)
    requires RegionFits(r) && at + 28 <= |buf| && buf[at..at + 28] == RegionBytes(r)
    ensures HasRegion(buf, at, r)
  {
    hide ToLE, ChunkerBytes, FromLE;
    var x, y, z := ToLE(r.offset, 8), ToLE(r.size, 8), ChunkerBytes(r.chunker);
    var b := x + y + z;
    assert b[0..8] == x && b[8..16] == y && b[16..28] == z;
    SubSlice(buf, at, at + 28, 0, 8);
    SubSlice(buf, at, at + 28, 8, 16);
    SubSlice(buf, at, at + 28, 16, 28);
    FieldIs(buf, at, 8, r.offset);
    FieldIs(buf, at + 8, 8, r.size);
    Field8(buf, at);
    Field8(buf, at + 8);
    ChunkerHeld(buf, at + 16, r.chunker);
  }

  lemma EntryHeld(buf: bytes, at: nat, hash: Hash8, wide: nat, narrow: nat)
    requires FitsUnsigned(wide, 4) && FitsUnsigned(narrow, 2)
    requires at + 16 <= |buf| && buf[at..at + 16] == EntryBytes(hash, wide, narrow)
    ensures HasEntry(buf, at, hash, wide, narrow)
  {
    hide ToLE, FromLE;
    var x, y := ToLE(wide, 4), ToLE(narrow, 2);
    var b := hash + x + y + Zeros(2);
    assert b[0..8] == hash && b[8..12] == x && b[12..14] == y && b[14] == b[15] == 0;
    SubSlice(buf, at, at + 16, 0, 8);
    SubSlice(buf, at, at + 16, 8, 12);
    SubSlice(buf, at, at + 16, 12, 14);
    assert buf[at..at + 16][14] == buf[at + 14] && buf[at..at + 16][15] == buf[at + 15];
    FieldIs(buf, at + 8, 4, wide);
    FieldIs(buf, at + 12, 2, narrow);
    Field4(buf, at + 8);
    Field2(buf, at + 12);
  }

  lemma RecordHeld(buf: bytes, at: nat, block: BlockInput)
    requires FitsUnsigned(block.size, 2) && at + 10 <= |buf| && buf[at..at + 10] == RecordBytes(block)
    ensures HasRecord(buf, at, block)
  {
    hide ToLE, FromLE;
    var x: bytes, y: bytes := Prefix8(block.digest), ToLE(block.size, 2);
    var b: bytes := x + y;
    assert b[8..10] == y;
    SubSlice(buf, at, at + 10, 8, 10);
    forall k | 0 <= k < 8 ensures buf[at + k] == if k < |block.digest| then block.digest[k] else 0 {
      assert buf[at..at + 10][k] == b[k] == x[k];
    }
    FieldIs(buf, at + 8, 2, block.size);
    Field2(buf, at + 8);
  }

  /** The whole map: header, regions, super-groups, groups and records one after the other, and nothing else. */
  ghost predicate HasLayout(buf: bytes, options: EncodeOptions, supers: seq<SuperInfo>, infos: seq<GroupInfo>, blocks: seq<BlockInput>) {
    && var regionsEnd := 46 + 28 * |options.regions|;
    && var supersEnd := regionsEnd + 16 * |supers|;
    && var groupsEnd := supersEnd + 16 * |infos|;
    && |buf| == groupsEnd + 10 * |blocks|
    && HasHeader(buf, options, |supers|, |infos|, |blocks|)
    && (forall k :: 0 <= k < |options.regions| ==> HasRegion(buf, 46 + 28 * k, options.regions[k]))
    && (forall k :: 0 <= k < |supers| ==> HasEntry(buf, regionsEnd + 16 * k, supers[k].hash, supers[k].blockCount, supers[k].groupCount))
    && (forall k :: 0 <= k < |infos| && infos[k].byteLength >= 0 ==> HasEntry(buf, supersEnd + 16 * k, infos[k].hash, infos[k].byteLength, infos[k].blockCount))
    && (forall k :: 0 <= k < |infos| ==> infos[k].byteLength >= 0)
    && forall k :: 0 <= k < |blocks| ==> HasRecord(buf, groupsEnd + 10 * k, blocks[k])
  }

  lemma SupersHeld(buf: bytes, at: nat, supers: seq<SuperInfo>)
    requires SupersFit(supers) && Holds(buf, at, SuperTable(supers))
    ensures forall k :: 0 <= k < |supers| ==> HasEntry(buf, at + 16 * k, supers[k].hash, supers[k].blockCount, supers[k].groupCount)
  {
    Pow256Values();
    hide HasEntry, EntryBytes, Holds;
    forall k | 0 <= k < |supers| ensures HasEntry(buf, at + 16 * k, supers[k].hash, supers[k].blockCount, supers[k].groupCount) {
      PartOfTable(buf, at, SuperParts(supers), 16, k, 16 * k);
      HoldsSlice(buf, at + 16 * k, SuperParts(supers)[k]);
      EntryHeld(buf, at + 16 * k, supers[k].hash, supers[k].blockCount, supers[k].groupCount);
    }
  }

  lemma GroupsHeld(buf: bytes, at: nat, infos: seq<GroupInfo>)
    requires InfosFit(infos) && Holds(buf, at, GroupTable(infos))
    ensures forall k :: 0 <= k < |infos| ==> infos[k].byteLength >= 0 && HasEntry(buf, at + 16 * k, infos[k].hash, infos[k].byteLength, infos[k].blockCount)
  {
    Pow256Values();
    hide HasEntry, EntryBytes, Holds;
    forall k | 0 <= k < |infos| ensures HasEntry(buf, at + 16 * k, infos[k].hash, infos[k].byteLength, infos[k].blockCount) {
      PartOfTable(buf, at, GroupParts(infos), 16, k, 16 * k);
      HoldsSlice(buf, at + 16 * k, GroupParts(infos)[k]);
      EntryHeld(buf, at + 16 * k, infos[k].hash, infos[k].byteLength, infos[k].blockCount);
    }
  }

  lemma RecordsHeld(buf: bytes, at: nat, blocks: seq<BlockInput>)
    requires SizesFit(blocks) && Holds(buf, at, RecordTable(blocks))
    ensures forall k :: 0 <= k < |blocks| ==> HasRecord(buf, at + 10 * k, blocks[k])
  {
    hide HasRecord, RecordBytes, Holds;
    forall k | 0 <= k < |blocks| ensures HasRecord(buf, at + 10 * k, blocks[k]) {
      PartOfTable(buf, at, RecordParts(blocks), 10, k, 10 * k);
      HoldsSlice(buf, at + 10 * k, RecordParts(blocks)[k]);
      RecordHeld(buf, at + 10 * k, blocks[k]);
    }
  }

  lemma RegionsHeld(buf: bytes, regions: seq<Region>)
    requires RegionsFit(regions) && Holds(buf, 46, Concat(RegionParts(regions)))
    ensures forall k :: 0 <= k < |regions| ==> HasRegion(buf, 46 + 28 * k, regions[k])
  {
    hide HasRegion, RegionBytes, Holds;
    forall k | 0 <= k < |regions| ensures HasRegion(buf, 46 + 28 * k, regions[k]) {
      PartOfTable(buf, 46, RegionParts(regions), 28, k, 28 * k);
      HoldsSlice(buf, 46 + 28 * k, RegionParts(regions)[k]);
      RegionHeld(buf, 46 + 28 * k, regions[k]);
    }
  }

  lemma HoldsSlice(buf: bytes, at: nat, part: bytes)
    requires Holds(buf, at, part)
    ensures at + |part| <= |buf| && buf[at..at + |part|] == part
  {
  }

  /** Every encoded map has this layout. */
  lemma EncodedLayout(h: bytes -> Hash8, blocks: seq<BlockInput>, options: EncodeOptions)
    requires Encode(h, blocks, options).Success?
    ensures SizesFit(blocks)
    ensures var infos := GroupInfos(h, blocks, Forced(options.regions));
            HasLayout(Encode(h, blocks, options).value, options, SuperInfos(h, infos, Forced(options.regions)), infos, blocks)
  {
    hide Encode, HasHeader, HasRegion, HasEntry, HasRecord, Holds, Forced, GroupInfos, SuperInfos, FixedHeader, RegionParts, SuperTable, GroupTable, RecordTable;
    EncodedIsLaidOut(h, blocks, options);
    var infos := GroupInfos(h, blocks, Forced(options.regions));
    var supers := SuperInfos(h, infos, Forced(options.regions));
    var buf := Encode(h, blocks, options).value;
    HeaderHeld(buf, options, |supers|, |infos|, |blocks|);
    RegionsHeld(buf, options.regions);
    SupersHeld(buf, 46 + 28 * |options.regions|, supers);
    GroupsHeld(buf, 46 + 28 * |options.regions| + 16 * |supers|, infos);
    RecordsHeld(buf, 46 + 28 * |options.regions| + 16 * |supers| + 16 * |infos|, blocks);
  }

  // ---- what the encoder takes

  ghost predicate ChunkerInRange(c: Chunker) {
    0 <= c.min < 0x1_0000_0000 && 0 <= c.avg < 0x1_0000_0000 && 0 <= c.max < 0x1_0000_0000
  }

  const TWO_POW_64: nat := 0x1_0000_0000_0000_0000

  /** Encoding succeeds exactly when every field fits its width. */
  lemma EncodesIff(h: bytes -> Hash8, blocks: seq<BlockInput>, options: EncodeOptions)
    ensures Encode(h, blocks, options).Success? <==>
              && (forall k :: 0 <= k < |blocks| ==> 0 <= blocks[k].size <= 65535) && |blocks| < 0x1_0000_0000
              && 0 <= options.fileSize < TWO_POW_64 && ChunkerInRange(options.defaultChunker) && |options.regions| <= 65535
              && forall k :: 0 <= k < |options.regions| ==>
                   && 0 <= options.regions[k].offset < TWO_POW_64 && 0 <= options.regions[k].size < TWO_POW_64
                   && ChunkerInRange(options.regions[k].chunker)
  {
    Pow256Values();
    hide GroupRanges, SuperRanges, Forced, IndexBytes, HeaderBytes;
    if SizesFit(blocks) {
      var forced := Forced(options.regions);
      GroupsCoverBlocks(h, blocks, forced);
      SupersCoverGroups(h, GroupInfos(h, blocks, forced), forced);
    }
  }

  // ---- what the decoder accepts

  /** The 16-bit counts of the table at `at`. */
  function NarrowCounts(buf: bytes, at: nat, n: nat): (counts: seq<nat>)
    requires at + 16 * n <= |buf|
    ensures |counts| == n
  {
    seq(n, k requires 0 <= k < n && at + 16 * n <= |buf| => Number2(buf, at + 16 * k + 12))
  }

  /** The 32-bit counts of the table at `at`. */
  function WideCounts(buf: bytes, at: nat, n: nat): (counts: seq<nat>)
    requires at + 16 * n <= |buf|
    ensures |counts| == n
  {
    seq(n, k requires 0 <= k < n && at + 16 * n <= |buf| => Number4(buf, at + 16 * k + 8))
  }

  ghost predicate NoneZero(counts: seq<nat>) {
    forall k :: 0 <= k < |counts| ==> counts[k] != 0
  }

  /** The fixed bytes and the length of the header. */
  predicate IsHeader(buf: bytes) {
    && |buf| >= 46 && buf[..4] == [0x45, 0x42, 0x42, 0x33] && buf[4] == 2 && buf[5] == 8 && buf[6] == 8
    && Number4(buf, 24) == 46 + 28 * Number2(buf, 40) <= |buf|
    && Number4(buf, 42) <= Number4(buf, 16) <= Number4(buf, 20) <= ToNumber(Number8(buf, 8))
  }

  /** The tables behind a header of that length: their counts add up, and no super-group, group or block is empty. */
  ghost predicate AreTables(buf: bytes, headerLen: nat, supers: nat, groups: nat, blocks: nat) {
    && |buf| == headerLen + 16 * supers + 16 * groups + 10 * blocks
    && NoneZero(NarrowCounts(buf, headerLen, supers)) && Sum(NarrowCounts(buf, headerLen, supers)) == groups
    && Sum(WideCounts(buf, headerLen, supers)) == blocks
    && NoneZero(NarrowCounts(buf, headerLen + 16 * supers, groups)) && Sum(NarrowCounts(buf, headerLen + 16 * supers, groups)) == blocks
    && forall k :: 0 <= k < blocks ==> Number2(buf, headerLen + 16 * supers + 16 * groups + 10 * k + 8) != 0
  }

  /** Byte strings that are maps, of the expected file and within the size limit: 128 MiB, or less if the caller says so. */
  ghost predicate IsMap(buf: bytes, expectedFileSize: Option<int>, maxSize: Option<int>) {
    && IsHeader(buf) && AreTables(buf, Number4(buf, 24), Number4(buf, 42), Number4(buf, 16), Number4(buf, 20))
    && (expectedFileSize.Some? ==> expectedFileSize.value == ToNumber(Number8(buf, 8)))
    && |buf| <= 134217728 && (maxSize.Some? && maxSize.value > 0 ==> |buf| <= maxSize.value)
  }

  lemma HeaderParsesIff(buf: bytes)
    ensures ParseHeader(buf).Success? <==> IsHeader(buf)
    ensures IsHeader(buf) ==>
              var header := ParseHeader(buf).value;
              && header.headerLen == Number4(buf, 24) && header.superCount == Number4(buf, 42) && header.groupCount == Number4(buf, 16)
              && header.blockCount == Number4(buf, 20) && header.fileSize == ToNumber(Number8(buf, 8))
  {
    hide RegionsOf, ToNumber, Field, ChunkerAt, Number2, Number4, Number8;
    if |buf| >= 46 {
      Field8(buf, 8);
      Field4(buf, 16);
      Field4(buf, 20);
      Field4(buf, 24);
      Field2(buf, 40);
      Field4(buf, 42);
    }
  }

  lemma SupersCheckedIff(buf: bytes, header: Header)
    requires header.headerLen + 16 * header.superCount <= |buf|
    ensures var supers := SupersAt(buf, header.headerLen, header.superCount);
            CheckSupers(header, supers).None? <==>
              && NoneZero(NarrowCounts(buf, header.headerLen, header.superCount))
              && Sum(NarrowCounts(buf, header.headerLen, header.superCount)) == header.groupCount
              && Sum(WideCounts(buf, header.headerLen, header.superCount)) == header.blockCount
  {
    hide Field, Number2, Number4, Hex, Sum;
    var at, n := header.headerLen, header.superCount;
    var supers := SupersAt(buf, at, n);
    forall k | 0 <= k < n
      ensures supers[k].groupCount == NarrowCounts(buf, at, n)[k] && supers[k].blockCount == WideCounts(buf, at, n)[k]
    {
      Field4(buf, at + 16 * k + 8);
      Field2(buf, at + 16 * k + 12);
    }
    assert GroupCounts(supers) == NarrowCounts(buf, at, n) && SuperBlockCounts(supers) == WideCounts(buf, at, n);
  }

  lemma GroupsCheckedIff(buf: bytes, header: Header)
    requires GroupTableStart(header) + 16 * header.groupCount <= |buf|
    ensures var groups := GroupsAt(buf, GroupTableStart(header), header.groupCount);
            CheckGroups(header, groups).None? <==>
              && NoneZero(NarrowCounts(buf, GroupTableStart(header), header.groupCount))
              && Sum(NarrowCounts(buf, GroupTableStart(header), header.groupCount)) == header.blockCount
  {
    hide Field, Number2, Hex, Sum;
    var at, n := GroupTableStart(header), header.groupCount;
    var groups := GroupsAt(buf, at, n);
    forall k | 0 <= k < n ensures groups[k].blockCount == NarrowCounts(buf, at, n)[k] {
      Field2(buf, at + 16 * k + 12);
    }
    assert GroupBlockCounts(groups) == NarrowCounts(buf, at, n);
  }

  lemma RecordsCheckedIff(buf: bytes, at: nat, n: nat)
    requires at + 10 * n <= |buf|
    ensures !HasEmptyBlock(RecordsAt(buf, at, n)) <==> forall k :: 0 <= k < n ==> Number2(buf, at + 10 * k + 8) != 0
  {
    hide Field, Number2, Hex;
    var records := RecordsAt(buf, at, n);
    forall k | 0 <= k < n ensures records[k].size == Number2(buf, at + 10 * k + 8) {
      Field2(buf, at + 10 * k + 8);
    }
    if !HasEmptyBlock(records) {
      forall k | 0 <= k < n ensures Number2(buf, at + 10 * k + 8) != 0 {
        assert records[k].size != 0;
      }
    }
  }

  /** The decoder accepts exactly these. */
  lemma DecodesIff(buf: bytes, expectedFileSize: Option<int>, maxSize: Option<int>)
    ensures Decode(buf, expectedFileSize, maxSize).Success? <==> IsMap(buf, expectedFileSize, maxSize)
  {
    hide ParseHeader, IsHeader, CheckSupers, CheckGroups, SupersAt, GroupsAt, RecordsAt, HasEmptyBlock, Number2, Number4, Number8, ToNumber, NarrowCounts,
         WideCounts, NoneZero, Sum;
    HeaderParsesIff(buf);
    if ParseHeader(buf).Success? {
      var header := ParseHeader(buf).value;
      if MapSize(header) == |buf| {
        SupersCheckedIff(buf, header);
        GroupsCheckedIff(buf, header);
        RecordsCheckedIff(buf, RecordsStart(header), header.blockCount);
      }
    }
  }
}
