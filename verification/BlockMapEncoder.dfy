/** The encoder with its loops and cursors, proved to produce the tables BlockMapV3.Encode describes. */
module BlockMapEncoder {
  import opened BlockMapV3
  import opened Buffers
  import opened Bytes
  import opened Grouping
  import opened Seqs
  import opened Wrappers

  method GroupBlocks(blocks: seq<BlockInput>, forcedBoundaries: set<int>) returns (groups: seq<Range>)
    ensures groups == GroupRanges(blocks, forcedBoundaries)
  {
    ghost var items := BlockItems(blocks, forcedBoundaries);
    groups := [];
    var start := 0;
    for i := 0 to |blocks|
      invariant start <= i
      invariant i == |blocks| ==> start == i
      invariant groups + GroupsFrom(items, GROUP_LIMITS, start, i) == Groups(items, GROUP_LIMITS)
    {
      var count := i - start + 1;
      var forced := i + 1 >= |blocks| || blocks[i + 1].offset in forcedBoundaries;
      var marker := IsGroupMarker(blocks[i].digest);
      var closes := forced || count >= GROUP_LIMITS.max || (count >= GROUP_LIMITS.min && marker);
      assert closes == Closes(items, GROUP_LIMITS, start, i);
      if closes {
        groups := groups + [Range(start, i + 1)];
        start := i + 1;
      }
    }
  }

  method GroupSupers(hashes: seq<Hash8>, offsets: seq<int>, forcedBoundaries: set<int>, ghost infos: seq<GroupInfo>) returns (supers: seq<Range>)
    requires |hashes| == |offsets| == |infos|
    requires forall k :: 0 <= k < |infos| ==> infos[k].hash == hashes[k] && infos[k].offset == offsets[k]
    ensures supers == SuperRanges(infos, forcedBoundaries)
  {
    ghost var items := GroupItems(infos, forcedBoundaries);
    supers := [];
    var start := 0;
    for i := 0 to |hashes|
      invariant start <= i
      invariant i == |hashes| ==> start == i
      invariant supers + GroupsFrom(items, SUPER_LIMITS, start, i) == Groups(items, SUPER_LIMITS)
    {
      var count := i - start + 1;
      var forced := i + 1 >= |hashes| || offsets[i + 1] in forcedBoundaries;
      var marker := IsSuperMarker(hashes[i]);
      var closes := forced || count >= SUPER_LIMITS.max || (count >= SUPER_LIMITS.min && marker);
      assert closes == Closes(items, SUPER_LIMITS, start, i);
      if closes {
        supers := supers + [Range(start, i + 1)];
        start := i + 1;
      }
    }
  }

  /** One record at the cursor: at most 8 digest bytes (the buffer is zeroed), then the size. */
  method WriteRecord(buf: array<byte>, ghost done: bytes, at: nat, block: BlockInput)
    requires FitsUnsigned(block.size, 2)
    requires at == |done| && at + RECORD_SIZE <= buf.Length && buf[..] == done + Zeros(buf.Length - at)
    modifies buf
    ensures buf[..] == done + RecordBytes(block) + Zeros(buf.Length - at - RECORD_SIZE)
  {
    var prefix := if |block.digest| >= HASH_LEN then block.digest[..HASH_LEN] else block.digest;
    WriteNext(buf, done, at, prefix);
    ghost var written := done + Prefix8(block.digest);
    assert buf[..] == written + Zeros(buf.Length - at - HASH_LEN);
    WriteNext(buf, written, at + HASH_LEN, ToLE(block.size, 2));
    assert written + ToLE(block.size, 2) == done + RecordBytes(block);
  }

  /** One super-group or group entry at the cursor. */
  method WriteEntry(buf: array<byte>, ghost done: bytes, at: nat, digest: Hash8, wide: int, narrow: int)
    requires FitsUnsigned(wide, 4) && FitsUnsigned(narrow, 2)
    requires at == |done| && at + GROUP_SIZE <= buf.Length && buf[..] == done + Zeros(buf.Length - at)
    modifies buf
    ensures buf[..] == done + EntryBytes(digest, wide, narrow) + Zeros(buf.Length - at - GROUP_SIZE)
  {
    WriteNext(buf, done, at, digest);
    WriteNext(buf, done + digest, at + 8, ToLE(wide, 4));
    WriteNext(buf, done + digest + ToLE(wide, 4), at + 12, ToLE(narrow, 2));
    WriteNext(buf, done + digest + ToLE(wide, 4) + ToLE(narrow, 2), at + 14, Zeros(2));
    assert done + EntryBytes(digest, wide, narrow) == done + digest + ToLE(wide, 4) + ToLE(narrow, 2) + Zeros(2);
  }

  lemma RecordTableSnoc(blocks: seq<BlockInput>, i: nat)
    requires i < |blocks| && SizesFit(blocks[..i]) && FitsUnsigned(blocks[i].size, 2)
    ensures SizesFit(blocks[..i + 1])
    ensures RecordTable(blocks[..i + 1]) == RecordTable(blocks[..i]) + RecordBytes(blocks[i])
  {
    var more := blocks[..i + 1];
    assert SizesFit(more) by {
      forall k | 0 <= k < |more| ensures FitsUnsigned(more[k].size, 2) {
        assert k < i ==> more[k] == blocks[..i][k];
      }
    }
    assert RecordParts(more) == RecordParts(blocks[..i]) + [RecordBytes(blocks[i])];
    ConcatSnoc(RecordParts(blocks[..i]), RecordBytes(blocks[i]));
  }

  /** The record loop: cursor r walks the buffer in steps of RECORD_SIZE. */
  method FillRecords(blocks: seq<BlockInput>) returns (recordBytes: array<byte>, error: Option<EncodeError>)
    ensures error == FirstSizeError(blocks)
    ensures error.None? ==> recordBytes[..] == RecordTable(blocks)
  {
    Pow256Values();
    recordBytes := Alloc(|blocks| * RECORD_SIZE);
    var r := 0;
    for i := 0 to |blocks|
      invariant r == i * RECORD_SIZE && recordBytes.Length == |blocks| * RECORD_SIZE
      invariant fresh(recordBytes)
      invariant FirstSizeError(blocks) == FirstSizeError(blocks[i..])
      invariant SizesFit(blocks[..i]) && |RecordTable(blocks[..i])| == r
      invariant recordBytes[..] == RecordTable(blocks[..i]) + Zeros(recordBytes.Length - r)
    {
      var block := blocks[i];
      assert blocks[i..][0] == block && blocks[i..][1..] == blocks[i + 1..];
      if block.size > 0xffff {
        return recordBytes, Some(BlockTooLarge(block.size));
      }
      if block.size < 0 {
        return recordBytes, Some(RangeError);
      }
      WriteRecord(recordBytes, RecordTable(blocks[..i]), r, block);
      RecordTableSnoc(blocks, i);
      r := r + RECORD_SIZE;
    }
    assert blocks[..|blocks|] == blocks;
    assert blocks[|blocks|..] == [];
    error := None;
  }

  lemma GroupTableSnoc(infos: seq<GroupInfo>, i: nat)
    requires i < |infos| && InfosFit(infos)
    ensures InfosFit(infos[..i]) && InfosFit(infos[..i + 1])
    ensures FitsUnsigned(infos[i].byteLength, 4) && FitsUnsigned(infos[i].blockCount, 2)
    ensures |GroupTable(infos[..i])| == GROUP_SIZE * i
    ensures GroupTable(infos[..i + 1]) == GroupTable(infos[..i]) + EntryBytes(infos[i].hash, infos[i].byteLength, infos[i].blockCount)
  {
    Pow256Values();
    ConcatLength(GroupParts(infos[..i]), GROUP_SIZE);
    var entry := EntryBytes(infos[i].hash, infos[i].byteLength, infos[i].blockCount);
    assert GroupParts(infos[..i + 1]) == GroupParts(infos[..i]) + [entry];
    ConcatSnoc(GroupParts(infos[..i]), entry);
  }

  lemma NoGroupTable()
    ensures InfosFit([]) && GroupTable([]) == []
  {
  }

  /** Bytes a group covers. */
  method ByteLength(blocks: seq<BlockInput>, group: Range) returns (byteLength: int)
    requires group.start <= group.end <= |blocks|
    ensures byteLength == Sum(Sizes(blocks[group.start..group.end]))
  {
    ghost var sizes := Sizes(blocks[group.start..group.end]);
    byteLength := 0;
    for i := group.start to group.end
      invariant byteLength == Sum(sizes[..i - group.start])
    {
      SumStep(sizes, i - group.start);
      byteLength := byteLength + blocks[i].size;
    }
    assert sizes[..group.end - group.start] == sizes;
  }

  /** One turn of the group loop: hash the group's records, write its entry at the cursor. */
  method WriteGroup(h: bytes -> Hash8, blocks: seq<BlockInput>, group: Range, recordBytes: array<byte>,
                    groupBytes: array<byte>, g: nat, ghost done: bytes, ghost info: GroupInfo)
    returns (digest: Hash8)
    requires group.start < group.end <= |blocks| && SizesFit(blocks) && recordBytes[..] == RecordTable(blocks)
    requires info == GroupInfoOf(h, blocks[group.start..group.end])
    requires FitsUnsigned(info.byteLength, 4) && FitsUnsigned(info.blockCount, 2)
    requires g == |done| && g + GROUP_SIZE <= groupBytes.Length && groupBytes[..] == done + Zeros(groupBytes.Length - g)
    requires groupBytes != recordBytes
    modifies groupBytes
    ensures digest == info.hash
    ensures groupBytes[..] == done + EntryBytes(info.hash, info.byteLength, info.blockCount) + Zeros(groupBytes.Length - g - GROUP_SIZE)
  {
    var byteLength := ByteLength(blocks, group);
    RecordTableSlice(blocks, group.start, group.end);
    assert recordBytes.Length == |recordBytes[..]|;
    assert recordBytes[group.start * RECORD_SIZE..group.end * RECORD_SIZE]
        == recordBytes[..][RECORD_SIZE * group.start..RECORD_SIZE * group.end];
    digest := h(recordBytes[group.start * RECORD_SIZE..group.end * RECORD_SIZE]);
    WriteEntry(groupBytes, done, g, digest, byteLength, group.end - group.start);
  }

  /** The group loop: cursor g walks the buffer in steps of GROUP_SIZE. */
  method FillGroups(h: bytes -> Hash8, blocks: seq<BlockInput>, groups: seq<Range>, recordBytes: array<byte>, ghost infos: seq<GroupInfo>)
    returns (groupBytes: array<byte>, hashes: seq<Hash8>, offsets: seq<int>)
    requires SizesFit(blocks) && recordBytes[..] == RecordTable(blocks)
    requires RangesFit(groups, |blocks|) && infos == InfosOfRanges(h, blocks, groups) && InfosFit(infos)
    ensures groupBytes[..] == GroupTable(infos)
    ensures |hashes| == |offsets| == |infos|
    ensures forall k :: 0 <= k < |infos| ==> infos[k].hash == hashes[k] && infos[k].offset == offsets[k]
  {
    hide GroupTable, InfosFit, RecordTable, SizesFit;
    NoGroupTable();
    assert infos[..0] == [];
    groupBytes := Alloc(|groups| * GROUP_SIZE);
    hashes, offsets := [], [];
    var g := 0;
    for i := 0 to |groups|
      invariant g == i * GROUP_SIZE && groupBytes.Length == |groups| * GROUP_SIZE
      invariant fresh(groupBytes) && groupBytes != recordBytes
      invariant InfosFit(infos[..i]) && |GroupTable(infos[..i])| == g
      invariant groupBytes[..] == GroupTable(infos[..i]) + Zeros(groupBytes.Length - g)
      invariant |hashes| == |offsets| == i
      invariant forall k :: 0 <= k < i ==> infos[k].hash == hashes[k] && infos[k].offset == offsets[k]
    {
      var group := groups[i];
      GroupTableSnoc(infos, i);
      var digest := WriteGroup(h, blocks, group, recordBytes, groupBytes, g, GroupTable(infos[..i]), infos[i]);
      hashes := hashes + [digest];
      offsets := offsets + [blocks[group.start].offset];
      g := g + GROUP_SIZE;
    }
    assert infos[..|groups|] == infos;
  }

  lemma SuperTableSnoc(supers: seq<SuperInfo>, i: nat)
    requires i < |supers| && SupersFit(supers)
    ensures SupersFit(supers[..i]) && SupersFit(supers[..i + 1])
    ensures FitsUnsigned(supers[i].blockCount, 4) && FitsUnsigned(supers[i].groupCount, 2)
    ensures |SuperTable(supers[..i])| == SUPER_SIZE * i
    ensures SuperTable(supers[..i + 1]) == SuperTable(supers[..i]) + EntryBytes(supers[i].hash, supers[i].blockCount, supers[i].groupCount)
  {
    Pow256Values();
    ConcatLength(SuperParts(supers[..i]), SUPER_SIZE);
    var entry := EntryBytes(supers[i].hash, supers[i].blockCount, supers[i].groupCount);
    assert SuperParts(supers[..i + 1]) == SuperParts(supers[..i]) + [entry];
    ConcatSnoc(SuperParts(supers[..i]), entry);
  }

  /** Blocks a super-group covers. */
  method BlockCount(groups: seq<Range>, sup: Range, ghost infos: seq<GroupInfo>) returns (blockCount: int)
    requires sup.start <= sup.end <= |groups| == |infos|
    requires forall k :: 0 <= k < |infos| ==> infos[k].blockCount == groups[k].end - groups[k].start
    ensures blockCount == Sum(BlockCounts(infos[sup.start..sup.end]))
  {
    ghost var counts := BlockCounts(infos[sup.start..sup.end]);
    blockCount := 0;
    for i := sup.start to sup.end
      invariant blockCount == Sum(counts[..i - sup.start])
    {
      SumStep(counts, i - sup.start);
      blockCount := blockCount + (groups[i].end - groups[i].start);
    }
    assert counts[..sup.end - sup.start] == counts;
  }

  /** One turn of the super-group loop: hash the group entries, write the super-group's own at the cursor. */
  method WriteSuper(h: bytes -> Hash8, groups: seq<Range>, sup: Range, groupBytes: array<byte>, superBytes: array<byte>, s: nat,
                    ghost done: bytes, ghost infos: seq<GroupInfo>, ghost info: SuperInfo)
    requires sup.start < sup.end <= |infos| == |groups| && InfosFit(infos) && groupBytes[..] == GroupTable(infos)
    requires forall k :: 0 <= k < |infos| ==> infos[k].blockCount == groups[k].end - groups[k].start
    requires info == SuperInfoOf(h, infos[sup.start..sup.end])
    requires FitsUnsigned(info.blockCount, 4) && FitsUnsigned(info.groupCount, 2)
    requires s == |done| && s + SUPER_SIZE <= superBytes.Length && superBytes[..] == done + Zeros(superBytes.Length - s)
    requires superBytes != groupBytes
    modifies superBytes
    ensures superBytes[..] == done + EntryBytes(info.hash, info.blockCount, info.groupCount) + Zeros(superBytes.Length - s - SUPER_SIZE)
  {
    var blockCount := BlockCount(groups, sup, infos);
    GroupTableSlice(infos, sup.start, sup.end);
    assert groupBytes.Length == |groupBytes[..]|;
    assert groupBytes[sup.start * GROUP_SIZE..sup.end * GROUP_SIZE]
        == groupBytes[..][GROUP_SIZE * sup.start..GROUP_SIZE * sup.end];
    var hash := Hex(h(groupBytes[sup.start * GROUP_SIZE..sup.end * GROUP_SIZE]));
    UnHexHex(info.hash);
    WriteEntry(superBytes, done, s, UnHex(hash), blockCount, sup.end - sup.start);
  }

  /** The super-group loop: cursor s walks the buffer in steps of SUPER_SIZE. */
  method FillSupers(h: bytes -> Hash8, groups: seq<Range>, ranges: seq<Range>, groupBytes: array<byte>,
                    ghost infos: seq<GroupInfo>, ghost supers: seq<SuperInfo>)
    returns (superBytes: array<byte>)
    requires InfosFit(infos) && groupBytes[..] == GroupTable(infos)
    requires |groups| == |infos| && forall k :: 0 <= k < |infos| ==> infos[k].blockCount == groups[k].end - groups[k].start
    requires RangesFit(ranges, |infos|) && supers == SupersOfRanges(h, infos, ranges) && SupersFit(supers)
    ensures superBytes[..] == SuperTable(supers)
  {
    superBytes := Alloc(|ranges| * SUPER_SIZE);
    var s := 0;
    for i := 0 to |ranges|
      invariant s == i * SUPER_SIZE && superBytes.Length == |ranges| * SUPER_SIZE
      invariant fresh(superBytes) && superBytes != groupBytes
      invariant SupersFit(supers[..i]) && |SuperTable(supers[..i])| == s
      invariant superBytes[..] == SuperTable(supers[..i]) + Zeros(superBytes.Length - s)
    {
      SuperTableSnoc(supers, i);
      WriteSuper(h, groups, ranges[i], groupBytes, superBytes, s, SuperTable(supers[..i]), infos, supers[i]);
      s := s + SUPER_SIZE;
    }
    assert supers[..|ranges|] == supers;
  }

  /** One unsigned header field at the cursor; a value out of range throws. */
  method WriteField(buf: array<byte>, ghost done: bytes, at: nat, value: int, width: nat) returns (ok: bool)
    requires at == |done| && at + width <= buf.Length && buf[..] == done + Zeros(buf.Length - at)
    modifies buf
    ensures ok == FitsUnsigned(value, width)
    ensures ok ==> buf[..] == done + ToLE(value, width) + Zeros(buf.Length - at - width)
  {
    ok := FitsUnsigned(value, width);
    if ok {
      WriteNext(buf, done, at, ToLE(value, width));
    }
  }

  /** Three 32-bit chunker parameters at the cursor. */
  method WriteChunker(buf: array<byte>, ghost done: bytes, at: nat, c: Chunker) returns (ok: bool)
    requires at == |done| && at + 12 <= buf.Length && buf[..] == done + Zeros(buf.Length - at)
    modifies buf
    ensures ok == ChunkerFits(c)
    ensures ok ==> buf[..] == done + ChunkerBytes(c) + Zeros(buf.Length - at - 12)
  {
    ok := WriteField(buf, done, at, c.min, 4);
    if !ok { return; }
    ghost var written := done + ToLE(c.min, 4);
    ok := WriteField(buf, written, at + 4, c.avg, 4);
    if !ok { return; }
    written := written + ToLE(c.avg, 4);
    ok := WriteField(buf, written, at + 8, c.max, 4);
    if ok {
      Regroup(done, ToLE(c.min, 4), ToLE(c.avg, 4), ToLE(c.max, 4));
    }
  }

  /** One region at the cursor. */
  method WriteRegion(buf: array<byte>, ghost done: bytes, at: nat, r: Region) returns (ok: bool)
    requires at == |done| && at + REGION_SIZE <= buf.Length && buf[..] == done + Zeros(buf.Length - at)
    modifies buf
    ensures ok == RegionFits(r)
    ensures ok ==> buf[..] == done + RegionBytes(r) + Zeros(buf.Length - at - REGION_SIZE)
  {
    ok := WriteField(buf, done, at, r.offset, 8);
    if !ok { return; }
    ghost var written := done + ToLE(r.offset, 8);
    ok := WriteField(buf, written, at + 8, r.size, 8);
    if !ok { return; }
    written := written + ToLE(r.size, 8);
    ok := WriteChunker(buf, written, at + 16, r.chunker);
    if ok {
      Regroup(done, ToLE(r.offset, 8), ToLE(r.size, 8), ChunkerBytes(r.chunker));
    }
  }

  method WriteMagic(buf: array<byte>)
    requires HEADER_FIXED_SIZE <= buf.Length && buf[..] == Zeros(buf.Length)
    modifies buf
    ensures buf[..] == MAGIC + [VERSION, HASH_LEN, HASH_LEN, 0] + Zeros(buf.Length - 8)
  {
    assert buf[..] == [] + Zeros(buf.Length);
    WriteNext(buf, [], 0, MAGIC);
    assert [] + MAGIC == MAGIC;
    WriteNext(buf, MAGIC, 4, [VERSION, HASH_LEN, HASH_LEN, 0]);
  }

  method WriteCounts(buf: array<byte>, ghost before: bytes, fileSize: int, groups: nat, blocks: nat) returns (ok: bool)
    requires |before| == 8 && HEADER_FIXED_SIZE <= buf.Length && buf[..] == before + Zeros(buf.Length - 8)
    modifies buf
    ensures ok <==> FitsUnsigned(fileSize, 8) && FitsUnsigned(groups, 4) && FitsUnsigned(blocks, 4)
    ensures ok ==> buf[..] == before + ToLE(fileSize, 8) + ToLE(groups, 4) + ToLE(blocks, 4) + Zeros(buf.Length - 24)
  {
    ghost var done := before;
    ok := WriteField(buf, done, 8, fileSize, 8);
    if !ok { return; }
    done := done + ToLE(fileSize, 8);
    ok := WriteField(buf, done, 16, groups, 4);
    if !ok { return; }
    done := done + ToLE(groups, 4);
    ok := WriteField(buf, done, 20, blocks, 4);
  }

  method WriteLastFields(buf: array<byte>, ghost before: bytes, options: EncodeOptions, supers: nat) returns (ok: bool)
    requires |before| == 28 && HEADER_FIXED_SIZE <= buf.Length && buf[..] == before + Zeros(buf.Length - 28)
    modifies buf
    ensures ok <==> ChunkerFits(options.defaultChunker) && |options.regions| < Pow256(2) && supers < Pow256(4)
    ensures ok ==> buf[..] == before + ChunkerBytes(options.defaultChunker) + ToLE(|options.regions|, 2) + ToLE(supers, 4)
                              + Zeros(buf.Length - HEADER_FIXED_SIZE)
  {
    ghost var done := before;
    ok := WriteChunker(buf, done, 28, options.defaultChunker);
    if !ok { return; }
    done := done + ChunkerBytes(options.defaultChunker);
    ok := WriteField(buf, done, 40, |options.regions|, 2);
    if !ok { return; }
    done := done + ToLE(|options.regions|, 2);
    ok := WriteField(buf, done, 42, supers, 4);
  }

  /** The fixed header, field after field in file order. */
  method WriteFixedHeader(buf: array<byte>, options: EncodeOptions, supers: nat, groups: nat, blocks: nat) returns (ok: bool)
    requires buf.Length == HeaderLength(|options.regions|) && buf[..] == Zeros(buf.Length)
    modifies buf
    ensures ok <==> FixedFits(options, supers, groups, blocks)
    ensures ok ==> buf[..] == FixedHeader(options, supers, groups, blocks) + Zeros(buf.Length - HEADER_FIXED_SIZE)
  {
    WriteMagic(buf);
    ghost var done := MAGIC + [VERSION, HASH_LEN, HASH_LEN, 0];
    ok := WriteCounts(buf, done, options.fileSize, groups, blocks);
    if !ok { return; }
    done := done + ToLE(options.fileSize, 8) + ToLE(groups, 4) + ToLE(blocks, 4);
    Pow256Values();
    var headerLen := HeaderLength(|options.regions|);
    ok := WriteField(buf, done, 24, headerLen, 4);
    if !ok { return; }
    done := done + ToLE(headerLen, 4);
    ok := WriteLastFields(buf, done, options, supers);
  }

  lemma RegionPartsSnoc(regions: seq<Region>, i: nat)
    requires i < |regions|
    requires forall k :: 0 <= k <= i ==> RegionFits(regions[k])
    ensures |Concat(RegionParts(regions[..i]))| == REGION_SIZE * i
    ensures Concat(RegionParts(regions[..i + 1])) == Concat(RegionParts(regions[..i])) + RegionBytes(regions[i])
  {
    ConcatLength(RegionParts(regions[..i]), REGION_SIZE);
    assert RegionParts(regions[..i + 1]) == RegionParts(regions[..i]) + [RegionBytes(regions[i])];
    ConcatSnoc(RegionParts(regions[..i]), RegionBytes(regions[i]));
  }

  /** The region loop: cursor p walks the header behind its fixed part. */
  method WriteRegions(buf: array<byte>, ghost fixed: bytes, regions: seq<Region>) returns (ok: bool)
    requires |fixed| == HEADER_FIXED_SIZE && buf.Length == HeaderLength(|regions|)
    requires buf[..] == fixed + Zeros(buf.Length - HEADER_FIXED_SIZE)
    modifies buf
    ensures ok <==> forall k :: 0 <= k < |regions| ==> RegionFits(regions[k])
    ensures ok ==> buf[..] == fixed + Concat(RegionParts(regions))
  {
    var p := HEADER_FIXED_SIZE;
    for i := 0 to |regions|
      invariant p == HeaderLength(i)
      invariant forall k :: 0 <= k < i ==> RegionFits(regions[k])
      invariant |Concat(RegionParts(regions[..i]))| == REGION_SIZE * i
      invariant buf[..] == fixed + Concat(RegionParts(regions[..i])) + Zeros(buf.Length - p)
    {
      ok := WriteRegion(buf, fixed + Concat(RegionParts(regions[..i])), p, regions[i]);
      if !ok { return; }
      RegionPartsSnoc(regions, i);
      assert fixed + Concat(RegionParts(regions[..i + 1])) == fixed + Concat(RegionParts(regions[..i])) + RegionBytes(regions[i]);
      p := p + REGION_SIZE;
    }
    assert regions[..|regions|] == regions;
    ok := true;
  }

  /** The header buffer, or None when a field is out of range. */
  method EncodeHeader(options: EncodeOptions, supers: nat, groups: nat, blocks: nat) returns (r: Option<bytes>)
    ensures r.Some? <==> HeaderFits(options, supers, groups, blocks)
    ensures r.Some? ==> r.value == HeaderBytes(options, supers, groups, blocks)
  {
    var header := Alloc(HeaderLength(|options.regions|));
    var ok := WriteFixedHeader(header, options, supers, groups, blocks);
    if !ok { return None; }
    ghost var fixed := header[..HEADER_FIXED_SIZE];
    assert fixed == FixedHeader(options, supers, groups, blocks);
    ok := WriteRegions(header, fixed, options.regions);
    if !ok { return None; }
    r := Some(header[..]);
  }

  /** The super-group and group tables and the records, with the number of super-groups and groups. */
  method EncodeTables(h: bytes -> Hash8, blocks: seq<BlockInput>, forced: set<int>)
    returns (tables: bytes, supers: nat, groups: nat, error: Option<EncodeError>)
    ensures error == FirstSizeError(blocks)
    ensures error.None? ==> IsIndexOf(h, blocks, forced, tables, supers, groups)
  {
    var groupRanges := GroupBlocks(blocks, forced);
    var recordBytes;
    recordBytes, error := FillRecords(blocks);
    if error.Some? {
      return [], 0, 0, error;
    }
    GroupRangesFit(blocks, forced);
    ghost var infos := GroupInfos(h, blocks, forced);
    var groupBytes, hashes, offsets := FillGroups(h, blocks, groupRanges, recordBytes, infos);
    var superRanges := GroupSupers(hashes, offsets, forced, infos);
    SuperRangesFit(infos, forced);
    var superBytes := FillSupers(h, groupRanges, superRanges, groupBytes, infos, SuperInfos(h, infos, forced));
    tables, supers, groups := superBytes[..] + groupBytes[..] + recordBytes[..], |superRanges|, |groupRanges|;
  }

  /** Serializes blocks (in file order) into a block map. */
  method EncodeBlockMapV3(h: bytes -> Hash8, blocks: seq<BlockInput>, options: EncodeOptions) returns (r: Result<bytes, EncodeError>)
    ensures r == Encode(h, blocks, options)
  {
    var tables, supers, groups, error := EncodeTables(h, blocks, Forced(options.regions));
    if error.Some? {
      return Failure(error.value);
    }
    var header := EncodeHeader(options, supers, groups, |blocks|);
    r := if header.Some? then Success(header.value + tables) else Failure(RangeError);
  }
}
