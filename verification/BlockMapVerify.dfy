/**
 Verification of an assembled map (verifyBlockMapV3): every super-group's entries hash to its hash, every group's
 records hash to its hash, and all counts and sizes add up. It pins down every byte behind the super-group table.
 */
module BlockMapVerify {
  import opened BlockMapDecoder
  import opened BlockMapIndex
  import opened BlockMapV3
  import opened Bytes
  import opened Grouping
  import opened Seqs
  import opened Wrappers

  /** Buffer.subarray: out-of-range bounds are clamped. */
  function Subarray(buf: bytes, r: Range): (b: bytes) {
    var end := if r.end <= |buf| then r.end else |buf|;
    if r.start <= end then buf[r.start..end] else []
  }

  /** Index of super-group k's first group. */
  function FirstGroup(supers: seq<Super>, k: nat): (g: nat)
    requires k <= |supers|
  {
    SumAtLeast(GroupCounts(supers)[..k], 0);
    Sum(GroupCounts(supers)[..k])
  }

  /** Blocks of `count` groups from `first` on; a group that is not there counts as none. */
  function BlocksIn(groups: seq<Group>, first: nat, count: nat): nat {
    if count == 0 then 0
    else BlocksIn(groups, first, count - 1) + if first + count - 1 < |groups| then groups[first + count - 1].blockCount else 0
  }

  predicate SuperVerifies(h: bytes -> Hash8, buf: bytes, range: Range, sup: Super, groups: seq<Group>, first: nat) {
    Hex(h(Subarray(buf, range))) == sup.hash && BlocksIn(groups, first, sup.groupCount) == sup.blockCount
  }

  function RecordSizes(records: seq<Record>): (s: seq<int>)
    ensures |s| == |records|
  {
    seq(|records|, k requires 0 <= k < |records| => records[k].size)
  }

  predicate GroupVerifies(h: bytes -> Hash8, buf: bytes, range: Range, group: Group) {
    var parsed := ParseRecords(Subarray(buf, range), 0, group.blockCount);
    && parsed.Success? && !HasEmptyBlock(parsed.value)
    && Hex(h(Subarray(buf, range))) == group.hash
    && Sum(RecordSizes(parsed.value)) == group.byteLength
  }

  function ByteLengths(groups: seq<Group>): (s: seq<int>)
    ensures |s| == |groups|
  {
    seq(|groups|, k requires 0 <= k < |groups| => groups[k].byteLength)
  }

  /** The super-group half of verification. */
  ghost predicate SupersVerify(h: bytes -> Hash8, buf: bytes, header: Header, supers: seq<Super>, groups: seq<Group>) {
    && (forall k :: 0 <= k < |supers| ==> supers[k].groupCount != 0)
    && (forall k :: 0 <= k < |supers| ==> SuperVerifies(h, buf, GroupEntryRangesOf(header, supers)[k], supers[k], groups, FirstGroup(supers, k)))
    && Sum(GroupCounts(supers)) == |groups|
  }

  /** The group half. */
  ghost predicate GroupsVerify(h: bytes -> Hash8, buf: bytes, header: Header, groups: seq<Group>) {
    && (forall k :: 0 <= k < |groups| ==> groups[k].blockCount != 0)
    && (forall k :: 0 <= k < |groups| ==> GroupVerifies(h, buf, RecordRangesOf(header, groups)[k], groups[k]))
    && Sum(GroupBlockCounts(groups)) == header.blockCount
    && Sum(ByteLengths(groups)) == header.fileSize
  }

  /** What verification accepts. */
  ghost predicate Verified(h: bytes -> Hash8, buf: bytes, header: Header, supers: seq<Super>, groups: seq<Group>) {
    && |supers| == header.superCount && |groups| == header.groupCount && |buf| == MapSize(header)
    && SupersVerify(h, buf, header, supers, groups)
    && GroupsVerify(h, buf, header, groups)
  }

  /** Range k of a run of spans starts where the sizes before it end. */
  lemma SpanStart(start: nat, sizes: seq<nat>, k: nat)
    requires k < |sizes|
    ensures Sum(sizes[..k]) >= 0 && Sum(sizes[..k + 1]) == Sum(sizes[..k]) + sizes[k]
    ensures Spans(start, sizes)[k] == Range(start + Sum(sizes[..k]), start + Sum(sizes[..k + 1]))
  {
    SpanAt(start, sizes, k);
    SumStep(sizes, k);
  }

  method CountBlocks(groups: seq<Group>, first: nat, count: nat) returns (blockCount: nat)
    ensures blockCount == BlocksIn(groups, first, count)
  {
    blockCount := 0;
    for i := 0 to count
      invariant blockCount == BlocksIn(groups, first, i)
    {
      blockCount := blockCount + if first + i < |groups| then groups[first + i].blockCount else 0;
    }
  }

  /** One super-group: hash its entries, count the blocks of its groups. */
  method VerifySuper(h: bytes -> Hash8, buf: bytes, range: Range, sup: Super, groups: seq<Group>, first: nat) returns (ok: bool)
    ensures ok <==> SuperVerifies(h, buf, range, sup, groups, first)
  {
    if Hex(h(Subarray(buf, range))) != sup.hash {
      return false;
    }
    var blockCount := CountBlocks(groups, first, sup.groupCount);
    ok := blockCount == sup.blockCount;
  }

  method VerifySupers(h: bytes -> Hash8, buf: bytes, header: Header, supers: seq<Super>, groups: seq<Group>) returns (ok: bool)
    requires forall k :: 0 <= k < |supers| ==> supers[k].groupCount != 0
    ensures ok <==> SupersVerify(h, buf, header, supers, groups)
  {
    hide SuperVerifies;
    ghost var sizes := Scaled(GroupCounts(supers), GROUP_SIZE);
    var entryOffset, groupIndex := GroupTableStart(header), 0;
    for index := 0 to |supers|
      invariant groupIndex == FirstGroup(supers, index)
      invariant entryOffset == GroupTableStart(header) + Sum(sizes[..index])
      invariant forall k :: 0 <= k < index ==> SuperVerifies(h, buf, GroupEntryRangesOf(header, supers)[k], supers[k], groups, FirstGroup(supers, k))
    {
      var sup := supers[index];
      var end := entryOffset + sup.groupCount * GROUP_SIZE;
      SpanStart(GroupTableStart(header), sizes, index);
      SumStep(GroupCounts(supers), index);
      var superOk := VerifySuper(h, buf, Range(entryOffset, end), sup, groups, groupIndex);
      if !superOk {
        return false;
      }
      groupIndex := groupIndex + sup.groupCount;
      entryOffset := end;
    }
    assert GroupCounts(supers)[..|supers|] == GroupCounts(supers);
    ok := groupIndex == |groups|;
  }

  method VerifyGroups(h: bytes -> Hash8, buf: bytes, header: Header, groups: seq<Group>) returns (ok: bool)
    requires forall k :: 0 <= k < |groups| ==> groups[k].blockCount != 0
    ensures ok <==> GroupsVerify(h, buf, header, groups)
  {
    hide GroupVerifies;
    ghost var sizes := Scaled(GroupBlockCounts(groups), RECORD_SIZE);
    var offset, blocks, total := RecordsStart(header), 0, 0;
    for index := 0 to |groups|
      invariant offset == RecordsStart(header) + Sum(sizes[..index])
      invariant blocks == Sum(GroupBlockCounts(groups)[..index]) && total == Sum(ByteLengths(groups)[..index])
      invariant forall k :: 0 <= k < index ==> GroupVerifies(h, buf, RecordRangesOf(header, groups)[k], groups[k])
    {
      var group := groups[index];
      var end := offset + group.blockCount * RECORD_SIZE;
      SpanStart(RecordsStart(header), sizes, index);
      SumStep(GroupBlockCounts(groups), index);
      SumStep(ByteLengths(groups), index);
      var groupOk := VerifyGroup(h, buf, Range(offset, end), group);
      if !groupOk {
        return false;
      }
      blocks := blocks + group.blockCount;
      total := total + group.byteLength;
      offset := end;
    }
    assert GroupBlockCounts(groups)[..|groups|] == GroupBlockCounts(groups);
    assert ByteLengths(groups)[..|groups|] == ByteLengths(groups);
    ok := blocks == header.blockCount && total == header.fileSize;
  }

  /** One group: parse its records, add up their sizes, compare hash and byte length. */
  method VerifyGroup(h: bytes -> Hash8, buf: bytes, range: Range, group: Group) returns (ok: bool)
    ensures ok <==> GroupVerifies(h, buf, range, group)
  {
    var recordBytes := Subarray(buf, range);
    var parsed := ParseBlockMapV3Records(recordBytes, 0, group.blockCount);
    if parsed.Failure? {
      return false;
    }
    var records := parsed.value;
    var byteLength := 0;
    for i := 0 to |records|
      invariant byteLength == Sum(RecordSizes(records)[..i])
      invariant forall k :: 0 <= k < i ==> records[k].size != 0
    {
      if records[i].size == 0 {
        return false;
      }
      SumStep(RecordSizes(records), i);
      byteLength := byteLength + records[i].size;
    }
    assert RecordSizes(records)[..|records|] == RecordSizes(records);
    ok := Hex(h(recordBytes)) == group.hash && byteLength == group.byteLength;
  }

  method VerifyBlockMapV3(h: bytes -> Hash8, buf: bytes, header: Header, supers: seq<Super>, groups: seq<Group>) returns (ok: bool)
    ensures ok <==> Verified(h, buf, header, supers, groups)
  {
    if |supers| != header.superCount || |groups| != header.groupCount || |buf| != MapSize(header) {
      return false;
    }
    if exists k :: 0 <= k < |supers| && supers[k].groupCount == 0 {
      return false;
    }
    if exists k :: 0 <= k < |groups| && groups[k].blockCount == 0 {
      return false;
    }
    ok := VerifySupers(h, buf, header, supers, groups);
    if ok {
      ok := VerifyGroups(h, buf, header, groups);
    }
  }

  // ---- what verification guarantees

  /** The byte strings a map's hashes are taken of. */
  ghost function HashInputs(buf: bytes, header: Header, supers: seq<Super>, groups: seq<Group>): set<bytes> {
    (set k | 0 <= k < |supers| :: Subarray(buf, GroupEntryRangesOf(header, supers)[k]))
    + (set k | 0 <= k < |groups| :: Subarray(buf, RecordRangesOf(header, groups)[k]))
  }

  /** The hash does not collide on these byte strings. */
  ghost predicate CollisionFree(h: bytes -> Hash8, inputs: set<bytes>) {
    forall x, y :: x in inputs && y in inputs && h(x) == h(y) ==> x == y
  }

  ghost predicate AgreeOn(a: bytes, b: bytes, lo: nat, hi: nat) {
    hi <= |a| && hi <= |b| && forall j :: lo <= j < hi ==> a[j] == b[j]
  }

  /** Two buffers agree where all ranges of a tiling agree. */
  lemma AgreeOnTiles(a: bytes, b: bytes, ranges: seq<Range>, lo: nat, hi: nat)
    requires hi <= |a| && hi <= |b| && Partitions(ranges, lo, hi)
    requires forall k :: 0 <= k < |ranges| ==> Subarray(a, ranges[k]) == Subarray(b, ranges[k])
    ensures AgreeOn(a, b, lo, hi)
  {
    forall j | lo <= j < hi ensures a[j] == b[j] {
      var k := GroupOf(ranges, lo, hi, j);
      var r := ranges[k];
      assert Subarray(a, r)[j - r.start] == a[j];
      assert Subarray(b, r)[j - r.start] == b[j];
    }
  }

  lemma VerifiedTiles(h: bytes -> Hash8, buf: bytes, header: Header, supers: seq<Super>, groups: seq<Group>)
    requires Verified(h, buf, header, supers, groups)
    ensures Partitions(GroupEntryRangesOf(header, supers), GroupTableStart(header), RecordsStart(header))
    ensures Partitions(RecordRangesOf(header, groups), RecordsStart(header), |buf|)
  {
    hide SuperVerifies, GroupVerifies, GroupEntryRangesOf, RecordRangesOf, Partitions, FirstGroup;
    SupersTile(header, supers);
    GroupsTile(header, groups);
  }

  /** Equal hashes of collision-free inputs: equal bytes. */
  lemma SameHashSameBytes(h: bytes -> Hash8, inputs: set<bytes>, x: bytes, y: bytes)
    requires CollisionFree(h, inputs) && x in inputs && y in inputs && Hex(h(x)) == Hex(h(y))
    ensures x == y
  {
    HexInjective(h(x), h(y));
  }

  lemma EntriesAgree(h: bytes -> Hash8, header: Header, supers: seq<Super>, a: bytes, b: bytes, groupsA: seq<Group>, groupsB: seq<Group>, inputs: set<bytes>)
    requires Verified(h, a, header, supers, groupsA) && Verified(h, b, header, supers, groupsB)
    requires CollisionFree(h, inputs) && HashInputs(a, header, supers, groupsA) <= inputs && HashInputs(b, header, supers, groupsB) <= inputs
    ensures AgreeOn(a, b, GroupTableStart(header), RecordsStart(header))
  {
    VerifiedTiles(h, a, header, supers, groupsA);
    hide GroupVerifies, RecordRangesOf, CollisionFree, Subarray, Partitions;
    var entries := GroupEntryRangesOf(header, supers);
    forall k | 0 <= k < |entries| ensures Subarray(a, entries[k]) == Subarray(b, entries[k]) {
      SameHashSameBytes(h, inputs, Subarray(a, entries[k]), Subarray(b, entries[k]));
    }
    AgreeOnTiles(a, b, entries, GroupTableStart(header), RecordsStart(header));
  }

  lemma RecordsAgree(h: bytes -> Hash8, header: Header, supers: seq<Super>, a: bytes, b: bytes, groups: seq<Group>, inputs: set<bytes>)
    requires Verified(h, a, header, supers, groups) && Verified(h, b, header, supers, groups)
    requires CollisionFree(h, inputs) && HashInputs(a, header, supers, groups) <= inputs && HashInputs(b, header, supers, groups) <= inputs
    ensures AgreeOn(a, b, RecordsStart(header), |a|)
  {
    VerifiedTiles(h, a, header, supers, groups);
    hide SuperVerifies, GroupEntryRangesOf, CollisionFree, Subarray, ParseRecords, HasEmptyBlock, RecordSizes, Partitions;
    var records := RecordRangesOf(header, groups);
    forall k | 0 <= k < |records| ensures Subarray(a, records[k]) == Subarray(b, records[k]) {
      SameHashSameBytes(h, inputs, Subarray(a, records[k]), Subarray(b, records[k]));
    }
    AgreeOnTiles(a, b, records, RecordsStart(header), |a|);
  }

  /**
   Two verified maps with the same header and super-group table are the same bytes, unless the hash collides on what
   they hash. So whatever an old map or a server contributed to the assembled buffer, a buffer that passes is the
   published map.
   */
  lemma VerifiedMapsAgree(h: bytes -> Hash8, header: Header, supers: seq<Super>, a: bytes, b: bytes, groupsA: seq<Group>, groupsB: seq<Group>)
    requires |a| == |b| == MapSize(header)
    requires AgreeOn(a, b, 0, GroupTableStart(header))
    requires Verified(h, a, header, supers, groupsA) && Verified(h, b, header, supers, groupsB)
    requires groupsA == GroupsAt(a, GroupTableStart(header), header.groupCount)
    requires groupsB == GroupsAt(b, GroupTableStart(header), header.groupCount)
    requires CollisionFree(h, HashInputs(a, header, supers, groupsA) + HashInputs(b, header, supers, groupsB))
    ensures a == b
  {
    var inputs := HashInputs(a, header, supers, groupsA) + HashInputs(b, header, supers, groupsB);
    hide Verified, CollisionFree, HashInputs, GroupsAt;
    EntriesAgree(h, header, supers, a, b, groupsA, groupsB, inputs);
    SameBytesSameGroups(a, b, GroupTableStart(header), header.groupCount);
    RecordsAgree(h, header, supers, a, b, groupsA, inputs);
  }

  lemma SameBytesSameGroups(a: bytes, b: bytes, start: nat, count: nat)
    requires AgreeOn(a, b, start, start + count * GROUP_SIZE)
    ensures GroupsAt(a, start, count) == GroupsAt(b, start, count)
  {
    assert a[start..start + count * GROUP_SIZE] == b[start..start + count * GROUP_SIZE];
    GroupsOfRange(a, start, count, 0, count);
    GroupsOfRange(b, start, count, 0, count);
  }

  /** What verifies group by group has no empty block anywhere. */
  lemma VerifiedHasNoEmptyBlock(h: bytes -> Hash8, buf: bytes, m: BlockMap)
    requires Parsed(buf, m) && Verified(h, buf, m.header, m.supers, m.groups)
    ensures !HasEmptyBlock(m.records)
  {
    forall t | 0 <= t < |m.records| ensures m.records[t].size != 0 {
      var g := GroupOfRecord(buf, m, t);
      GroupHasNoEmptyBlock(h, buf, m, g);
    }
  }

  /** The group whose range holds record t. */
  lemma GroupOfRecord(buf: bytes, m: BlockMap, t: nat) returns (g: nat)
    requires Parsed(buf, m) && t < |m.records|
    ensures g < |m.groups| && Sum(GroupBlockCounts(m.groups)[..g]) <= t < Sum(GroupBlockCounts(m.groups)[..g]) + m.groups[g].blockCount
  {
    hide RecordsAt, SupersAt, GroupsAt, Partitions, CheckSupers, CheckGroups;
    RangesTile(buf, m);
    g := GroupOf(RecordRangesOf(m.header, m.groups), RecordsStart(m.header), |buf|, RecordsStart(m.header) + RECORD_SIZE * t);
    RunAt(RecordsStart(m.header), GroupBlockCounts(m.groups), RECORD_SIZE, g);
  }

  lemma GroupOfVerified(h: bytes -> Hash8, buf: bytes, m: BlockMap, g: nat)
    requires Verified(h, buf, m.header, m.supers, m.groups) && g < |m.groups|
    ensures var r := RecordRangesOf(m.header, m.groups)[g];
            r.start <= r.end <= |buf| ==>
              var parsed := ParseRecords(buf[r.start..r.end], 0, m.groups[g].blockCount);
              parsed.Success? && forall i :: 0 <= i < |parsed.value| ==> parsed.value[i].size != 0
  {
    hide ParseRecords, RecordRangesOf, SupersVerify;
    assert GroupVerifies(h, buf, RecordRangesOf(m.header, m.groups)[g], m.groups[g]);
  }

  lemma GroupHasNoEmptyBlock(h: bytes -> Hash8, buf: bytes, m: BlockMap, g: nat)
    requires Parsed(buf, m) && Verified(h, buf, m.header, m.supers, m.groups) && g < |m.groups|
    ensures var first := Sum(GroupBlockCounts(m.groups)[..g]);
            forall t :: first <= t < first + m.groups[g].blockCount && 0 <= t < |m.records| ==> m.records[t].size != 0
  {
    hide Verified, Parsed, ParseRecords, RecordRangesOf, GroupBlockCounts, GroupVerifies, HasEmptyBlock, Sum;
    var first := Sum(GroupBlockCounts(m.groups)[..g]);
    RangeParsesAlone(buf, m, g);
    GroupOfVerified(h, buf, m, g);
    var members := m.records[first..first + m.groups[g].blockCount];
    forall t | first <= t < first + m.groups[g].blockCount ensures m.records[t].size != 0 {
      assert members[t - first] == m.records[t];
    }
  }

  // ---- the numbers of a verified map

  /** Index of group g's first record. */
  ghost function FirstRecord(groups: seq<Group>, g: nat): int
    requires g <= |groups|
  {
    Sum(GroupBlockCounts(groups)[..g])
  }

  ghost predicate SuperIsSum(m: BlockMap, k: nat) {
    && k < |m.supers| && FirstGroup(m.supers, k) <= FirstGroup(m.supers, k + 1) <= |m.groups|
    && m.supers[k].blockCount == Sum(GroupBlockCounts(m.groups[FirstGroup(m.supers, k)..FirstGroup(m.supers, k + 1)]))
  }

  ghost predicate GroupIsSum(m: BlockMap, g: nat) {
    && g < |m.groups| && 0 <= FirstRecord(m.groups, g) <= FirstRecord(m.groups, g + 1) <= |m.records|
    && m.groups[g].byteLength == Sum(RecordSizes(m.records[FirstRecord(m.groups, g)..FirstRecord(m.groups, g + 1)]))
  }

  /** Group g's byte length is what its own records add up to. */
  lemma GroupAddsUp(h: bytes -> Hash8, buf: bytes, m: BlockMap, g: nat)
    requires Parsed(buf, m) && Verified(h, buf, m.header, m.supers, m.groups) && g < |m.groups|
    ensures GroupIsSum(m, g)
  {
    hide Parsed, ParseRecords, RecordRangesOf, HasEmptyBlock, Sum, SupersVerify;
    RangeParsesAlone(buf, m, g);
    SumStep(GroupBlockCounts(m.groups), g);
    assert GroupVerifies(h, buf, RecordRangesOf(m.header, m.groups)[g], m.groups[g]);
  }

  lemma {:induction false} GroupsAddUp(h: bytes -> Hash8, buf: bytes, m: BlockMap, g: nat)
    requires Parsed(buf, m) && Verified(h, buf, m.header, m.supers, m.groups) && g <= |m.groups|
    ensures 0 <= FirstRecord(m.groups, g) <= |m.records| && Sum(ByteLengths(m.groups)[..g]) == Sum(RecordSizes(m.records[..FirstRecord(m.groups, g)]))
  {
    hide Parsed, Verified, GroupBlockCounts;
    if g > 0 {
      GroupsAddUp(h, buf, m, g - 1);
      GroupAddsUp(h, buf, m, g - 1);
      SumStep(ByteLengths(m.groups), g - 1);
      var from, to := FirstRecord(m.groups, g - 1), FirstRecord(m.groups, g);
      SumAppend(RecordSizes(m.records[..from]), RecordSizes(m.records[from..to]));
      assert RecordSizes(m.records[..from]) + RecordSizes(m.records[from..to]) == RecordSizes(m.records[..to]);
    } else {
      assert ByteLengths(m.groups)[..0] == [] && GroupBlockCounts(m.groups)[..0] == [];
    }
  }

  lemma {:induction false} BlocksInIsSumOf(groups: seq<Group>, first: nat, count: nat)
    requires first + count <= |groups|
    ensures BlocksIn(groups, first, count) == Sum(GroupBlockCounts(groups[first..first + count]))
  {
    if count > 0 {
      BlocksInIsSumOf(groups, first, count - 1);
      SumSnoc(GroupBlockCounts(groups[first..first + count - 1]), groups[first + count - 1].blockCount);
      assert GroupBlockCounts(groups[first..first + count])
          == GroupBlockCounts(groups[first..first + count - 1]) + [groups[first + count - 1].blockCount];
    }
  }

  lemma SuperAddsUp(h: bytes -> Hash8, buf: bytes, m: BlockMap, k: nat)
    requires Verified(h, buf, m.header, m.supers, m.groups) && k < |m.supers|
    ensures SuperIsSum(m, k)
  {
    hide GroupsVerify, Sum, BlocksIn, GroupEntryRangesOf;
    SumStep(GroupCounts(m.supers), k);
    SumPrefixMonotone(GroupCounts(m.supers), k + 1, |m.supers|);
    assert GroupCounts(m.supers)[..|m.supers|] == GroupCounts(m.supers);
    assert SuperVerifies(h, buf, GroupEntryRangesOf(m.header, m.supers)[k], m.supers[k], m.groups, FirstGroup(m.supers, k));
    BlocksInIsSumOf(m.groups, FirstGroup(m.supers, k), m.supers[k].groupCount);
  }

  /**
   Every number in a verified map is what the level below it adds up to: a super-group's blocks are those of its groups, a
   group's bytes those of its records, and all records together are the blocks and the bytes of the file.
   */
  lemma VerifiedAddsUp(h: bytes -> Hash8, buf: bytes, m: BlockMap)
    requires Parsed(buf, m) && Verified(h, buf, m.header, m.supers, m.groups)
    ensures forall k :: 0 <= k < |m.supers| ==> SuperIsSum(m, k)
    ensures forall g :: 0 <= g < |m.groups| ==> GroupIsSum(m, g)
    ensures |m.records| == m.header.blockCount && Sum(RecordSizes(m.records)) == m.header.fileSize
  {
    GroupsAddUp(h, buf, m, |m.groups|);
    WholeAddsUp(h, buf, m);
    hide Parsed, Verified, Sum, FirstRecord, FirstGroup;
    forall k | 0 <= k < |m.supers| ensures SuperIsSum(m, k) {
      SuperAddsUp(h, buf, m, k);
    }
    forall g | 0 <= g < |m.groups| ensures GroupIsSum(m, g) {
      GroupAddsUp(h, buf, m, g);
    }
  }

  lemma WholeAddsUp(h: bytes -> Hash8, buf: bytes, m: BlockMap)
    requires Parsed(buf, m) && Verified(h, buf, m.header, m.supers, m.groups)
    requires 0 <= FirstRecord(m.groups, |m.groups|) <= |m.records|
    requires Sum(ByteLengths(m.groups)[..|m.groups|]) == Sum(RecordSizes(m.records[..FirstRecord(m.groups, |m.groups|)]))
    ensures |m.records| == m.header.blockCount && Sum(RecordSizes(m.records)) == m.header.fileSize
  {
    hide GroupVerifies, SupersVerify, GroupsAt, SupersAt, CheckSupers, CheckGroups, Sum;
    assert GroupBlockCounts(m.groups)[..|m.groups|] == GroupBlockCounts(m.groups);
    assert ByteLengths(m.groups)[..|m.groups|] == ByteLengths(m.groups);
    assert m.records[..|m.records|] == m.records;
  }
}
