/**
 The index of a block map: the byte ranges an updater fetches per super-group and per group, and what the hashes on
 them say. The ranges tile their tables exactly, one range parses to its slice of the whole, and two verified maps
 with the same super-group table are the same bytes unless the hash collides.
 */
module BlockMapIndex {
  import opened Arithmetic
  import opened BlockMapDecoder
  import opened BlockMapV3
  import opened Bytes
  import opened Grouping
  import opened Seqs
  import opened Wrappers

  // ---- ranges

  /** Consecutive ranges of the given sizes. */
  function Spans(start: nat, sizes: seq<nat>): (ranges: seq<Range>)
    ensures |ranges| == |sizes|
    decreases |sizes|
  {
    if sizes == [] then [] else [Range(start, start + sizes[0])] + Spans(start + sizes[0], sizes[1..])
  }

  /** Byte sizes of runs of entries of `width` bytes. */
  function Scaled(counts: seq<nat>, width: nat): (sizes: seq<nat>)
    ensures |sizes| == |counts|
  {
    seq(|counts|, k requires 0 <= k < |counts| => counts[k] * width)
  }

  lemma {:induction false} ScaledSum(counts: seq<nat>, width: nat)
    ensures Sum(Scaled(counts, width)) == width * Sum(counts)
  {
    if counts != [] {
      ScaledSum(counts[1..], width);
      assert Scaled(counts, width)[1..] == Scaled(counts[1..], width);
      Distribute(width, counts[0], Sum(counts[1..]));
    }
  }

  function GroupEntryRangesOf(header: Header, supers: seq<Super>): (ranges: seq<Range>)
    ensures |ranges| == |supers|
  {
    Spans(GroupTableStart(header), Scaled(GroupCounts(supers), GROUP_SIZE))
  }

  function RecordRangesOf(header: Header, groups: seq<Group>): (ranges: seq<Range>)
    ensures |ranges| == |groups|
  {
    Spans(RecordsStart(header), Scaled(GroupBlockCounts(groups), RECORD_SIZE))
  }

  method GroupEntryRanges(header: Header, supers: seq<Super>) returns (result: seq<Range>)
    ensures result == GroupEntryRangesOf(header, supers)
  {
    result := [];
    var start: nat := GroupTableStart(header);
    ghost var sizes := Scaled(GroupCounts(supers), GROUP_SIZE);
    for i := 0 to |supers|
      invariant result + Spans(start, sizes[i..]) == GroupEntryRangesOf(header, supers)
    {
      var end := start + supers[i].groupCount * GROUP_SIZE;
      assert sizes[i..][0] == supers[i].groupCount * GROUP_SIZE && sizes[i..][1..] == sizes[i + 1..];
      result := result + [Range(start, end)];
      start := end;
    }
  }

  method RecordRanges(header: Header, groups: seq<Group>) returns (result: seq<Range>)
    ensures result == RecordRangesOf(header, groups)
  {
    hide RecordsStart;
    result := [];
    var start: nat := RecordsStart(header);
    ghost var sizes := Scaled(GroupBlockCounts(groups), RECORD_SIZE);
    for i := 0 to |groups|
      invariant result + Spans(start, sizes[i..]) == RecordRangesOf(header, groups)
    {
      var end := start + groups[i].blockCount * RECORD_SIZE;
      assert sizes[i..][0] == groups[i].blockCount * RECORD_SIZE && sizes[i..][1..] == sizes[i + 1..];
      result := result + [Range(start, end)];
      start := end;
    }
  }

  /** Non-empty spans tile exactly the sum of their sizes. */
  lemma {:induction false} SpansTile(start: nat, sizes: seq<nat>)
    requires forall k :: 0 <= k < |sizes| ==> sizes[k] > 0
    ensures Sum(sizes) >= 0
    ensures Partitions(Spans(start, sizes), start, start + Sum(sizes))
    decreases |sizes|
  {
    SumAtLeast(sizes, 0);
    if |sizes| > 0 {
      SpansTile(start + sizes[0], sizes[1..]);
      hide Partitions;
      PartitionsCons(Spans(start + sizes[0], sizes[1..]), start, start + sizes[0], start + Sum(sizes));
    }
  }

  /** Where span k lies. */
  lemma {:induction false} SpanAt(start: nat, sizes: seq<nat>, k: nat)
    requires k < |sizes|
    ensures Sum(sizes[..k]) >= 0
    ensures Spans(start, sizes)[k] == Range(start + Sum(sizes[..k]), start + Sum(sizes[..k]) + sizes[k])
    decreases k
  {
    SumAtLeast(sizes[..k], 0);
    if k > 0 {
      SpanAt(start + sizes[0], sizes[1..], k - 1);
      assert sizes[..k][1..] == sizes[1..][..k - 1];
    }
  }

  /** Where the span of run k lies, in entries. */
  lemma RunAt(start: nat, counts: seq<nat>, width: nat, k: nat)
    requires k < |counts|
    ensures 0 <= Sum(counts[..k]) <= Sum(counts[..k]) + counts[k] <= Sum(counts)
    ensures var r := Spans(start, Scaled(counts, width))[k];
            r.start == start + width * Sum(counts[..k]) && r.end == start + width * (Sum(counts[..k]) + counts[k])
  {
    SumAtLeast(counts[..k], 0);
    SumAtLeast(counts[k + 1..], 0);
    SumStep(counts, k);
    assert counts == counts[..k + 1] + counts[k + 1..];
    SumAppend(counts[..k + 1], counts[k + 1..]);
    SpanAt(start, Scaled(counts, width), k);
    assert Scaled(counts, width)[..k] == Scaled(counts[..k], width);
    ScaledSum(counts[..k], width);
    Distribute(width, counts[k], Sum(counts[..k]));
  }

  lemma SupersTile(header: Header, supers: seq<Super>)
    requires (forall k :: 0 <= k < |supers| ==> supers[k].groupCount != 0) && Sum(GroupCounts(supers)) == header.groupCount
    ensures Partitions(GroupEntryRangesOf(header, supers), GroupTableStart(header), RecordsStart(header))
  {
    hide Partitions, Spans;
    SpansTile(GroupTableStart(header), Scaled(GroupCounts(supers), GROUP_SIZE));
    ScaledSum(GroupCounts(supers), GROUP_SIZE);
  }

  lemma GroupsTile(header: Header, groups: seq<Group>)
    requires (forall k :: 0 <= k < |groups| ==> groups[k].blockCount != 0) && Sum(GroupBlockCounts(groups)) == header.blockCount
    ensures Partitions(RecordRangesOf(header, groups), RecordsStart(header), MapSize(header))
  {
    hide Partitions, Spans;
    SpansTile(RecordsStart(header), Scaled(GroupBlockCounts(groups), RECORD_SIZE));
    ScaledSum(GroupBlockCounts(groups), RECORD_SIZE);
  }

  lemma TablesTile(header: Header, supers: seq<Super>, groups: seq<Group>)
    requires CheckSupers(header, supers).None? && CheckGroups(header, groups).None?
    ensures Partitions(GroupEntryRangesOf(header, supers), GroupTableStart(header), RecordsStart(header))
    ensures Partitions(RecordRangesOf(header, groups), RecordsStart(header), MapSize(header))
  {
    hide Partitions, GroupEntryRangesOf, RecordRangesOf;
    SupersTile(header, supers);
    GroupsTile(header, groups);
  }

  /** What an accepted map consists of: its tables and records as they lie in the buffer, with counts that add up. */
  ghost predicate Parsed(buf: bytes, m: BlockMap) {
    && MapSize(m.header) == |buf|
    && m.supers == SupersAt(buf, m.header.headerLen, m.header.superCount) && CheckSupers(m.header, m.supers).None?
    && m.groups == GroupsAt(buf, GroupTableStart(m.header), m.header.groupCount) && CheckGroups(m.header, m.groups).None?
    && m.records == RecordsAt(buf, RecordsStart(m.header), m.header.blockCount)
  }

  lemma AcceptedIsParsed(buf: bytes, expectedFileSize: Option<int>, maxSize: Option<int>)
    requires Decode(buf, expectedFileSize, maxSize).Success?
    ensures Parsed(buf, Decode(buf, expectedFileSize, maxSize).value)
  {
    hide CheckSupers, CheckGroups, ParseHeader;
  }

  /**
   In every accepted map the ranges of the super-groups tile the group table and the ranges of the groups tile the
   records, to the last byte of the map.
   */
  lemma RangesTile(buf: bytes, m: BlockMap)
    requires Parsed(buf, m)
    ensures Partitions(GroupEntryRangesOf(m.header, m.supers), GroupTableStart(m.header), RecordsStart(m.header))
    ensures Partitions(RecordRangesOf(m.header, m.groups), RecordsStart(m.header), |buf|)
  {
    TablesTile(m.header, m.supers, m.groups);
  }

  // ---- partial parsing

  lemma RecordAtSlice(buf: bytes, lo: nat, hi: nat, at: nat)
    requires lo <= lo + at && lo + at + RECORD_SIZE <= hi <= |buf|
    ensures RecordAt(buf[lo..hi], at) == RecordAt(buf, lo + at)
  {
    SubSlice(buf, lo, hi, at, at + 8);
    SubSlice(buf, lo, hi, at + 8, at + 10);
  }

  /** Records [a, b) of a table, parsed from their bytes alone. */
  lemma RecordsOfRange(buf: bytes, start: nat, count: nat, a: nat, b: nat)
    requires start + count * RECORD_SIZE <= |buf| && a <= b <= count
    ensures var lo, hi := start + RECORD_SIZE * a, start + RECORD_SIZE * b;
            lo <= hi <= |buf| && ParseRecords(buf[lo..hi], 0, b - a) == Success(RecordsAt(buf, start, count)[a..b])
  {
    var lo, hi := start + RECORD_SIZE * a, start + RECORD_SIZE * b;
    var slice := buf[lo..hi];
    forall i | 0 <= i < b - a
      ensures RecordAt(slice, i * RECORD_SIZE) == RecordsAt(buf, start, count)[a..b][i]
    {
      RecordAtSlice(buf, lo, hi, i * RECORD_SIZE);
    }
    assert RecordsAt(slice, 0, b - a) == RecordsAt(buf, start, count)[a..b];
  }

  /** Group i's range parses alone to exactly the records the full decode attributes to it. */
  lemma RangeParsesAlone(buf: bytes, m: BlockMap, i: nat)
    requires Parsed(buf, m) && i < |m.groups|
    ensures var r := RecordRangesOf(m.header, m.groups)[i];
            var first := Sum(GroupBlockCounts(m.groups)[..i]);
            && r.start <= r.end <= |buf| && 0 <= first <= first + m.groups[i].blockCount <= |m.records|
            && ParseRecords(buf[r.start..r.end], 0, m.groups[i].blockCount)
               == Success(m.records[first..first + m.groups[i].blockCount])
  {
    hide RecordsAt, GroupsAt, SupersAt, ParseRecords;
    var counts := GroupBlockCounts(m.groups);
    var first := Sum(counts[..i]);
    RunAt(RecordsStart(m.header), counts, RECORD_SIZE, i);
    RecordsOfRange(buf, RecordsStart(m.header), m.header.blockCount, first, first + counts[i]);
  }

  lemma GroupAtSlice(buf: bytes, lo: nat, hi: nat, at: nat)
    requires lo + at + GROUP_SIZE <= hi <= |buf|
    ensures GroupAt(buf[lo..hi], at) == GroupAt(buf, lo + at)
  {
    SubSlice(buf, lo, hi, at, at + 8);
    SubSlice(buf, lo, hi, at + 8, at + 12);
    SubSlice(buf, lo, hi, at + 12, at + 14);
  }

  /** Group entries [a, b) of a table, parsed from their bytes alone. */
  lemma GroupsOfRange(buf: bytes, start: nat, count: nat, a: nat, b: nat)
    requires start + count * GROUP_SIZE <= |buf| && a <= b <= count
    ensures var lo, hi := start + GROUP_SIZE * a, start + GROUP_SIZE * b;
            lo <= hi <= |buf| && GroupsAt(buf[lo..hi], 0, b - a) == GroupsAt(buf, start, count)[a..b]
  {
    var lo, hi := start + GROUP_SIZE * a, start + GROUP_SIZE * b;
    var slice := buf[lo..hi];
    forall i | 0 <= i < b - a
      ensures GroupAt(slice, i * GROUP_SIZE) == GroupsAt(buf, start, count)[a..b][i]
    {
      GroupAtSlice(buf, lo, hi, i * GROUP_SIZE);
    }
  }

  /** Super-group i's range parses alone to exactly its group entries. */
  lemma EntryRangeParsesAlone(buf: bytes, m: BlockMap, i: nat)
    requires Parsed(buf, m) && i < |m.supers|
    ensures var r := GroupEntryRangesOf(m.header, m.supers)[i];
            var first := Sum(GroupCounts(m.supers)[..i]);
            && r.start <= r.end <= |buf| && r.end - r.start == m.supers[i].groupCount * GROUP_SIZE
            && 0 <= first <= first + m.supers[i].groupCount <= |m.groups|
            && GroupsAt(buf[r.start..r.end], 0, m.supers[i].groupCount) == m.groups[first..first + m.supers[i].groupCount]
  {
    hide RecordsAt, GroupsAt, SupersAt;
    var counts := GroupCounts(m.supers);
    var first := Sum(counts[..i]);
    RunAt(GroupTableStart(m.header), counts, GROUP_SIZE, i);
    GroupsOfRange(buf, GroupTableStart(m.header), m.header.groupCount, first, first + counts[i]);
  }
}
