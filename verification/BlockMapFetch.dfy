/**
 Assembling a new block map from a cached old one and byte ranges of the published file (BlockMapV3Fetcher): match
 super-groups, fetch the entries of the others, match groups, fetch the records of the others, verify. The server is
 its published file `remote`: a range request returns those bytes.
 */
module BlockMapFetch {
  import opened BlockMapDecoder
  import opened BlockMapIndex
  import opened BlockMapV3
  import opened BlockMapVerify
  import opened Buffers
  import opened Bytes
  import opened FetchPlan
  import opened Grouping
  import opened RangeCoalescing
  import opened Seqs
  import opened Wrappers

  const COALESCE_GAP_BYTES: nat := 1024

  /** How the server answers the Range requests of one stage: with the ranges, with its whole file to one of them, or not at all. */
  datatype Answer = Partial | Whole | Refused

  /** What the stages come to: an assembled map, the server's whole file instead, or an error. */
  datatype Fetched = Assembled(buffer: bytes) | WholeFile | Failed

  // ---- filling the buffer

  /** Buffer.copy: as much of `src` as fits behind `at`. */
  method CopyInto(buffer: array<byte>, at: nat, src: bytes)
    requires at <= buffer.Length
    modifies buffer
    ensures buffer[..] == Overwritten(old(buffer[..]), at, src)
  {
    ghost var before := buffer[..];
    var n := if at + |src| <= buffer.Length then |src| else buffer.Length - at;
    for i := 0 to n
      invariant buffer[..] == before[..at] + src[..i] + before[at + i..]
    {
      buffer[at + i] := src[i];
    }
  }

  function Overwritten(before: bytes, at: nat, src: bytes): (after: bytes)
    requires at <= |before|
    ensures |after| == |before|
  {
    var n := if at + |src| <= |before| then |src| else |before| - at;
    before[..at] + src[..n] + before[at + n..]
  }

  /** Writing the file's own bytes never spoils a part that is already right. */
  lemma OverwriteKeeps(before: bytes, file: bytes, at: nat, end: nat)
    requires |before| == |file| && at <= end <= |file|
    ensures var after := Overwritten(before, at, file[at..end]);
            && AgreeOn(after, file, at, end)
            && forall lo, hi :: 0 <= lo && 0 <= hi && AgreeOn(before, file, lo, hi) ==> AgreeOn(after, file, lo, hi)
  {
    var after := Overwritten(before, at, file[at..end]);
    forall j | 0 <= j < |file| ensures at <= j < end ==> after[j] == file[j]
      ensures !(at <= j < end) ==> after[j] == before[j] {
    }
  }

  /** Each matched range holds the file's bytes. */
  ghost predicate MatchedAgree(buf: bytes, file: bytes, ranges: seq<Range>, matches: seq<int>, upTo: nat)
    requires upTo <= |matches| <= |ranges|
  {
    forall k :: 0 <= k < upTo && matches[k] >= 0 ==> AgreeOn(buf, file, ranges[k].start, ranges[k].end)
  }

  /** The source of every matched range holds the file's bytes for it. */
  ghost predicate SourcesAgree(oldData: bytes, oldRanges: seq<Range>, file: bytes, ranges: seq<Range>, matches: seq<int>)
    requires |matches| <= |ranges|
  {
    forall k :: 0 <= k < |matches| && matches[k] >= 0 ==>
      && matches[k] < |oldRanges| && ranges[k].start <= ranges[k].end <= |file|
      && Subarray(oldData, oldRanges[matches[k]]) == file[ranges[k].start..ranges[k].end]
  }

  /** Copies the matched ranges from the old map. */
  method CopyMatched(oldData: bytes, oldRanges: seq<Range>, ranges: seq<Range>, matches: seq<int>, buffer: array<byte>, ghost file: bytes, ghost prefetched: nat, ghost floor: nat)
    requires |matches| == |ranges| && |file| == buffer.Length && floor <= buffer.Length
    requires forall k :: 0 <= k < |ranges| ==> floor <= ranges[k].start
    requires forall k :: 0 <= k < |matches| ==> -1 <= matches[k] < |oldRanges|
    requires forall k :: 0 <= k < |ranges| ==> ranges[k].start <= ranges[k].end <= buffer.Length
    modifies buffer
    ensures buffer[..floor] == old(buffer[..floor])
    ensures SourcesAgree(oldData, oldRanges, file, ranges, matches) && AgreeOn(old(buffer[..]), file, 0, prefetched) ==>
              AgreeOn(buffer[..], file, 0, prefetched) && MatchedAgree(buffer[..], file, ranges, matches, |matches|)
  {
    ghost var genuine := SourcesAgree(oldData, oldRanges, file, ranges, matches) && AgreeOn(buffer[..], file, 0, prefetched);
    for index := 0 to |matches|
      invariant buffer[..floor] == old(buffer[..floor])
      invariant genuine ==> AgreeOn(buffer[..], file, 0, prefetched) && MatchedAgree(buffer[..], file, ranges, matches, index)
    {
      if matches[index] >= 0 {
        var to := ranges[index];
        ghost var before := buffer[..];
        CopyInto(buffer, to.start, Subarray(oldData, oldRanges[matches[index]]));
        if genuine {
          OverwriteKeeps(before, file, to.start, to.end);
        }
      }
    }
  }

  /** Fetches ranges of the published file into the buffer. */
  method FetchRanges(remote: bytes, ranges: seq<Range>, buffer: array<byte>, ghost floor: nat)
    requires |remote| == buffer.Length && floor <= buffer.Length
    requires forall k :: 0 <= k < |ranges| ==> floor <= ranges[k].start
    requires forall k :: 0 <= k < |ranges| ==> ranges[k].start <= ranges[k].end <= |remote|
    modifies buffer
    ensures buffer[..floor] == old(buffer[..floor])
    ensures forall k :: 0 <= k < |ranges| ==> AgreeOn(buffer[..], remote, ranges[k].start, ranges[k].end)
    ensures forall lo, hi :: 0 <= lo && 0 <= hi && AgreeOn(old(buffer[..]), remote, lo, hi) ==> AgreeOn(buffer[..], remote, lo, hi)
  {
    ghost var initial := buffer[..];
    for index := 0 to |ranges|
      invariant buffer[..floor] == initial[..floor]
      invariant forall k :: 0 <= k < index ==> AgreeOn(buffer[..], remote, ranges[k].start, ranges[k].end)
      invariant forall lo, hi :: 0 <= lo && 0 <= hi && AgreeOn(initial, remote, lo, hi) ==> AgreeOn(buffer[..], remote, lo, hi)
    {
      var r := ranges[index];
      ghost var before := buffer[..];
      CopyInto(buffer, r.start, remote[r.start..r.end]);
      OverwriteKeeps(before, remote, r.start, r.end);
    }
  }

  // ---- old and new maps with equal hashes

  /** A map whose tables parse from its bytes and whose hashes are those of its bytes. */
  ghost predicate Genuine(h: bytes -> Hash8, buf: bytes, m: BlockMap) {
    Parsed(buf, m) && Verified(h, buf, m.header, m.supers, m.groups)
  }

  ghost function Inputs(buf: bytes, m: BlockMap): set<bytes> {
    HashInputs(buf, m.header, m.supers, m.groups)
  }

  /** Equal super-groups of two genuine maps hold the same entries. */
  lemma EqualSupers(h: bytes -> Hash8, a: bytes, ma: BlockMap, i: nat, b: bytes, mb: BlockMap, j: nat, inputs: set<bytes>)
    requires Genuine(h, a, ma) && Genuine(h, b, mb) && i < |ma.supers| && j < |mb.supers| && ma.supers[i].hash == mb.supers[j].hash
    requires CollisionFree(h, inputs) && Inputs(a, ma) <= inputs && Inputs(b, mb) <= inputs
    ensures Subarray(a, GroupEntryRangesOf(ma.header, ma.supers)[i]) == Subarray(b, GroupEntryRangesOf(mb.header, mb.supers)[j])
  {
    var ra, rb := GroupEntryRangesOf(ma.header, ma.supers)[i], GroupEntryRangesOf(mb.header, mb.supers)[j];
    assert SuperVerifies(h, a, ra, ma.supers[i], ma.groups, FirstGroup(ma.supers, i));
    assert SuperVerifies(h, b, rb, mb.supers[j], mb.groups, FirstGroup(mb.supers, j));
    hide GroupEntryRangesOf, Parsed, GroupsVerify, SupersVerify, CollisionFree;
    SameHashSameBytes(h, inputs, Subarray(a, ra), Subarray(b, rb));
  }

  ghost function GroupsUnder(m: BlockMap, i: nat): seq<Group>
    requires i < |m.supers| && FirstGroup(m.supers, i) + m.supers[i].groupCount <= |m.groups|
  {
    m.groups[FirstGroup(m.supers, i)..FirstGroup(m.supers, i) + m.supers[i].groupCount]
  }

  lemma GroupsUnderParsed(buf: bytes, m: BlockMap, i: nat)
    requires Parsed(buf, m) && i < |m.supers|
    ensures FirstGroup(m.supers, i) + m.supers[i].groupCount <= |m.groups|
    ensures var entries := Subarray(buf, GroupEntryRangesOf(m.header, m.supers)[i]);
            |entries| == m.supers[i].groupCount * GROUP_SIZE && GroupsAt(entries, 0, m.supers[i].groupCount) == GroupsUnder(m, i)
  {
    hide GroupEntryRangesOf, Parsed, GroupsAt;
    EntryRangeParsesAlone(buf, m, i);
  }

  /** So they hold the same groups, in the same order. */
  lemma EqualSupersEqualGroups(h: bytes -> Hash8, a: bytes, ma: BlockMap, i: nat, b: bytes, mb: BlockMap, j: nat, inputs: set<bytes>)
    requires Genuine(h, a, ma) && Genuine(h, b, mb) && i < |ma.supers| && j < |mb.supers| && ma.supers[i].hash == mb.supers[j].hash
    requires CollisionFree(h, inputs) && Inputs(a, ma) <= inputs && Inputs(b, mb) <= inputs
    ensures FirstGroup(ma.supers, i) + ma.supers[i].groupCount <= |ma.groups| && FirstGroup(mb.supers, j) + mb.supers[j].groupCount <= |mb.groups|
    ensures GroupsUnder(ma, i) == GroupsUnder(mb, j)
  {
    hide GroupEntryRangesOf, Parsed, Verified, CollisionFree, GroupsAt, HashInputs, FirstGroup;
    EqualSupers(h, a, ma, i, b, mb, j, inputs);
    GroupsUnderParsed(a, ma, i);
    GroupsUnderParsed(b, mb, j);
  }

  /** Equal groups of two genuine maps hold the same records. */
  lemma EqualGroups(h: bytes -> Hash8, a: bytes, ma: BlockMap, i: nat, b: bytes, mb: BlockMap, j: nat, inputs: set<bytes>)
    requires Genuine(h, a, ma) && Genuine(h, b, mb) && i < |ma.groups| && j < |mb.groups| && ma.groups[i].hash == mb.groups[j].hash
    requires CollisionFree(h, inputs) && Inputs(a, ma) <= inputs && Inputs(b, mb) <= inputs
    ensures Subarray(a, RecordRangesOf(ma.header, ma.groups)[i]) == Subarray(b, RecordRangesOf(mb.header, mb.groups)[j])
  {
    var ra, rb := RecordRangesOf(ma.header, ma.groups)[i], RecordRangesOf(mb.header, mb.groups)[j];
    assert GroupVerifies(h, a, ra, ma.groups[i]);
    assert GroupVerifies(h, b, rb, mb.groups[j]);
    hide RecordRangesOf, Parsed, GroupsVerify, SupersVerify, CollisionFree, ParseRecords, HasEmptyBlock, RecordSizes;
    SameHashSameBytes(h, inputs, Subarray(a, ra), Subarray(b, rb));
  }

  /** The records of group t of super-group i. */
  ghost function RecordsUnder(buf: bytes, m: BlockMap, i: nat, t: nat): bytes
    requires i < |m.supers| && FirstGroup(m.supers, i) + m.supers[i].groupCount <= |m.groups| && t < m.supers[i].groupCount
  {
    Subarray(buf, RecordRangesOf(m.header, m.groups)[FirstGroup(m.supers, i) + t])
  }

  /**
   Super-groups of two genuine maps with equal hashes hold equal groups in the same order, and each of these groups holds
   equal records.
   */
  lemma EqualSupersEqualContent(h: bytes -> Hash8, a: bytes, ma: BlockMap, i: nat, b: bytes, mb: BlockMap, j: nat)
    requires Genuine(h, a, ma) && Genuine(h, b, mb) && i < |ma.supers| && j < |mb.supers| && ma.supers[i].hash == mb.supers[j].hash
    requires CollisionFree(h, Inputs(a, ma) + Inputs(b, mb))
    ensures FirstGroup(ma.supers, i) + ma.supers[i].groupCount <= |ma.groups| && FirstGroup(mb.supers, j) + mb.supers[j].groupCount <= |mb.groups|
    ensures GroupsUnder(ma, i) == GroupsUnder(mb, j) && ma.supers[i].groupCount == mb.supers[j].groupCount
    ensures forall t :: 0 <= t < ma.supers[i].groupCount ==> RecordsUnder(a, ma, i, t) == RecordsUnder(b, mb, j, t)
  {
    hide Genuine, CollisionFree, Inputs, FirstGroup, RecordRangesOf, Subarray;
    var inputs := Inputs(a, ma) + Inputs(b, mb);
    EqualSupersEqualGroups(h, a, ma, i, b, mb, j, inputs);
    assert |GroupsUnder(ma, i)| == |GroupsUnder(mb, j)|;
    forall t | 0 <= t < ma.supers[i].groupCount ensures RecordsUnder(a, ma, i, t) == RecordsUnder(b, mb, j, t) {
      assert GroupsUnder(ma, i)[t] == GroupsUnder(mb, j)[t];
      EqualGroups(h, a, ma, FirstGroup(ma.supers, i) + t, b, mb, FirstGroup(mb.supers, j) + t, inputs);
    }
  }

  // ---- the copies of a genuine old map are right

  lemma GenuineBasics(h: bytes -> Hash8, buf: bytes, m: BlockMap)
    requires Genuine(h, buf, m)
    ensures Sum(GroupCounts(m.supers)) == |m.groups|
    ensures RangesInFile(GroupEntryRangesOf(m.header, m.supers), GroupTableStart(m.header), |buf|)
    ensures RangesInFile(RecordRangesOf(m.header, m.groups), RecordsStart(m.header), |buf|)
    ensures RecordsStart(m.header) <= |buf| && GroupTableStart(m.header) <= RecordsStart(m.header)
  {
    RangesTile(buf, m);
    PartitionsInOrder(GroupEntryRangesOf(m.header, m.supers), GroupTableStart(m.header), RecordsStart(m.header));
    PartitionsInOrder(RecordRangesOf(m.header, m.groups), RecordsStart(m.header), |buf|);
  }

  /** Ranges in order between two offsets. */
  ghost predicate RangesInFile(ranges: seq<Range>, lo: nat, hi: nat) {
    InOrder(ranges) && forall k :: 0 <= k < |ranges| ==> lo <= ranges[k].start <= ranges[k].end <= hi
  }

  lemma {:induction false} PartitionsInOrder(ranges: seq<Range>, lo: nat, hi: nat)
    requires Partitions(ranges, lo, hi)
    ensures RangesInFile(ranges, lo, hi)
    decreases |ranges|
  {
    if ranges != [] {
      PartitionsTail(ranges, lo, hi);
      PartitionsInOrder(ranges[1..], ranges[0].end, hi);
      forall k | 0 <= k < |ranges| ensures lo <= ranges[k].start && (k > 0 ==> ranges[0].end <= ranges[k].start) {
        if k > 0 {
          assert ranges[k] == ranges[1..][k - 1];
        }
      }
      forall j, k | 0 <= j < k < |ranges| ensures ranges[j].end <= ranges[k].start {
        if j > 0 {
          assert ranges[j] == ranges[1..][j - 1] && ranges[k] == ranges[1..][k - 1];
        }
      }
    }
  }

  lemma SuperSourcesAgree(h: bytes -> Hash8, oldData: bytes, oldMap: BlockMap, remote: bytes, newMap: BlockMap, superMatch: seq<int>, inputs: set<bytes>)
    requires Genuine(h, oldData, oldMap) && Genuine(h, remote, newMap)
    requires CollisionFree(h, inputs) && Inputs(oldData, oldMap) <= inputs && Inputs(remote, newMap) <= inputs
    requires |superMatch| == |newMap.supers|
    requires forall k :: 0 <= k < |superMatch| ==> superMatch[k] == IndexOfFirst(oldMap.supers, newMap.supers[k])
    ensures SourcesAgree(oldData, GroupEntryRangesOf(oldMap.header, oldMap.supers), remote, GroupEntryRangesOf(newMap.header, newMap.supers), superMatch)
  {
    hide GroupEntryRangesOf, Genuine, CollisionFree, Inputs, InOrder;
    GenuineBasics(h, remote, newMap);
    var ranges := GroupEntryRangesOf(newMap.header, newMap.supers);
    forall k | 0 <= k < |superMatch| && superMatch[k] >= 0
      ensures superMatch[k] < |oldMap.supers|
      ensures Subarray(oldData, GroupEntryRangesOf(oldMap.header, oldMap.supers)[superMatch[k]]) == remote[ranges[k].start..ranges[k].end]
    {
      EqualSupers(h, oldData, oldMap, superMatch[k], remote, newMap, k, inputs);
    }
  }

  /** Every planned group match names an equal group of the old map. */
  lemma PlannedMatchesAreEqual(h: bytes -> Hash8, oldData: bytes, oldMap: BlockMap, remote: bytes, newMap: BlockMap, superMatch: seq<int>, groupMatch: seq<int>,
                               g: nat, inputs: set<bytes>)
    requires Genuine(h, oldData, oldMap) && Genuine(h, remote, newMap)
    requires CollisionFree(h, inputs) && Inputs(oldData, oldMap) <= inputs && Inputs(remote, newMap) <= inputs
    requires |superMatch| == |newMap.supers| && |groupMatch| == |newMap.groups|
    requires forall k :: 0 <= k < |superMatch| ==> superMatch[k] == IndexOfFirst(oldMap.supers, newMap.supers[k])
    requires MatchedAsPlanned(oldMap, newMap.supers, newMap.groups, superMatch, groupMatch)
    requires g < |groupMatch| && groupMatch[g] >= 0
    ensures groupMatch[g] < |oldMap.groups| && oldMap.groups[groupMatch[g]] == newMap.groups[g]
  {
    hide Genuine, CollisionFree, Inputs, FirstGroup;
    GenuineBasics(h, remote, newMap);
    var s, i := OwnerOf(newMap.supers, |newMap.groups|, g);
    assert PlannedAt(oldMap, newMap.supers, newMap.groups, superMatch, groupMatch, s, i);
    if superMatch[s] >= 0 {
      EqualSupersEqualGroups(h, oldData, oldMap, superMatch[s], remote, newMap, s, inputs);
      assert GroupsUnder(oldMap, superMatch[s])[i] == GroupsUnder(newMap, s)[i];
    }
  }

  /** Which super-group a group belongs to, and its position there. */
  lemma OwnerOf(supers: seq<Super>, total: nat, g: nat) returns (s: nat, i: nat)
    requires Sum(GroupCounts(supers)) == total && g < total
    ensures s < |supers| && i < supers[s].groupCount && FirstGroup(supers, s) + i == g
  {
    AllGroupsPlanned(supers);
    s := 0;
    while s + 1 <= |supers| && FirstGroup(supers, s + 1) <= g
      invariant s <= |supers| && FirstGroup(supers, s) <= g
      decreases |supers| - s
    {
      s := s + 1;
    }
    NextFirstGroup(supers, s, total);
    i := g - FirstGroup(supers, s);
  }

  lemma GroupSourcesAgree(h: bytes -> Hash8, oldData: bytes, oldMap: BlockMap, remote: bytes, newMap: BlockMap, superMatch: seq<int>, groupMatch: seq<int>, inputs: set<bytes>)
    requires Genuine(h, oldData, oldMap) && Genuine(h, remote, newMap)
    requires CollisionFree(h, inputs) && Inputs(oldData, oldMap) <= inputs && Inputs(remote, newMap) <= inputs
    requires |superMatch| == |newMap.supers| && |groupMatch| == |newMap.groups|
    requires forall k :: 0 <= k < |superMatch| ==> superMatch[k] == IndexOfFirst(oldMap.supers, newMap.supers[k])
    requires MatchedAsPlanned(oldMap, newMap.supers, newMap.groups, superMatch, groupMatch)
    ensures SourcesAgree(oldData, RecordRangesOf(oldMap.header, oldMap.groups), remote, RecordRangesOf(newMap.header, newMap.groups), groupMatch)
  {
    hide RecordRangesOf, GroupEntryRangesOf, Genuine, CollisionFree, Inputs, InOrder, MatchedAsPlanned;
    GenuineBasics(h, remote, newMap);
    var ranges := RecordRangesOf(newMap.header, newMap.groups);
    forall k | 0 <= k < |groupMatch| && groupMatch[k] >= 0
      ensures groupMatch[k] < |oldMap.groups|
      ensures Subarray(oldData, RecordRangesOf(oldMap.header, oldMap.groups)[groupMatch[k]]) == remote[ranges[k].start..ranges[k].end]
    {
      PlannedMatchesAreEqual(h, oldData, oldMap, remote, newMap, superMatch, groupMatch, k, inputs);
      EqualGroups(h, oldData, oldMap, groupMatch[k], remote, newMap, k, inputs);
    }
  }

  // ---- one stage

  /** The ranges lie behind the bytes in hand. */
  ghost predicate StartsBehind(ranges: seq<Range>, prefetched: nat) {
    forall m :: 0 <= m < |ranges| ==> ranges[m].start >= prefetched
  }

  /** What is asked for: what is missing of the ranges nothing was matched to, merged across gaps of up to 1024 bytes. */
  ghost predicate AsksFor(ranges: seq<Range>, matches: seq<int>, prefetched: nat, asked: seq<Range>) {
    |matches| <= |ranges| && exists fetch :: FetchesUnmatched(ranges, matches, prefetched, fetch) && Coalesced(fetch, 1024, asked)
  }

  lemma AsksCoalesced(ranges: seq<Range>, matches: seq<int>, prefetched: nat, fetch: seq<Range>, asked: seq<Range>)
    requires |matches| <= |ranges| && FetchesUnmatched(ranges, matches, prefetched, fetch) && Coalesced(fetch, COALESCE_GAP_BYTES, asked)
    ensures AsksFor(ranges, matches, prefetched, asked)
  {
    hide FetchesUnmatched, Coalesced;
  }

  lemma NothingMissing(ranges: seq<Range>, matches: seq<int>, prefetched: nat, part: Range)
    requires |matches| <= |ranges| && forall k :: 0 <= k < |matches| ==> matches[k] >= 0
    ensures !InUnmatched(ranges, matches, prefetched, part)
  {
  }

  lemma NoRanges(lo: nat, hi: nat, prefetched: nat)
    ensures RangesInFile([], lo, hi) && StartsBehind([], prefetched)
  {
  }

  /** When everything is matched, nothing is asked for. */
  lemma NothingAsked(ranges: seq<Range>, matches: seq<int>, prefetched: nat, asked: seq<Range>)
    requires AsksFor(ranges, matches, prefetched, asked) && forall k :: 0 <= k < |matches| ==> matches[k] >= 0
    ensures asked == []
  {
    hide InOrder, Covered, AllCovered, Gapped, NoWideGap, AllSpanned;
    var fetch :| FetchesUnmatched(ranges, matches, prefetched, fetch) && Coalesced(fetch, 1024, asked);
    if fetch != [] {
      NothingMissing(ranges, matches, prefetched, fetch[0]);
    }
  }

  /** A fetched range lies inside the ranges it was planned from. */
  lemma FetchWithin(ranges: seq<Range>, matches: seq<int>, prefetched: nat, fetch: seq<Range>, lo: nat, hi: nat)
    requires RangesInFile(ranges, lo, hi) && |matches| <= |ranges| && FetchesUnmatched(ranges, matches, prefetched, fetch)
    ensures RangesInFile(fetch, lo, hi) && StartsBehind(fetch, prefetched)
  {
    hide Covered;
    forall m | 0 <= m < |fetch| ensures lo <= fetch[m].start <= fetch[m].end <= hi && fetch[m].start >= prefetched {
      assert InUnmatched(ranges, matches, prefetched, fetch[m]);
    }
  }

  lemma CoalescedWithin(fetch: seq<Range>, coalesced: seq<Range>, prefetched: nat, lo: nat, hi: nat)
    requires RangesInFile(fetch, lo, hi) && Coalesced(fetch, COALESCE_GAP_BYTES, coalesced)
    requires StartsBehind(fetch, prefetched)
    ensures RangesInFile(coalesced, lo, hi) && StartsBehind(coalesced, prefetched)
  {
    hide AllCovered, Gapped, NoWideGap;
    forall m | 0 <= m < |coalesced| ensures lo <= coalesced[m].start <= coalesced[m].end <= hi && coalesced[m].start >= prefetched {
      assert Spanned(coalesced[m], fetch);
      var i, j :| 0 <= i <= j < |fetch| && coalesced[m].start == fetch[i].start && coalesced[m].end == fetch[j].end;
    }
  }

  /** What is missing of a range is in one of the coalesced ranges. */
  lemma MissingIsFetched(ranges: seq<Range>, matches: seq<int>, prefetched: nat, fetch: seq<Range>, coalesced: seq<Range>, k: nat) returns (n: nat)
    requires |matches| <= |ranges| && FetchesUnmatched(ranges, matches, prefetched, fetch) && Coalesced(fetch, COALESCE_GAP_BYTES, coalesced)
    requires IsMissing(ranges, matches, prefetched, k)
    ensures n < |coalesced| && Within(MissingOf(ranges[k], prefetched), coalesced[n])
  {
    hide InOrder, InUnmatched, Gapped, NoWideGap, AllSpanned;
    var missing := MissingOf(ranges[k], prefetched);
    assert Covered(missing, fetch);
    var m :| 0 <= m < |fetch| && Within(missing, fetch[m]);
    assert Covered(fetch[m], coalesced);
    n :| 0 <= n < |coalesced| && Within(fetch[m], coalesced[n]);
  }

  /** After copying and fetching, every range of the stage holds the file's bytes. */
  lemma StageComplete(buf: bytes, file: bytes, ranges: seq<Range>, matches: seq<int>, prefetched: nat, fetch: seq<Range>, coalesced: seq<Range>, lo: nat, hi: nat)
    requires Partitions(ranges, lo, hi) && hi <= |buf| == |file| && |matches| == |ranges|
    requires FetchesUnmatched(ranges, matches, prefetched, fetch) && Coalesced(fetch, COALESCE_GAP_BYTES, coalesced)
    requires AgreeOn(buf, file, 0, prefetched) && MatchedAgree(buf, file, ranges, matches, |matches|)
    requires forall m :: 0 <= m < |coalesced| ==> AgreeOn(buf, file, coalesced[m].start, coalesced[m].end)
    ensures AgreeOn(buf, file, lo, hi)
  {
    hide FetchesUnmatched, Coalesced, Partitions;
    forall x | lo <= x < hi ensures buf[x] == file[x] {
      var k := GroupOf(ranges, lo, hi, x);
      var r := ranges[k];
      if matches[k] < 0 && x >= prefetched {
        var n := MissingIsFetched(ranges, matches, prefetched, fetch, coalesced, k);
        assert AgreeOn(buf, file, coalesced[n].start, coalesced[n].end);
      }
    }
  }

  /**
   Copy what the old map has, fetch the rest: one of the two stages. The server has the first `available` bytes of
   `remote`; a range that ends behind them is refused.
   */
  method FillStage(oldData: bytes, oldRanges: seq<Range>, ranges: seq<Range>, matches: seq<int>, fetch: seq<Range>, remote: bytes, available: nat, prefetched: nat,
                   buffer: array<byte>, answer: Answer, ghost lo: nat, ghost hi: nat)
    returns (outcome: Answer, asked: seq<Range>)
    requires Partitions(ranges, lo, hi) && lo <= hi <= buffer.Length == |remote| && |matches| == |ranges|
    requires forall k :: 0 <= k < |matches| ==> -1 <= matches[k] < |oldRanges|
    requires FetchesUnmatched(ranges, matches, prefetched, fetch)
    modifies buffer
    ensures buffer[..lo] == old(buffer[..lo])
    ensures AsksFor(ranges, matches, prefetched, asked) && RangesInFile(asked, lo, hi) && StartsBehind(asked, prefetched)
    ensures outcome == Partial || outcome == answer || available < |remote|
    ensures outcome == Whole ==> answer == Whole
    ensures outcome == Partial && SourcesAgree(oldData, oldRanges, remote, ranges, matches) && AgreeOn(old(buffer[..]), remote, 0, prefetched) ==>
              AgreeOn(buffer[..], remote, lo, hi) && AgreeOn(buffer[..], remote, 0, prefetched)
  {
    hide Partitions, FetchesUnmatched, Coalesced, SourcesAgree;
    PartitionsInOrder(ranges, lo, hi);
    ghost var initial := buffer[..];
    CopyMatched(oldData, oldRanges, ranges, matches, buffer, remote, prefetched, lo);
    FetchWithin(ranges, matches, prefetched, fetch, lo, hi);
    asked := Coalesce(fetch, COALESCE_GAP_BYTES);
    CoalescedWithin(fetch, asked, prefetched, lo, hi);
    AsksCoalesced(ranges, matches, prefetched, fetch, asked);
    if asked != [] && answer != Partial {
      outcome := answer;
      return;
    }
    if exists k :: 0 <= k < |asked| && asked[k].end > available {
      outcome := Refused;
      return;
    }
    outcome := Partial;
    FetchRanges(remote, asked, buffer, lo);
    if SourcesAgree(oldData, oldRanges, remote, ranges, matches) && AgreeOn(initial, remote, 0, prefetched) {
      StageComplete(buffer[..], remote, ranges, matches, prefetched, fetch, asked, lo, hi);
    }
  }

  /** Stage 3 asks for what the old map has no equal group for; groups of matched super-groups are not looked at. */
  ghost predicate AsksForRecords(oldMap: BlockMap, header: Header, supers: seq<Super>, groups: seq<Group>, superMatch: seq<int>, prefetched: nat, asked: seq<Range>)
    requires |superMatch| == |supers|
  {
    exists groupMatch: seq<int> ::
      && |groupMatch| == |groups| && MatchedAsPlanned(oldMap, supers, groups, superMatch, groupMatch)
      && AsksFor(RecordRangesOf(header, groups), groupMatch, prefetched, asked)
  }

  /** When every super-group has an equal one in the old map, no record is asked for. */
  lemma NoRecordsAsked(oldMap: BlockMap, header: Header, supers: seq<Super>, groups: seq<Group>, superMatch: seq<int>, prefetched: nat, asked: seq<Range>)
    requires Sum(GroupCounts(supers)) == |groups| && |superMatch| == |supers| && forall k :: 0 <= k < |supers| ==> superMatch[k] >= 0
    requires forall k :: 0 <= k < |supers| ==> superMatch[k] < |oldMap.supers|
    requires AsksForRecords(oldMap, header, supers, groups, superMatch, prefetched, asked)
    ensures asked == []
  {
    hide FirstGroup, AsksFor, RecordRangesOf;
    var groupMatch: seq<int> :|
      && |groupMatch| == |groups| && MatchedAsPlanned(oldMap, supers, groups, superMatch, groupMatch)
      && AsksFor(RecordRangesOf(header, groups), groupMatch, prefetched, asked);
    forall g | 0 <= g < |groupMatch| ensures groupMatch[g] >= 0 {
      var s, i := OwnerOf(supers, |groups|, g);
      assert PlannedAt(oldMap, supers, groups, superMatch, groupMatch, s, i);
    }
    NothingAsked(RecordRangesOf(header, groups), groupMatch, prefetched, asked);
  }

  // ---- the fetch

  lemma SuperOfPrefix(remote: bytes, count: nat, at: nat)
    requires at + SUPER_SIZE <= count <= |remote|
    ensures SuperAt(remote[..count], at) == SuperAt(remote, at)
  {
    SubSlice(remote, 0, count, at, at + 8);
    SubSlice(remote, 0, count, at + 8, at + 12);
    SubSlice(remote, 0, count, at + 12, at + 14);
  }

  lemma SupersAtPrefix(remote: bytes, count: nat, at: nat, n: nat)
    requires at + n * SUPER_SIZE <= count <= |remote|
    ensures SupersAt(remote[..count], at, n) == SupersAt(remote, at, n)
  {
    hide SuperAt;
    forall i | 0 <= i < n ensures SuperAt(remote[..count], at + i * SUPER_SIZE) == SuperAt(remote, at + i * SUPER_SIZE) {
      SuperOfPrefix(remote, count, at + i * SUPER_SIZE);
    }
  }

  /** A stage-2 buffer with the right group table parses to the published groups. */
  lemma SameTableSameGroups(buf: bytes, remote: bytes, m: BlockMap)
    requires |buf| == |remote| && Parsed(remote, m) && AgreeOn(buf, remote, GroupTableStart(m.header), RecordsStart(m.header))
    ensures ParseGroups(m.header, buf) == Success(m.groups)
  {
    hide GroupAt;
    SameBytesSameGroups(buf, remote, GroupTableStart(m.header), m.header.groupCount);
  }

  /** The old map's hashes are those of its bytes, and the hash collides on nothing the two maps hash. */
  ghost predicate Trusted(h: bytes -> Hash8, oldData: bytes, oldMap: BlockMap, remote: bytes, newMap: BlockMap) {
    && Genuine(h, oldData, oldMap) && Genuine(h, remote, newMap)
    && CollisionFree(h, Inputs(oldData, oldMap) + Inputs(remote, newMap))
  }

  lemma PrefixKept(before: bytes, after: bytes, file: bytes, x: nat)
    requires x <= |before| == |after| && before[..x] == after[..x] && AgreeOn(before, file, 0, x)
    ensures AgreeOn(after, file, 0, x)
  {
    forall j | 0 <= j < x ensures after[j] == file[j] {
      assert after[j] == after[..x][j] == before[..x][j];
    }
  }

  lemma TrustedSuperSources(h: bytes -> Hash8, oldData: bytes, oldMap: BlockMap, remote: bytes, newMap: BlockMap, superMatch: seq<int>)
    requires Trusted(h, oldData, oldMap, remote, newMap) && |superMatch| == |newMap.supers|
    requires forall k :: 0 <= k < |superMatch| ==> superMatch[k] == IndexOfFirst(oldMap.supers, newMap.supers[k])
    ensures SourcesAgree(oldData, GroupEntryRangesOf(oldMap.header, oldMap.supers), remote, GroupEntryRangesOf(newMap.header, newMap.supers), superMatch)
  {
    hide Genuine, Inputs, GroupEntryRangesOf, CollisionFree, IndexOfFirst, SourcesAgree;
    SuperSourcesAgree(h, oldData, oldMap, remote, newMap, superMatch, Inputs(oldData, oldMap) + Inputs(remote, newMap));
  }

  /** The file is a genuine map with this header and super-group table. */
  ghost predicate IsMapOf(h: bytes -> Hash8, file: bytes, header: Header, supers: seq<Super>, m: BlockMap) {
    Genuine(h, file, m) && header == m.header && supers == m.supers
  }

  lemma EntryRangesTile(header: Header, supers: seq<Super>)
    requires CheckSupers(header, supers).None?
    ensures Partitions(GroupEntryRangesOf(header, supers), GroupTableStart(header), RecordsStart(header))
    ensures RangesInFile(GroupEntryRangesOf(header, supers), GroupTableStart(header), RecordsStart(header))
  {
    SupersTile(header, supers);
    PartitionsInOrder(GroupEntryRangesOf(header, supers), GroupTableStart(header), RecordsStart(header));
  }

  /** Header and super-group table in hand, stage 2 fills the group table. */
  method StageTwo(h: bytes -> Hash8, oldData: bytes, oldMap: BlockMap, file: bytes, available: nat, header: Header, supers: seq<Super>, prefetched: nat,
                  answer: Answer, ghost newMap: BlockMap)
    returns (buffer: array<byte>, superMatch: seq<int>, outcome: Answer, asked: seq<Range>)
    requires CheckSupers(header, supers).None? && |file| == MapSize(header)
    requires GroupTableStart(header) <= prefetched <= |file|
    ensures fresh(buffer) && buffer.Length == |file|
    ensures |superMatch| == |supers| && forall k :: 0 <= k < |supers| ==> superMatch[k] == IndexOfFirst(oldMap.supers, supers[k])
    ensures AsksFor(GroupEntryRangesOf(header, supers), superMatch, prefetched, asked)
    ensures RangesInFile(asked, GroupTableStart(header), RecordsStart(header)) && StartsBehind(asked, prefetched)
    ensures AgreeOn(buffer[..], file, 0, GroupTableStart(header))
    ensures outcome == Partial || outcome == answer || available < |file|
    ensures outcome == Whole ==> answer == Whole
    ensures outcome == Partial && Trusted(h, oldData, oldMap, file, newMap) && IsMapOf(h, file, header, supers, newMap) ==>
              AgreeOn(buffer[..], file, GroupTableStart(header), RecordsStart(header)) && AgreeOn(buffer[..], file, 0, prefetched)
  {
    hide Genuine, Trusted, Inputs, GroupEntryRangesOf, Partitions, SourcesAgree, FetchesUnmatched, IndexOfFirst, CheckSupers, AsksFor, RangesInFile, StartsBehind;
    EntryRangesTile(header, supers);
    buffer := Alloc(|file|);
    CopyInto(buffer, 0, file[..prefetched]);
    assert AgreeOn(buffer[..], file, 0, prefetched);
    var fetch;
    superMatch, fetch := PlanSuperStage(oldMap, header, supers, prefetched);
    var oldRanges := GroupEntryRanges(oldMap.header, oldMap.supers);
    var ranges := GroupEntryRanges(header, supers);
    if Trusted(h, oldData, oldMap, file, newMap) && IsMapOf(h, file, header, supers, newMap) {
      TrustedSuperSources(h, oldData, oldMap, file, newMap, superMatch);
    }
    ghost var before := buffer[..];
    outcome, asked := FillStage(oldData, oldRanges, ranges, superMatch, fetch, file, available, prefetched, buffer, answer, GroupTableStart(header), RecordsStart(header));
    PrefixKept(before, buffer[..], file, GroupTableStart(header));
  }

  /** Group table in hand, stage 3 fills the records. */
  method StageThree(h: bytes -> Hash8, oldData: bytes, oldMap: BlockMap, file: bytes, available: nat, header: Header, supers: seq<Super>, groups: seq<Group>,
                    superMatch: seq<int>, prefetched: nat, buffer: array<byte>, answer: Answer, ghost newMap: BlockMap)
    returns (outcome: Answer, asked: seq<Range>)
    requires Parsed(oldData, oldMap) && buffer.Length == |file| == MapSize(header)
    requires CheckSupers(header, supers).None? && CheckGroups(header, groups).None? && |groups| == header.groupCount
    requires |superMatch| == |supers| && forall k :: 0 <= k < |supers| ==> superMatch[k] == IndexOfFirst(oldMap.supers, supers[k])
    modifies buffer
    ensures buffer[..RecordsStart(header)] == old(buffer[..RecordsStart(header)])
    ensures AsksForRecords(oldMap, header, supers, groups, superMatch, prefetched, asked)
    ensures RangesInFile(asked, RecordsStart(header), |file|) && StartsBehind(asked, prefetched)
    ensures outcome == Partial || outcome == answer || available < |file|
    ensures outcome == Whole ==> answer == Whole
    ensures outcome == Partial && Trusted(h, oldData, oldMap, file, newMap) && IsMapOf(h, file, header, supers, newMap) && groups == newMap.groups
            && AgreeOn(old(buffer[..]), file, 0, prefetched) ==>
              AgreeOn(buffer[..], file, RecordsStart(header), |file|)
  {
    TablesTile(header, supers, groups);
    PartitionsInOrder(RecordRangesOf(header, groups), RecordsStart(header), MapSize(header));
    var groupMatch, fetch := PlanRecordStage(oldMap, header, supers, groups, superMatch, prefetched);
    GroupSourcesExist(oldData, oldMap, supers, groups, superMatch, groupMatch);
    hide Parsed, Genuine, CollisionFree, Inputs, RecordRangesOf, Partitions, InOrder, SourcesAgree, FetchesUnmatched, MatchedAsPlanned, CheckSupers, CheckGroups,
         AsksFor, RangesInFile, StartsBehind;
    var oldRanges := RecordRanges(oldMap.header, oldMap.groups);
    var ranges := RecordRanges(header, groups);
    if Trusted(h, oldData, oldMap, file, newMap) && IsMapOf(h, file, header, supers, newMap) && groups == newMap.groups {
      GroupSourcesAgree(h, oldData, oldMap, file, newMap, superMatch, groupMatch, Inputs(oldData, oldMap) + Inputs(file, newMap));
    }
    outcome, asked := FillStage(oldData, oldRanges, ranges, groupMatch, fetch, file, available, prefetched, buffer, answer, RecordsStart(header), MapSize(header));
  }

  /** Every planned source is a group of the old map, whatever its hashes are worth. */
  lemma GroupSourcesExist(oldData: bytes, oldMap: BlockMap, supers: seq<Super>, groups: seq<Group>, superMatch: seq<int>, groupMatch: seq<int>)
    requires Parsed(oldData, oldMap) && Sum(GroupCounts(supers)) == |groups| == |groupMatch|
    requires |superMatch| == |supers| && forall k :: 0 <= k < |supers| ==> superMatch[k] == IndexOfFirst(oldMap.supers, supers[k])
    requires MatchedAsPlanned(oldMap, supers, groups, superMatch, groupMatch)
    ensures forall g :: 0 <= g < |groupMatch| ==> -1 <= groupMatch[g] < |oldMap.groups|
  {
    forall g | 0 <= g < |groupMatch| ensures -1 <= groupMatch[g] < |oldMap.groups| {
      var s, i := OwnerOf(supers, |groups|, g);
      assert PlannedAt(oldMap, supers, groups, superMatch, groupMatch, s, i);
      if superMatch[s] >= 0 {
        NextFirstGroup(oldMap.supers, superMatch[s], |oldMap.groups|);
      }
    }
  }

  /** The map a buffer of the right size holds under a header. */
  ghost function MapOf(buf: bytes, header: Header): (m: BlockMap)
    requires |buf| == MapSize(header)
  {
    BlockMap(header, SupersAt(buf, header.headerLen, header.superCount), GroupsAt(buf, GroupTableStart(header), header.groupCount),
             RecordsAt(buf, RecordsStart(header), header.blockCount))
  }

  lemma GenuineIsParsed(h: bytes -> Hash8, buf: bytes, m: BlockMap)
    requires Genuine(h, buf, m)
    ensures Parsed(buf, m) && Verified(h, buf, m.header, m.supers, m.groups) && |buf| == MapSize(m.header)
    ensures CheckSupers(m.header, m.supers).None? && CheckGroups(m.header, m.groups).None?
    ensures m.groups == GroupsAt(buf, GroupTableStart(m.header), m.header.groupCount) && m.supers == SupersAt(buf, m.header.headerLen, m.header.superCount)
  {
  }

  lemma TrustedIsGenuine(h: bytes -> Hash8, oldData: bytes, oldMap: BlockMap, remote: bytes, newMap: BlockMap)
    requires Trusted(h, oldData, oldMap, remote, newMap)
    ensures Genuine(h, remote, newMap)
  {
  }

  /** Stage 3 leaves the group table alone, so the groups are those of the final buffer. */
  lemma GroupsKept(before: bytes, after: bytes, header: Header)
    requires RecordsStart(header) <= |before| == |after| && before[..RecordsStart(header)] == after[..RecordsStart(header)]
    ensures GroupsAt(before, GroupTableStart(header), header.groupCount) == GroupsAt(after, GroupTableStart(header), header.groupCount)
  {
    PrefixKept(before, after, before, RecordsStart(header));
    SameBytesSameGroups(before, after, GroupTableStart(header), header.groupCount);
  }

  /** Stage 4: what verification makes of the assembled bytes. */
  method VerifyAssembled(h: bytes -> Hash8, buffer: bytes, file: bytes, header: Header, supers: seq<Super>, groups: seq<Group>, ghost newMap: BlockMap)
    returns (ok: bool)
    requires |buffer| == |file| == MapSize(header) && AgreeOn(buffer, file, 0, GroupTableStart(header))
    requires groups == GroupsAt(buffer, GroupTableStart(header), header.groupCount)
    ensures ok <==> Verified(h, buffer, header, supers, groups)
    ensures IsMapOf(h, file, header, supers, newMap) && buffer == file ==> ok
    ensures ok && IsMapOf(h, file, header, supers, newMap) && CollisionFree(h, HashInputs(buffer, header, supers, groups) + Inputs(file, newMap))
            ==> buffer == file
  {
    hide Parsed, Genuine, CollisionFree, GroupsAt, Verified, HashInputs;
    ok := VerifyBlockMapV3(h, buffer, header, supers, groups);
    if IsMapOf(h, file, header, supers, newMap) {
      GenuineIsParsed(h, file, newMap);
      if ok && CollisionFree(h, HashInputs(buffer, header, supers, groups) + Inputs(file, newMap)) {
        VerifiedMapsAgree(h, header, supers, buffer, file, groups, newMap.groups);
      }
    }
  }

  /** What stage 2 leaves behind when the old map is trusted. */
  ghost predicate StageTwoRight(h: bytes -> Hash8, oldData: bytes, oldMap: BlockMap, file: bytes, header: Header, supers: seq<Super>, newMap: BlockMap,
                                buf: bytes, prefetched: nat) {
    && Trusted(h, oldData, oldMap, file, newMap) && IsMapOf(h, file, header, supers, newMap)
    && AgreeOn(buf, file, 0, prefetched)
    && AgreeOn(buf, file, 0, RecordsStart(header))
  }

  /** The groups of a stage-2 buffer, or an error in its group table; a right one has none. */
  method GroupsOfAssembled(h: bytes -> Hash8, buf: bytes, file: bytes, header: Header, ghost newMap: BlockMap) returns (groups: seq<Group>, ok: bool)
    requires |buf| == |file| == MapSize(header)
    ensures ok ==> groups == GroupsAt(buf, GroupTableStart(header), header.groupCount) && CheckGroups(header, groups).None?
    ensures Genuine(h, file, newMap) && header == newMap.header && AgreeOn(buf, file, 0, RecordsStart(header)) ==> ok && groups == newMap.groups
  {
    hide Parsed, Genuine, GroupsAt, CheckGroups, Verified, CheckSupers;
    if Genuine(h, file, newMap) && header == newMap.header && AgreeOn(buf, file, 0, RecordsStart(header)) {
      GenuineIsParsed(h, file, newMap);
      SameTableSameGroups(buf, file, newMap);
    }
    var parsed := ParseBlockMapV3Groups(header, buf);
    groups := parsed.value;
    var error := CheckBlockMapV3Groups(header, groups);
    ok := error.None?;
  }

  /** Stage 3 on a buffer whose groups are known: table and header stay, the records follow. */
  method FinishRecords(h: bytes -> Hash8, oldData: bytes, oldMap: BlockMap, file: bytes, available: nat, header: Header, supers: seq<Super>, groups: seq<Group>,
                       superMatch: seq<int>, prefetched: nat, assembled: array<byte>, answer: Answer, ghost newMap: BlockMap)
    returns (outcome: Answer, asked: seq<Range>)
    requires Parsed(oldData, oldMap) && CheckSupers(header, supers).None? && CheckGroups(header, groups).None?
    requires |superMatch| == |supers| && forall k :: 0 <= k < |supers| ==> superMatch[k] == IndexOfFirst(oldMap.supers, supers[k])
    requires assembled.Length == |file| == MapSize(header) && AgreeOn(assembled[..], file, 0, GroupTableStart(header))
    requires groups == GroupsAt(assembled[..], GroupTableStart(header), header.groupCount)
    modifies assembled
    ensures AgreeOn(assembled[..], file, 0, GroupTableStart(header))
    ensures groups == GroupsAt(assembled[..], GroupTableStart(header), header.groupCount)
    ensures AsksForRecords(oldMap, header, supers, groups, superMatch, prefetched, asked)
    ensures RangesInFile(asked, RecordsStart(header), |file|) && StartsBehind(asked, prefetched)
    ensures outcome == Partial || outcome == answer || available < |file|
    ensures outcome == Whole ==> answer == Whole
    ensures && outcome == Partial && groups == newMap.groups
            && StageTwoRight(h, oldData, oldMap, file, header, supers, newMap, old(assembled[..]), prefetched)
            ==> assembled[..] == file
  {
    hide Parsed, Genuine, CollisionFree, GroupsAt, CheckSupers, CheckGroups, Inputs, IndexOfFirst, Trusted, AsksForRecords, RangesInFile, StartsBehind;
    ghost var stage2 := assembled[..];
    outcome, asked := StageThree(h, oldData, oldMap, file, available, header, supers, groups, superMatch, prefetched, assembled, answer, newMap);
    ghost var stage3 := assembled[..];
    GroupsKept(stage2, stage3, header);
    PrefixKept(stage2, stage3, file, GroupTableStart(header));
    if StageTwoRight(h, oldData, oldMap, file, header, supers, newMap, stage2, prefetched) {
      PrefixKept(stage2, stage3, file, RecordsStart(header));
    }
  }

  /**
   What an assembled buffer is worth: it starts like the file up to its group table and is a genuine map of its header.
   If the file is one too, the buffer is the file, unless what one of the two hashes collides with what the other does.
   */
  ghost predicate IsWorth(h: bytes -> Hash8, buffer: bytes, file: bytes, header: Header, newMap: BlockMap) {
    && |buffer| == MapSize(header) && AgreeOn(buffer, file, 0, GroupTableStart(header))
    && Genuine(h, buffer, MapOf(buffer, header))
    && (Genuine(h, file, newMap) && header == newMap.header && CollisionFree(h, Inputs(buffer, MapOf(buffer, header)) + Inputs(file, newMap))
        ==> buffer == file)
  }

  lemma VerifiedIsGenuine(h: bytes -> Hash8, buffer: bytes, header: Header)
    requires |buffer| == MapSize(header)
    requires var m := MapOf(buffer, header);
             CheckSupers(header, m.supers).None? && CheckGroups(header, m.groups).None? && Verified(h, buffer, header, m.supers, m.groups)
    ensures Genuine(h, buffer, MapOf(buffer, header))
  {
    hide CheckSupers, CheckGroups, Verified;
  }

  /** Bytes that agree with the file up to the group table hold the same super-groups. */
  lemma SupersOfAgreeing(buf: bytes, file: bytes, header: Header)
    requires AgreeOn(buf, file, 0, GroupTableStart(header))
    ensures SupersAt(buf, header.headerLen, header.superCount) == SupersAt(file, header.headerLen, header.superCount)
  {
    hide SupersAt;
    var n := GroupTableStart(header);
    assert buf[..n] == file[..n];
    SupersAtPrefix(buf, n, header.headerLen, header.superCount);
    SupersAtPrefix(file, n, header.headerLen, header.superCount);
  }

  lemma GroupsOfSupers(header: Header, supers: seq<Super>, groups: seq<Group>)
    requires CheckSupers(header, supers).None? && |groups| == header.groupCount
    ensures Sum(GroupCounts(supers)) == |groups|
  {
  }

  /** Stages 3 and 4 on a buffer whose group table is in place. */
  method Complete(h: bytes -> Hash8, oldData: bytes, oldMap: BlockMap, file: bytes, available: nat, header: Header, supers: seq<Super>, superMatch: seq<int>,
                  prefetched: nat, assembled: array<byte>, answer: Answer, ghost newMap: BlockMap)
    returns (r: Fetched, asked: seq<Range>)
    requires Parsed(oldData, oldMap) && CheckSupers(header, supers).None?
    requires |superMatch| == |supers| && forall k :: 0 <= k < |supers| ==> superMatch[k] == IndexOfFirst(oldMap.supers, supers[k])
    requires assembled.Length == |file| == MapSize(header) && AgreeOn(assembled[..], file, 0, GroupTableStart(header))
    requires supers == SupersAt(file, header.headerLen, header.superCount)
    modifies assembled
    ensures && StageTwoRight(h, oldData, oldMap, file, header, supers, newMap, old(assembled[..]), prefetched) && answer != Refused && available >= |file|
            ==> r == Assembled(file) || r == WholeFile
    ensures r == WholeFile ==> answer == Whole
    ensures r.Assembled? ==> IsWorth(h, r.buffer, file, header, newMap)
    ensures RangesInFile(asked, RecordsStart(header), |file|) && StartsBehind(asked, prefetched)
    ensures (forall k :: 0 <= k < |supers| ==> superMatch[k] >= 0) ==> asked == []
  {
    hide Parsed, Genuine, CollisionFree, GroupsAt, SupersAt, RecordsAt, CheckSupers, CheckGroups, HashInputs, IndexOfFirst, Verified, Trusted, MapSize, AsksForRecords,
         RangesInFile, StartsBehind;
    asked := [];
    NoRanges(RecordsStart(header), |file|, prefetched);
    var groups, ok := GroupsOfAssembled(h, assembled[..], file, header, newMap);
    if !ok {
      r := Failed;
      return;
    }
    var outcome;
    outcome, asked := FinishRecords(h, oldData, oldMap, file, available, header, supers, groups, superMatch, prefetched, assembled, answer, newMap);
    if forall k :: 0 <= k < |supers| ==> superMatch[k] >= 0 {
      GroupsOfSupers(header, supers, groups);
      NoRecordsAsked(oldMap, header, supers, groups, superMatch, prefetched, asked);
    }
    if outcome != Partial {
      r := if outcome == Whole then WholeFile else Failed;
      return;
    }
    ok := VerifyAssembled(h, assembled[..], file, header, supers, groups, newMap);
    if !ok {
      r := Failed;
      return;
    }
    r := Assembled(assembled[..]);
    SupersOfAgreeing(r.buffer, file, header);
    VerifiedIsGenuine(h, r.buffer, header);
    if Genuine(h, file, newMap) && header == newMap.header {
      GenuineIsParsed(h, file, newMap);
    }
  }

  /**
   Header and super-group table in hand, assembles the map of this header using an old one. `file` is the map as far as
   the server has it, `available` bytes, padded to the size the header declares. With a genuine old map, a genuine new
   one and no collision between the two, the result is the file, unless the server sends the whole file instead.
   Whatever the old map and the server hold, a result is a genuine map of the header.
   */
  method FetchParts(h: bytes -> Hash8, oldData: bytes, oldMap: BlockMap, file: bytes, available: nat, header: Header, prefetched: nat,
                    entriesAnswer: Answer, recordsAnswer: Answer, ghost newMap: BlockMap)
    returns (r: Fetched, entries: seq<Range>, records: seq<Range>)
    requires Parsed(oldData, oldMap) && |file| == MapSize(header) && GroupTableStart(header) <= prefetched <= |file|
    ensures && Trusted(h, oldData, oldMap, file, newMap) && header == newMap.header && available >= |file|
            && entriesAnswer != Refused && recordsAnswer != Refused
            ==> r == Assembled(file) || r == WholeFile
    ensures r == WholeFile ==> Whole in {entriesAnswer, recordsAnswer}
    ensures r.Assembled? ==> IsWorth(h, r.buffer, file, header, newMap)
    ensures RangesInFile(entries, GroupTableStart(header), RecordsStart(header)) && StartsBehind(entries, prefetched)
    ensures RangesInFile(records, RecordsStart(header), |file|) && StartsBehind(records, prefetched)
    ensures (forall sup :: sup in SupersAt(file, header.headerLen, header.superCount) ==> sup in oldMap.supers) ==> entries == records == []
  {
    hide Parsed, Genuine, CollisionFree, GroupsAt, SupersAt, RecordsAt, CheckSupers, CheckGroups, Verified, Inputs, Trusted, IndexOfFirst, IsWorth, AsksFor, RangesInFile,
         StartsBehind, MapSize;
    entries, records := [], [];
    NoRanges(GroupTableStart(header), RecordsStart(header), prefetched);
    NoRanges(RecordsStart(header), |file|, prefetched);
    SupersAtPrefix(file, prefetched, header.headerLen, header.superCount);
    var parsedSupers := ParseBlockMapV3Supers(header, file[..prefetched]);
    var supers := parsedSupers.value;
    if Trusted(h, oldData, oldMap, file, newMap) && header == newMap.header {
      TrustedIsGenuine(h, oldData, oldMap, file, newMap);
      GenuineIsParsed(h, file, newMap);
    }
    var supersError := CheckBlockMapV3Supers(header, supers);
    if supersError.Some? {
      r := Failed;
      return;
    }
    var assembled, superMatch, outcome;
    assembled, superMatch, outcome, entries := StageTwo(h, oldData, oldMap, file, available, header, supers, prefetched, entriesAnswer, newMap);
    if forall sup :: sup in supers ==> sup in oldMap.supers {
      NothingAsked(GroupEntryRangesOf(header, supers), superMatch, prefetched, entries);
    }
    if outcome != Partial {
      r := if outcome == Whole then WholeFile else Failed;
      return;
    }
    r, records := Complete(h, oldData, oldMap, file, available, header, supers, superMatch, prefetched, assembled, recordsAnswer, newMap);
  }
}
