/**
 Fetching the published block map (fetchBlockMapV3): from a cached old map that decodes, the first part of the new map,
 then what the old map does not have; without one, or from a server that does not answer ranges, the whole file.
 The server holds the file `remote`; how it answers each kind of request is a parameter.
 */
module BlockMapUpdate {
  import opened BlockMapDecoder
  import opened BlockMapFetch
  import opened BlockMapIndex
  import opened BlockMapMerkle
  import opened BlockMapRoundTrip
  import opened BlockMapV3
  import opened BlockMapVerify
  import opened Bytes
  import opened Grouping
  import opened RangeCoalescing
  import opened Seqs
  import opened Wrappers

  const FIRST_RANGE_SIZE: nat := 64 * 1024
  const MIN_FIRST_RANGE_SIZE: nat := 2 * 1024

  datatype FetchError = Unanswered | RangeMismatch | TooLarge | EmptyFile | Malformed(error: DecodeError) | SizeMismatch | Unverified

  /** How the server answers each request of one fetch, and whether its Content-Range names the size of the file. */
  datatype Server = Server(first: Answer, rest: Answer, entries: Answer, records: Answer, download: bool, namesSize: bool) {
    predicate AnswersAll() {
      download && Refused !in {first, rest, entries, records}
    }
  }

  predicate IsBlockMapV3(data: bytes) {
    |data| >= |MAGIC| && data[..|MAGIC|] == MAGIC
  }

  /** Room for the header, a super-group table a quarter and 16 entries larger than the old one, and 8 group entries. */
  function FirstRangeSize(oldHeader: Header): (size: nat)
    ensures MIN_FIRST_RANGE_SIZE <= size <= FIRST_RANGE_SIZE
  {
    var estimate := oldHeader.headerLen + ((oldHeader.superCount * 5 + 3) / 4 + 16) * SUPER_SIZE + 8 * GROUP_SIZE;
    if estimate > FIRST_RANGE_SIZE then FIRST_RANGE_SIZE else if estimate < MIN_FIRST_RANGE_SIZE then MIN_FIRST_RANGE_SIZE else estimate
  }

  lemma MagicTells(data: bytes)
    ensures IsBlockMapV3(data) <==> MAGIC <= data
  {
  }

  /**
   The first request finds the header, the super-group table and 8 group entries of a new map whose header is not longer and whose
   super-groups are at most a quarter, rounded up, and 16 more than the old ones - and of no larger one - but asks for no more than
   64 KiB and for no less than 2 KiB.
   */
  lemma FirstRangeFits(oldHeader: Header, newHeader: Header)
    requires newHeader.headerLen == oldHeader.headerLen
    ensures 2048 <= FirstRangeSize(oldHeader) <= 65536
    ensures 2048 < FirstRangeSize(oldHeader) < 65536 ==>
              (GroupTableStart(newHeader) + 8 * 16 <= FirstRangeSize(oldHeader) <==> 4 * (newHeader.superCount - 16) < 5 * oldHeader.superCount + 4)
    ensures FirstRangeSize(oldHeader) == 65536 && 4 * (newHeader.superCount - 16) >= 5 * oldHeader.superCount ==> GroupTableStart(newHeader) + 8 * 16 >= 65536
    ensures FirstRangeSize(oldHeader) == 2048 && 4 * (newHeader.superCount - 16) < 5 * oldHeader.superCount + 4 ==> GroupTableStart(newHeader) + 8 * 16 <= 2048
  {
  }

  // ---- the published map

  /** A map the server publishes: it decodes to `m`, and its hashes are those of its bytes. */
  ghost predicate Published(h: bytes -> Hash8, remote: bytes, m: BlockMap) {
    Decode(remote, None, None) == Success(m) && Verified(h, remote, m.header, m.supers, m.groups)
  }

  lemma HeaderIsV3(buf: bytes)
    requires ParseHeader(buf).Success?
    ensures IsBlockMapV3(buf) && |buf| >= HEADER_FIXED_SIZE
  {
  }

  lemma PublishedIsGenuine(h: bytes -> Hash8, remote: bytes, m: BlockMap)
    requires Published(h, remote, m)
    ensures Genuine(h, remote, m) && ParseHeader(remote) == Success(m.header) && |remote| == MapSize(m.header)
    ensures IsBlockMapV3(remote) && |remote| >= HEADER_FIXED_SIZE && |remote| >= m.header.headerLen
  {
    hide ParseHeader, ParseSupers, ParseGroups, ParseRecords, CheckSupers, CheckGroups, HasEmptyBlock, Verified;
    AcceptedIsParsed(remote, None, None);
    HeaderIsV3(remote);
  }

  /** The caller's expectations decide on a published map, nothing else. */
  lemma DecodedAsExpected(h: bytes -> Hash8, remote: bytes, m: BlockMap, expectedFileSize: Option<int>, maxSize: Option<int>)
    requires Published(h, remote, m)
    ensures var r := Decode(remote, expectedFileSize, maxSize);
            && (r.Success? <==> CheckHeader(m.header, expectedFileSize, None, maxSize).None?)
            && (r.Success? ==> r.value == m && |remote| <= SizeLimit(maxSize))
  {
    hide ParseHeader, ParseSupers, ParseGroups, ParseRecords, CheckSupers, CheckGroups, HasEmptyBlock, Verified, MapSize, SizeLimit;
    PublishedIsGenuine(h, remote, m);
  }

  /** A genuine map under the header its bytes hold decodes to itself whenever the caller expects that header. */
  lemma GenuineDecodes(h: bytes -> Hash8, buf: bytes, m: BlockMap, expectedFileSize: Option<int>, maxSize: Option<int>)
    requires Genuine(h, buf, m) && ParseHeader(buf) == Success(m.header) && CheckHeader(m.header, expectedFileSize, None, maxSize).None?
    ensures Decode(buf, expectedFileSize, maxSize) == Success(m)
  {
    hide ParseHeader, SupersAt, GroupsAt, RecordsAt, CheckSupers, CheckGroups, HasEmptyBlock, Verified, SizeLimit;
    VerifiedHasNoEmptyBlock(h, buf, m);
  }

  lemma FieldOfPrefix(buf: bytes, n: nat, at: nat, width: nat)
    requires at + width <= n <= |buf|
    ensures Field(buf[..n], at, width) == Field(buf, at, width)
  {
    SubSlice(buf, 0, n, at, at + width);
  }

  lemma ChunkerOfPrefix(buf: bytes, n: nat, at: nat)
    requires at + 12 <= n <= |buf|
    ensures ChunkerAt(buf[..n], at) == ChunkerAt(buf, at)
  {
    FieldOfPrefix(buf, n, at, 4);
    FieldOfPrefix(buf, n, at + 4, 4);
    FieldOfPrefix(buf, n, at + 8, 4);
  }

  lemma RegionsOfPrefix(buf: bytes, n: nat, count: nat)
    requires HeaderLength(count) <= n <= |buf|
    ensures RegionsOf(buf[..n], count) == RegionsOf(buf, count)
  {
    hide ToNumber, Field, ChunkerAt;
    forall i | 0 <= i < count ensures RegionAt(buf[..n], HeaderLength(i)) == RegionAt(buf, HeaderLength(i)) {
      FieldOfPrefix(buf, n, HeaderLength(i), 8);
      FieldOfPrefix(buf, n, HeaderLength(i) + 8, 8);
      ChunkerOfPrefix(buf, n, HeaderLength(i) + 16);
    }
  }

  /** The first n bytes of a map parse to its header when they hold it, and are refused as truncated otherwise. */
  lemma HeaderOfPrefix(buf: bytes, n: nat, header: Header)
    requires ParseHeader(buf) == Success(header) && HEADER_FIXED_SIZE <= n <= |buf|
    ensures ParseHeader(buf[..n]) == if header.headerLen <= n then Success(header) else Failure(TruncatedHeader)
  {
    hide RegionsOf, ToNumber, Field, ChunkerAt;
    FixedFieldsOfPrefix(buf, n);
    if header.headerLen <= n {
      RegionsOfPrefix(buf, n, Field(buf, 40, 2));
    }
  }

  /** A header that the first n bytes parse to is that of the whole. */
  lemma HeaderOfWhole(buf: bytes, n: nat, header: Header)
    requires n <= |buf| && ParseHeader(buf[..n]) == Success(header)
    ensures ParseHeader(buf) == Success(header)
  {
    hide RegionsOf, ToNumber, Field, ChunkerAt;
    FixedFieldsOfPrefix(buf, n);
    RegionsOfPrefix(buf, n, Field(buf, 40, 2));
  }

  lemma FixedFieldsOfPrefix(buf: bytes, n: nat)
    requires HEADER_FIXED_SIZE <= n <= |buf|
    ensures var b := buf[..n];
            && b[..4] == buf[..4] && (forall k :: 0 <= k < 8 ==> b[k] == buf[k]) && Field(b, 8, 8) == Field(buf, 8, 8)
            && Field(b, 16, 4) == Field(buf, 16, 4) && Field(b, 20, 4) == Field(buf, 20, 4) && Field(b, 24, 4) == Field(buf, 24, 4)
            && Field(b, 40, 2) == Field(buf, 40, 2) && Field(b, 42, 4) == Field(buf, 42, 4) && ChunkerAt(b, 28) == ChunkerAt(buf, 28)
  {
    hide Field, ChunkerAt;
    FieldOfPrefix(buf, n, 8, 8);
    FieldOfPrefix(buf, n, 16, 4);
    FieldOfPrefix(buf, n, 20, 4);
    FieldOfPrefix(buf, n, 24, 4);
    FieldOfPrefix(buf, n, 40, 2);
    FieldOfPrefix(buf, n, 42, 4);
    ChunkerOfPrefix(buf, n, 28);
  }

  // ---- whole downloads

  /** A map that decodes as the caller expects and passes verification. */
  ghost predicate Accepted(h: bytes -> Hash8, body: bytes, expectedFileSize: Option<int>, maxSize: Option<int>) {
    var decoded := Decode(body, expectedFileSize, maxSize);
    decoded.Success? && Verified(h, body, decoded.value.header, decoded.value.supers, decoded.value.groups)
  }

  /** A body that came whole: another format passes as it is, a v3 map is decoded and verified. */
  method VerifiedWhole(h: bytes -> Hash8, body: bytes, expectedFileSize: Option<int>, maxSize: Option<int>) returns (r: Result<bytes, FetchError>)
    ensures r.Success? ==> r.value == body
    ensures r.Success? <==> (IsBlockMapV3(body) ==> Accepted(h, body, expectedFileSize, maxSize))
  {
    hide Verified, Decode, IsBlockMapV3;
    if !IsBlockMapV3(body) {
      return Success(body);
    }
    var decoded := DecodeBlockMapV3(body, expectedFileSize, maxSize);
    if decoded.Failure? {
      return Failure(Malformed(decoded.error));
    }
    var ok := VerifyBlockMapV3(h, body, decoded.value.header, decoded.value.supers, decoded.value.groups);
    r := if ok then Success(body) else Failure(Unverified);
  }

  /** The server's whole file in one body, within the size limit of the map. */
  method WholeFileOf(h: bytes -> Hash8, remote: bytes, expectedFileSize: Option<int>, maxSize: Option<int>) returns (r: Result<bytes, FetchError>)
    ensures r.Success? ==> r.value == remote
    ensures r.Success? <==> |remote| <= SizeLimit(maxSize) && (IsBlockMapV3(remote) ==> Accepted(h, remote, expectedFileSize, maxSize))
  {
    hide Accepted, IsBlockMapV3, SizeLimit;
    if |remote| > SizeLimit(maxSize) {
      return Failure(TooLarge);
    }
    r := VerifiedWhole(h, remote, expectedFileSize, maxSize);
  }

  /** A plain GET: not answered, empty, or the whole file. */
  method FetchWhole(h: bytes -> Hash8, remote: bytes, expectedFileSize: Option<int>, maxSize: Option<int>, server: Server) returns (r: Result<bytes, FetchError>)
    ensures r.Success? ==> r.value == remote
    ensures r.Success? <==> && server.download && 0 < |remote| <= SizeLimit(maxSize)
                            && (IsBlockMapV3(remote) ==> Accepted(h, remote, expectedFileSize, maxSize))
  {
    hide Accepted, IsBlockMapV3, SizeLimit;
    if !server.download {
      return Failure(Unanswered);
    }
    if remote == [] {
      return Failure(EmptyFile);
    }
    r := WholeFileOf(h, remote, expectedFileSize, maxSize);
  }

  /** A published map is accepted exactly when the caller expects its header. */
  lemma PublishedIsAccepted(h: bytes -> Hash8, remote: bytes, m: BlockMap, expectedFileSize: Option<int>, maxSize: Option<int>)
    requires Published(h, remote, m)
    ensures Accepted(h, remote, expectedFileSize, maxSize) <==> CheckHeader(m.header, expectedFileSize, None, maxSize).None?
    ensures Accepted(h, remote, expectedFileSize, maxSize) ==> |remote| <= SizeLimit(maxSize) && Decode(remote, expectedFileSize, maxSize) == Success(m)
  {
    hide Decode, Verified, CheckHeader;
    DecodedAsExpected(h, remote, m, expectedFileSize, maxSize);
  }

  // ---- the fetch with an old map

  /** The first bytes in hand are not those of a v3 map: the rest is downloaded, or everything if the size is unknown. */
  method FetchOtherFormat(h: bytes -> Hash8, remote: bytes, first: bytes, expectedFileSize: Option<int>, maxSize: Option<int>, server: Server)
    returns (r: Result<bytes, FetchError>, asked: seq<Range>, downloads: bool)
    requires !IsBlockMapV3(remote) && first <= remote && first != []
    ensures r.Success? ==> r.value == remote
    ensures server.AnswersAll() ==> (r.Success? <==> |remote| <= SizeLimit(maxSize))
    ensures downloads <==> !server.namesSize
    ensures asked == if server.namesSize && |first| < |remote| <= SizeLimit(maxSize) then [Range(|first|, |remote|)] else []
  {
    asked, downloads := [], false;
    if !server.namesSize {
      r := FetchWhole(h, remote, expectedFileSize, maxSize, server);
      downloads := true;
      return;
    }
    if |remote| > SizeLimit(maxSize) {
      r := Failure(TooLarge);
      return;
    }
    var body := first;
    if |first| < |remote| {
      asked := [Range(|first|, |remote|)];
      if server.rest == Refused {
        r := Failure(Unanswered);
        return;
      }
      body := if server.rest == Whole then remote else first + remote[|first|..];
    }
    r := VerifiedWhole(h, body, expectedFileSize, maxSize);
  }

  /** The file as far as a map of `size` bytes reaches; zeros stand for what the server does not have, and is not asked for. */
  function Padded(remote: bytes, size: nat): (file: bytes)
    ensures |file| == size
    ensures |remote| == size ==> file == remote
  {
    if |remote| >= size then remote[..size] else remote + Zeros(size - |remote|)
  }

  /**
   What a successful fetch promises of a v3 map, whatever the old map and the server hold: it decodes as the caller
   expects and passes verification. If the server's file is a published map the result is that file, unless something
   the result hashes collides with something the file hashes.
   */
  ghost predicate IsGoodMap(h: bytes -> Hash8, buffer: bytes, remote: bytes, expectedFileSize: Option<int>, maxSize: Option<int>, newMap: BlockMap) {
    && Accepted(h, buffer, expectedFileSize, maxSize)
    && (Published(h, remote, newMap) && CollisionFree(h, Inputs(buffer, Decode(buffer, expectedFileSize, maxSize).value) + Inputs(remote, newMap))
        ==> buffer == remote)
  }

  lemma WholeIsGood(h: bytes -> Hash8, remote: bytes, expectedFileSize: Option<int>, maxSize: Option<int>, newMap: BlockMap)
    requires Accepted(h, remote, expectedFileSize, maxSize)
    ensures IsGoodMap(h, remote, remote, expectedFileSize, maxSize, newMap)
  {
  }

  /** An assembled buffer that starts with the header in hand is a good map. */
  lemma AssembledIsGood(h: bytes -> Hash8, buffer: bytes, remote: bytes, first: bytes, header: Header, expectedFileSize: Option<int>, maxSize: Option<int>,
                        newMap: BlockMap)
    requires first <= remote && ParseHeader(first) == Success(header) && CheckHeader(header, expectedFileSize, None, maxSize).None?
    requires IsWorth(h, buffer, Padded(remote, MapSize(header)), header, newMap)
    ensures IsGoodMap(h, buffer, remote, expectedFileSize, maxSize, newMap)
  {
    hide ParseHeader, CheckHeader, Genuine, CollisionFree, Inputs, Decode, MapOf;
    HeaderInBuffer(buffer, remote, first, header);
    MapOfHeader(buffer, header);
    GenuineDecodes(h, buffer, MapOf(buffer, header), expectedFileSize, maxSize);
    GenuineIsParsed(h, buffer, MapOf(buffer, header));
    if Published(h, remote, newMap) {
      PublishedIsGenuine(h, remote, newMap);
      assert first == remote[..|first|];
      HeaderOfWhole(remote, |first|, header);
    }
  }

  lemma MapOfHeader(buf: bytes, header: Header)
    requires |buf| == MapSize(header)
    ensures MapOf(buf, header).header == header
  {
  }

  lemma HeaderInBuffer(buffer: bytes, remote: bytes, first: bytes, header: Header)
    requires first <= remote && ParseHeader(first) == Success(header) && |buffer| == MapSize(header)
    requires AgreeOn(buffer, Padded(remote, MapSize(header)), 0, GroupTableStart(header))
    ensures ParseHeader(buffer) == Success(header)
  {
    hide ParseHeader;
    var n := header.headerLen;
    HeaderIsInside(first, header);
    HeaderOfPrefix(first, n, header);
    assert buffer[..n] == first[..n];
    HeaderOfWhole(buffer, n, header);
  }

  lemma HeaderIsInside(buf: bytes, header: Header)
    requires ParseHeader(buf) == Success(header)
    ensures HEADER_FIXED_SIZE <= header.headerLen <= |buf|
  {
  }

  // ---- what is asked for

  /** Every super-group of the file has an equal one in the old map. */
  ghost predicate SharesAllSupers(remote: bytes, header: Header, oldMap: BlockMap) {
    |remote| >= MapSize(header) && forall sup :: sup in SupersAt(remote, header.headerLen, header.superCount) ==> sup in oldMap.supers
  }

  /** Nothing behind the super-group table. */
  ghost predicate OnlyTable(asked: seq<Range>, tableEnd: nat) {
    forall k :: 0 <= k < |asked| ==> asked[k].end <= tableEnd
  }

  lemma NothingAskedYet(n: nat, header: Header)
    ensures RangesInFile([], n, MapSize(header)) && OnlyTable([], GroupTableStart(header))
  {
  }

  lemma RestAsked(n: nat, header: Header)
    requires n < GroupTableStart(header)
    ensures RangesInFile([Range(n, GroupTableStart(header))], n, MapSize(header)) && OnlyTable([Range(n, GroupTableStart(header))], GroupTableStart(header))
  {
  }

  lemma RangesJoin(a: seq<Range>, b: seq<Range>, lo: nat, mid: nat, hi: nat)
    requires RangesInFile(a, lo, mid) && RangesInFile(b, mid, hi) && StartsBehind(b, lo) && mid <= hi
    ensures RangesInFile(a + b, lo, hi)
  {
  }

  lemma RangesBehind(ranges: seq<Range>, lo: nat, hi: nat, n: nat)
    requires RangesInFile(ranges, lo, hi) && StartsBehind(ranges, n)
    ensures RangesInFile(ranges, n, hi)
  {
  }

  /** The rest of the table, if it is asked for, then entries, then records: in order, behind the bytes in hand. */
  lemma PartsAsked(oldMap: BlockMap, remote: bytes, n: nat, header: Header, prefetched: nat, asked: seq<Range>, entries: seq<Range>, records: seq<Range>)
    requires n <= prefetched && GroupTableStart(header) <= prefetched && n < MapSize(header)
    requires if n < GroupTableStart(header) then prefetched == GroupTableStart(header) && asked == [Range(n, prefetched)] else asked == [] && prefetched == n
    requires RangesInFile(entries, GroupTableStart(header), RecordsStart(header)) && StartsBehind(entries, prefetched)
    requires RangesInFile(records, RecordsStart(header), MapSize(header)) && StartsBehind(records, prefetched)
    requires (forall sup :: sup in SupersAt(Padded(remote, MapSize(header)), header.headerLen, header.superCount) ==> sup in oldMap.supers) ==> entries == records == []
    ensures RangesInFile(asked + (entries + records), n, MapSize(header))
    ensures SharesAllSupers(remote, header, oldMap) ==> OnlyTable(asked + (entries + records), GroupTableStart(header))
  {
    hide SupersAt, RangesInFile;
    RangesBehind(entries, GroupTableStart(header), RecordsStart(header), prefetched);
    RangesJoin(entries, records, prefetched, RecordsStart(header), MapSize(header));
    if n < GroupTableStart(header) {
      OneRange(n, prefetched);
      RangesJoin(asked, entries + records, n, prefetched, MapSize(header));
    } else {
      assert asked + (entries + records) == entries + records;
    }
    if SharesAllSupers(remote, header, oldMap) {
      SupersAtPrefix(remote, MapSize(header), header.headerLen, header.superCount);
    }
  }

  lemma OneRange(n: nat, end: nat)
    requires n <= end
    ensures RangesInFile([Range(n, end)], n, end)
  {
  }

  /** The first bytes in hand are those of a v3 map: its header is checked, the rest of its table fetched, then the parts. */
  method FetchFrom(h: bytes -> Hash8, oldData: bytes, oldMap: BlockMap, remote: bytes, first: bytes, expectedFileSize: Option<int>, maxSize: Option<int>,
                   server: Server, ghost newMap: BlockMap)
    returns (r: Result<bytes, FetchError>, asked: seq<Range>)
    requires Parsed(oldData, oldMap) && first <= remote && IsBlockMapV3(first)
    ensures ParseHeader(first).Failure? || (server.namesSize && first == remote) ==> asked == []
    ensures ParseHeader(first).Success? ==>
              && RangesInFile(asked, |first|, MapSize(ParseHeader(first).value))
              && (SharesAllSupers(remote, ParseHeader(first).value, oldMap) ==> OnlyTable(asked, GroupTableStart(ParseHeader(first).value)))
    ensures r.Success? ==> IsGoodMap(h, r.value, remote, expectedFileSize, maxSize, newMap) && ParseHeader(first).Success?
    ensures && ParseHeader(first) == Success(newMap.header) && CheckHeader(newMap.header, expectedFileSize, None, maxSize).None?
            && Published(h, remote, newMap) && server.AnswersAll() && Trusted(h, oldData, oldMap, remote, newMap)
            ==> r == Success(remote)
  {
    hide Published, Parsed, Genuine, Trusted, CheckHeader, ParseHeader, Inputs, CollisionFree, Accepted, IsGoodMap, IsWorth, Decode, SizeLimit, SharesAllSupers,
         OnlyTable, RangesInFile, StartsBehind;
    asked := [];
    var parsed := ParseBlockMapV3Header(first);
    if parsed.Failure? {
      r := Failure(Malformed(parsed.error));
      return;
    }
    var header := parsed.value;
    NothingAskedYet(|first|, header);
    var error := CheckHeader(header, expectedFileSize, None, maxSize);
    if error.Some? {
      r := Failure(Malformed(error.value));
      return;
    }
    if Published(h, remote, newMap) {
      PublishedIsGenuine(h, remote, newMap);
      PublishedIsAccepted(h, remote, newMap, expectedFileSize, maxSize);
    }
    if server.namesSize && |remote| != MapSize(header) {
      r := Failure(SizeMismatch);
      return;
    }
    if |first| >= MapSize(header) {
      r := VerifiedPrefix(h, remote, first, header, expectedFileSize, maxSize, newMap);
      return;
    }
    var prefetched := |first|;
    if |first| < GroupTableStart(header) {
      asked := [Range(|first|, GroupTableStart(header))];
      RestAsked(|first|, header);
      if server.rest == Refused || (server.rest == Partial && |remote| < GroupTableStart(header)) {
        r := Failure(Unanswered);
        return;
      }
      if server.rest == Whole {
        r := WholeV3(h, remote, expectedFileSize, maxSize, newMap);
        return;
      }
      prefetched := GroupTableStart(header);
    }
    var fetched, entries, records := FetchParts(h, oldData, oldMap, Padded(remote, MapSize(header)), |remote|, header, prefetched, server.entries, server.records, newMap);
    PartsAsked(oldMap, remote, |first|, header, prefetched, asked, entries, records);
    asked := asked + (entries + records);
    match fetched
    case Assembled(buffer) =>
      AssembledIsGood(h, buffer, remote, first, header, expectedFileSize, maxSize, newMap);
      r := Success(buffer);
    case WholeFile => r := WholeV3(h, remote, expectedFileSize, maxSize, newMap);
    case Failed => r := Failure(Unverified);
  }

  /** The whole file of a server whose first bytes are those of a v3 map. */
  method WholeV3(h: bytes -> Hash8, remote: bytes, expectedFileSize: Option<int>, maxSize: Option<int>, ghost newMap: BlockMap) returns (r: Result<bytes, FetchError>)
    requires IsBlockMapV3(remote)
    ensures r.Success? ==> IsGoodMap(h, r.value, remote, expectedFileSize, maxSize, newMap)
    ensures Accepted(h, remote, expectedFileSize, maxSize) && |remote| <= SizeLimit(maxSize) ==> r == Success(remote)
  {
    hide Accepted, IsGoodMap, SizeLimit, IsBlockMapV3;
    r := WholeFileOf(h, remote, expectedFileSize, maxSize);
    if r.Success? {
      WholeIsGood(h, remote, expectedFileSize, maxSize, newMap);
    }
  }

  /** The first request already brought as many bytes as the header declares. */
  method VerifiedPrefix(h: bytes -> Hash8, remote: bytes, first: bytes, header: Header, expectedFileSize: Option<int>, maxSize: Option<int>, ghost newMap: BlockMap)
    returns (r: Result<bytes, FetchError>)
    requires first <= remote && ParseHeader(first) == Success(header) && |first| >= MapSize(header) && IsBlockMapV3(first)
    ensures r.Success? ==> IsGoodMap(h, r.value, remote, expectedFileSize, maxSize, newMap)
    ensures Published(h, remote, newMap) && header == newMap.header && Accepted(h, remote, expectedFileSize, maxSize) ==> r == Success(remote)
  {
    hide Published, Accepted, ParseHeader, Decode;
    var body := first[..MapSize(header)];
    assert IsBlockMapV3(body) by { HeaderIsInside(first, header); }
    if Published(h, remote, newMap) {
      PublishedIsGenuine(h, remote, newMap);
      assert first == remote[..|first|];
      HeaderOfWhole(remote, |first|, header);
      assert body == remote;
    }
    r := VerifiedWhole(h, body, expectedFileSize, maxSize);
  }

  /** The cached old map, when it decodes. */
  ghost predicate Usable(cached: Option<bytes>) {
    cached.Some? && cached.value != [] && Decode(cached.value, None, None).Success?
  }

  /** The first request, sized from the old header, passes: within the size limit, and a shorter answer names the file's size. */
  predicate FirstPasses(oldHeader: Header, remote: bytes, maxSize: Option<int>, server: Server) {
    && FirstRangeSize(oldHeader) <= SizeLimit(maxSize)
    && (server.first == Partial && |remote| < FirstRangeSize(oldHeader) ==> server.namesSize)
  }

  /** The first request passes, finds the new header whole, and the old map can be relied on. */
  ghost predicate OldMapHelps(h: bytes -> Hash8, oldData: bytes, remote: bytes, maxSize: Option<int>, server: Server, newMap: BlockMap)
    requires Decode(oldData, None, None).Success?
  {
    var oldMap := Decode(oldData, None, None).value;
    && FirstPasses(oldMap.header, remote, maxSize, server)
    && (server.first == Partial ==> newMap.header.headerLen <= FirstRangeSize(oldMap.header) && Trusted(h, oldData, oldMap, remote, newMap))
  }

  /**
   Fetches the new block map, from whatever file the server has. A result of another format is that file; a v3 result
   decodes, verifies and is the published map unless the hash collides, whatever the old map holds. A published map the
   caller expects arrives from a server that answers: without a usable old map always, with a genuine one when the first
   request, sized from the old header, finds the new header whole. A longer header fails the fetch. `asked` are the ranges
   that were asked for; `downloads` tells of a plain download.
   */
  method FetchBlockMapV3(h: bytes -> Hash8, cached: Option<bytes>, remote: bytes, expectedFileSize: Option<int>, maxSize: Option<int>, server: Server,
                         ghost newMap: BlockMap)
    returns (r: Result<bytes, FetchError>, asked: seq<Range>, downloads: bool)
    ensures !Usable(cached) ==> downloads && asked == []
    ensures Usable(cached) ==> AsksLittle(h, remote, newMap, Decode(cached.value, None, None).value, asked) && (downloads ==> !(MAGIC <= remote))
    ensures r.Success? && !(MAGIC <= remote) ==> r.value == remote
    ensures r.Success? && MAGIC <= remote ==> IsGoodMap(h, r.value, remote, expectedFileSize, maxSize, newMap)
    ensures && Published(h, remote, newMap) && CheckHeader(newMap.header, expectedFileSize, None, maxSize).None? && server.AnswersAll()
            && (Usable(cached) ==> OldMapHelps(h, cached.value, remote, maxSize, server, newMap))
            ==> r == Success(remote)
    ensures && Published(h, remote, newMap) && Usable(cached) && server.first == Partial
            && newMap.header.headerLen > FirstRangeSize(Decode(cached.value, None, None).value.header)
            ==> r.Failure?
    ensures && !(MAGIC <= remote) && 0 < |remote| <= SizeLimit(maxSize) && server.AnswersAll()
            && (Usable(cached) ==> FirstPasses(Decode(cached.value, None, None).value.header, remote, maxSize, server))
            ==> r == Success(remote)
  {
    hide Published, Parsed, Trusted, CheckHeader, ParseHeader, Accepted, IsGoodMap, Decode, FirstRangeSize, SizeLimit, IsBlockMapV3, SharesAllSupers, RangesInFile, InOrder,
         OnlyTable, MapSize, AsksLittle;
    MagicTells(remote);
    asked, downloads := [], true;
    if Published(h, remote, newMap) {
      PublishedIsGenuine(h, remote, newMap);
      PublishedIsAccepted(h, remote, newMap, expectedFileSize, maxSize);
    }
    if cached.None? || cached.value == [] {
      r := WholeWithoutOld(h, remote, expectedFileSize, maxSize, server, newMap);
      return;
    }
    var decoded := DecodeBlockMapV3(cached.value, None, None);
    if decoded.Failure? {
      r := WholeWithoutOld(h, remote, expectedFileSize, maxSize, server, newMap);
      return;
    }
    downloads := false;
    AsksNothing(h, remote, newMap, decoded.value);
    var size := FirstRangeSize(decoded.value.header);
    if size > SizeLimit(maxSize) {
      r := Failure(TooLarge);
      return;
    }
    asked := [Range(0, size)];
    if server.first == Refused || (server.first == Partial && remote == []) {
      r := Failure(Unanswered);
      return;
    }
    if server.first == Whole {
      r := WholeFileOf(h, remote, expectedFileSize, maxSize);
      if r.Success? && IsBlockMapV3(remote) {
        WholeIsGood(h, remote, expectedFileSize, maxSize, newMap);
      }
      return;
    }
    if |remote| < size && !server.namesSize {
      r := Failure(RangeMismatch);
      return;
    }
    var first := if size < |remote| then remote[..size] else remote;
    FirstPart(h, remote, size, first, newMap);
    if IsBlockMapV3(first) {
      AcceptedIsParsed(cached.value, None, None);
      var more;
      r, more := FetchFrom(h, cached.value, decoded.value, remote, first, expectedFileSize, maxSize, server, newMap);
      AskedInOrder(h, remote, newMap, decoded.value, first, more);
      asked := asked + more;
    } else {
      var more;
      r, more, downloads := FetchOtherFormat(h, remote, first, expectedFileSize, maxSize, server);
      OtherInOrder(h, remote, newMap, decoded.value, first, more);
      asked := asked + more;
    }
  }

  /**
   What is asked for with an old map: the first bytes, then ranges that lie behind each other, so no byte twice, and of a
   published map none behind its end; and if the old map has all of its super-groups, none behind their table.
   */
  ghost predicate AsksLittle(h: bytes -> Hash8, remote: bytes, newMap: BlockMap, oldMap: BlockMap, asked: seq<Range>) {
    && InOrder(asked)
    && (asked != [] ==>
          && asked[0] == Range(0, FirstRangeSize(oldMap.header))
          && (Published(h, remote, newMap) ==>
                && RangesInFile(asked[1..], 0, |remote|)
                && ((forall sup :: sup in newMap.supers ==> sup in oldMap.supers) ==> OnlyTable(asked[1..], GroupTableStart(newMap.header)))))
  }

  lemma AsksNothing(h: bytes -> Hash8, remote: bytes, newMap: BlockMap, oldMap: BlockMap)
    ensures AsksLittle(h, remote, newMap, oldMap, [])
    ensures AsksLittle(h, remote, newMap, oldMap, [Range(0, FirstRangeSize(oldMap.header))])
  {
    hide Published, FirstRangeSize;
  }

  lemma AskedInOrder(h: bytes -> Hash8, remote: bytes, newMap: BlockMap, oldMap: BlockMap, first: bytes, more: seq<Range>)
    requires Published(h, remote, newMap) && ParseHeader(first).Success? ==> ParseHeader(first).value == newMap.header
    requires ParseHeader(first).Failure? ==> more == []
    requires ParseHeader(first).Success? ==>
               && RangesInFile(more, |first|, MapSize(ParseHeader(first).value))
               && (SharesAllSupers(remote, ParseHeader(first).value, oldMap) ==> OnlyTable(more, GroupTableStart(ParseHeader(first).value)))
    requires |first| == FirstRangeSize(oldMap.header) || more == []
    ensures AsksLittle(h, remote, newMap, oldMap, [Range(0, FirstRangeSize(oldMap.header))] + more)
  {
    hide ParseHeader, MapSize, Published, FirstRangeSize, SharesAllSupers, OnlyTable;
    assert ([Range(0, FirstRangeSize(oldMap.header))] + more)[1..] == more;
    if Published(h, remote, newMap) {
      PublishedIsAsked(h, remote, newMap, oldMap, first, more);
    }
  }

  lemma OtherInOrder(h: bytes -> Hash8, remote: bytes, newMap: BlockMap, oldMap: BlockMap, first: bytes, more: seq<Range>)
    requires !IsBlockMapV3(remote) && (more == [] || (|first| <= |remote| && |first| == FirstRangeSize(oldMap.header) && more == [Range(|first|, |remote|)]))
    ensures AsksLittle(h, remote, newMap, oldMap, [Range(0, FirstRangeSize(oldMap.header))] + more)
  {
    hide Published, FirstRangeSize, IsBlockMapV3;
    if Published(h, remote, newMap) {
      PublishedIsGenuine(h, remote, newMap);
    }
  }

  lemma PublishedIsAsked(h: bytes -> Hash8, remote: bytes, m: BlockMap, oldMap: BlockMap, first: bytes, more: seq<Range>)
    requires Published(h, remote, m) && (ParseHeader(first).Success? ==> ParseHeader(first).value == m.header)
    requires ParseHeader(first).Failure? ==> more == []
    requires ParseHeader(first).Success? ==> RangesInFile(more, |first|, MapSize(m.header))
    requires ParseHeader(first).Success? && SharesAllSupers(remote, m.header, oldMap) ==> OnlyTable(more, GroupTableStart(m.header))
    ensures RangesInFile(more, 0, |remote|)
    ensures (forall sup :: sup in m.supers ==> sup in oldMap.supers) ==> OnlyTable(more, GroupTableStart(m.header))
  {
    hide Published, ParseHeader, Verified, CheckSupers, CheckGroups, GroupsAt, RecordsAt, SupersAt;
    PublishedIsGenuine(h, remote, m);
    GenuineIsParsed(h, remote, m);
  }

  /** Without a usable old map. */
  method WholeWithoutOld(h: bytes -> Hash8, remote: bytes, expectedFileSize: Option<int>, maxSize: Option<int>, server: Server, ghost newMap: BlockMap)
    returns (r: Result<bytes, FetchError>)
    ensures r.Success? && !IsBlockMapV3(remote) ==> r.value == remote
    ensures r.Success? && IsBlockMapV3(remote) ==> IsGoodMap(h, r.value, remote, expectedFileSize, maxSize, newMap)
    ensures server.download && 0 < |remote| <= SizeLimit(maxSize) && (IsBlockMapV3(remote) ==> Accepted(h, remote, expectedFileSize, maxSize)) ==> r == Success(remote)
  {
    hide Accepted, IsGoodMap, SizeLimit, IsBlockMapV3;
    r := FetchWhole(h, remote, expectedFileSize, maxSize, server);
    if r.Success? && IsBlockMapV3(remote) {
      WholeIsGood(h, remote, expectedFileSize, maxSize, newMap);
    }
  }

  /** The first part of a file shows whether it is a v3 map, and of a published map its header or that it is longer. */
  lemma FirstPart(h: bytes -> Hash8, remote: bytes, size: nat, first: bytes, m: BlockMap)
    requires MIN_FIRST_RANGE_SIZE <= size && first == (if size < |remote| then remote[..size] else remote)
    ensures first <= remote && (IsBlockMapV3(first) <==> IsBlockMapV3(remote))
    ensures Published(h, remote, m) ==> ParseHeader(first) == if m.header.headerLen <= size then Success(m.header) else Failure(TruncatedHeader)
  {
    hide Published, ParseHeader;
    if size < |remote| {
      assert remote[..size][..4] == remote[..4];
    }
    if Published(h, remote, m) {
      PublishedIsGenuine(h, remote, m);
      HeaderOfPrefix(remote, |first|, m.header);
      assert first == remote[..|first|];
    }
  }

  // ---- two encoded maps

  /** An encoded map is one to publish exactly when the decoder accepts it and its blocks add up to the file size. */
  lemma EncodedMapIsPublished(h: bytes -> Hash8, blocks: seq<BlockInput>, options: EncodeOptions)
    requires Encode(h, blocks, options).Success?
    ensures SizesFit(blocks) && OptionsFit(options)
    ensures var m := ExpectedMap(h, blocks, options);
            Published(h, Encode(h, blocks, options).value, m)
            <==> Acceptable(m.header, blocks, None, None) && Sum(Sizes(blocks)) == AsRead(options.fileSize)
  {
    hide Encode, Decode, ExpectedMap, Verified, MapSize, SizesFit, OptionsFit, Sum, Sizes, SizeLimit;
    DecodeEncode(h, blocks, options, None, None);
    EncodedMapVerifies(h, blocks, options);
  }

  /** `data` is the encoded map of blocks that the decoder accepts and that add up to the file size. */
  ghost predicate IsReleaseMap(h: bytes -> Hash8, blocks: seq<BlockInput>, options: EncodeOptions, data: bytes) {
    && Encode(h, blocks, options) == Success(data) && SizesFit(blocks) && OptionsFit(options)
    && Acceptable(ExpectedMap(h, blocks, options).header, blocks, None, None) && Sum(Sizes(blocks)) == AsRead(options.fileSize)
  }

  /** Between two encoded maps without a collision the fetch ends in the new one, from every server that answers. */
  method FetchEncodedMap(h: bytes -> Hash8, ghost oldBlocks: seq<BlockInput>, ghost oldOptions: EncodeOptions, oldData: bytes,
                         ghost newBlocks: seq<BlockInput>, ghost newOptions: EncodeOptions, remote: bytes,
                         expectedFileSize: Option<int>, maxSize: Option<int>, server: Server)
    returns (r: Result<bytes, FetchError>, asked: seq<Range>, downloads: bool)
    requires IsReleaseMap(h, oldBlocks, oldOptions, oldData) && IsReleaseMap(h, newBlocks, newOptions, remote)
    requires var oldMap, newMap := ExpectedMap(h, oldBlocks, oldOptions), ExpectedMap(h, newBlocks, newOptions);
             && CollisionFree(h, Inputs(oldData, oldMap) + Inputs(remote, newMap))
             && CheckHeader(newMap.header, expectedFileSize, None, maxSize).None?
             && FirstPasses(oldMap.header, remote, maxSize, server) && newMap.header.headerLen <= FirstRangeSize(oldMap.header)
    requires server.AnswersAll()
    ensures r == Success(remote) && !downloads
    ensures var oldMap, newMap := ExpectedMap(h, oldBlocks, oldOptions), ExpectedMap(h, newBlocks, newOptions);
            (forall sup :: sup in newMap.supers ==> sup in oldMap.supers) && asked != [] ==> OnlyTable(asked[1..], GroupTableStart(newMap.header))
  {
    hide Encode, Decode, ExpectedMap, Verified, MapSize, SizesFit, OptionsFit, Acceptable, Sum, Sizes, SizeLimit, FirstRangeSize, CheckHeader, Inputs, CollisionFree, Genuine;
    ghost var oldMap, newMap := ExpectedMap(h, oldBlocks, oldOptions), ExpectedMap(h, newBlocks, newOptions);
    EncodedMapIsPublished(h, oldBlocks, oldOptions);
    EncodedMapIsPublished(h, newBlocks, newOptions);
    PublishedIsGenuine(h, oldData, oldMap);
    PublishedIsGenuine(h, remote, newMap);
    r, asked, downloads := FetchBlockMapV3(h, Some(oldData), remote, expectedFileSize, maxSize, server, newMap);
  }
}
