/**
 One key for both map formats: the v3 key of a v2 block is the hex of the first 8 bytes of its base64 digest, so a v2
 map and a v3 map of the same blocks compare equal block by block.
 */
module BlockMapKeys {
  import B64 = Base64
  import opened BlockMapDecoder
  import opened BlockMapRoundTrip
  import opened BlockMapV3
  import opened Bytes
  import opened Wrappers

  /** The shape of a parsed v2 map: parallel lists of checksums and sizes per file. */
  datatype FileChunks = FileChunks(name: string, offset: int, checksums: seq<string>, sizes: seq<int>)
  datatype BlockMapV2 = BlockMapV2(version: string, files: seq<FileChunks>)

  datatype KeyError = NotSingleFile | Malformed | UnsupportedSize(index: nat) | UnsupportedChecksum(index: nat)

  const V2_DIGEST_LENGTH: nat := 18

  /** toBlockMap. */
  function ToBlockMap(m: BlockMap): BlockMapV2 {
    ChunksOf(m.records)
  }

  function ChunksOf(records: seq<Record>): BlockMapV2 {
    BlockMapV2("2", [FileChunks("file", 0,
                                seq(|records|, k requires 0 <= k < |records| => records[k].hash),
                                seq(|records|, k requires 0 <= k < |records| => records[k].size))])
  }

  /** 24 characters of the standard alphabet: 18 bytes without padding. */
  predicate IsV2Checksum(s: string) {
    |s| == 24 && forall k :: 0 <= k < 24 ==> B64.IsStandard(s[k])
  }

  predicate IsV3Size(size: int) {
    0 < size <= 0xffff
  }

  /** buffer.toString("hex", 0, 8) of the decoded checksum. */
  function KeyOf(checksum: string): string {
    var digest := B64.Decode(checksum);
    Hex(if |digest| >= HASH_LEN then digest[..HASH_LEN] else digest)
  }

  /** The first block the conversion rejects. */
  function KeysError(checksums: seq<string>, sizes: seq<int>, i: nat): Option<KeyError>
    requires |checksums| == |sizes|
    decreases |checksums| - i
  {
    if i >= |checksums| then None
    else if !IsV3Size(sizes[i]) then Some(UnsupportedSize(i))
    else if !IsV2Checksum(checksums[i]) then Some(UnsupportedChecksum(i))
    else KeysError(checksums, sizes, i + 1)
  }

  function Keys(checksums: seq<string>): (keys: seq<string>)
    ensures |keys| == |checksums|
  {
    seq(|checksums|, k requires 0 <= k < |checksums| => KeyOf(checksums[k]))
  }

  function V2ToV3Keys(map2: Option<BlockMapV2>): Result<BlockMapV2, KeyError> {
    if map2.None? || map2.value.version != "2" || |map2.value.files| != 1 then Failure(NotSingleFile)
    else
      var file := map2.value.files[0];
      if file.offset != 0 || |file.checksums| != |file.sizes| then Failure(Malformed)
      else
        var error := KeysError(file.checksums, file.sizes, 0);
        if error.Some? then Failure(error.value)
        else Success(BlockMapV2("2", [FileChunks(file.name, 0, Keys(file.checksums), file.sizes)]))
  }

  method BlockMapV2ToV3Keys(map2: Option<BlockMapV2>) returns (r: Result<BlockMapV2, KeyError>)
    ensures r == V2ToV3Keys(map2)
  {
    if map2.None? || map2.value.version != "2" || |map2.value.files| != 1 {
      return Failure(NotSingleFile);
    }
    var file := map2.value.files[0];
    if file.offset != 0 || |file.checksums| != |file.sizes| {
      return Failure(Malformed);
    }
    var keys := [];
    for i := 0 to |file.checksums|
      invariant keys == Keys(file.checksums[..i])
      invariant KeysError(file.checksums, file.sizes, 0) == KeysError(file.checksums, file.sizes, i)
    {
      if !IsV3Size(file.sizes[i]) {
        return Failure(UnsupportedSize(i));
      }
      if !IsV2Checksum(file.checksums[i]) {
        return Failure(UnsupportedChecksum(i));
      }
      keys := keys + [KeyOf(file.checksums[i])];
    }
    assert file.checksums[..|file.checksums|] == file.checksums;
    r := Success(BlockMapV2("2", [FileChunks(file.name, 0, keys, file.sizes)]));
  }

  /** A size a record can hold, and 24 characters of base64 without padding. */
  ghost predicate IsV3Block(checksum: string, size: int) {
    && 1 <= size <= 65535 && |checksum| == 24
    && forall j :: 0 <= j < 24 ==> 'A' <= checksum[j] <= 'Z' || 'a' <= checksum[j] <= 'z' || '0' <= checksum[j] <= '9' || checksum[j] in "+/"
  }

  lemma {:induction false} KeysErrorIs(checksums: seq<string>, sizes: seq<int>, i: nat)
    requires i <= |checksums| == |sizes|
    ensures KeysError(checksums, sizes, i).None? <==> forall k :: i <= k < |sizes| ==> IsV3Block(checksums[k], sizes[k])
    ensures var error := KeysError(checksums, sizes, i);
            error.Some? ==>
              && (error.value.UnsupportedSize? || error.value.UnsupportedChecksum?)
              && i <= error.value.index < |sizes|
              && (forall k :: i <= k < error.value.index ==> IsV3Block(checksums[k], sizes[k]))
              && !IsV3Block(checksums[error.value.index], sizes[error.value.index])
              && (error.value.UnsupportedSize? <==> !(1 <= sizes[error.value.index] <= 65535))
    decreases |checksums| - i
  {
    if i < |checksums| {
      KeysErrorIs(checksums, sizes, i + 1);
    }
  }

  /** What is left of a v2 map that is no list of one file's blocks. */
  lemma ConvertsIff(map2: Option<BlockMapV2>)
    ensures V2ToV3Keys(map2).Success? <==>
              && map2.Some? && map2.value.version == "2" && |map2.value.files| == 1
              && var file := map2.value.files[0];
                 && file.offset == 0 && |file.checksums| == |file.sizes|
                 && forall k :: 0 <= k < |file.sizes| ==> IsV3Block(file.checksums[k], file.sizes[k])
    ensures V2ToV3Keys(map2).Success? ==>
              && V2ToV3Keys(map2).value.version == "2" && |V2ToV3Keys(map2).value.files| == 1
              && var before, after := map2.value.files[0], V2ToV3Keys(map2).value.files[0];
                 && after.name == before.name && after.offset == 0 && after.sizes == before.sizes && |after.checksums| == |before.checksums|
                 && forall k :: 0 <= k < |after.checksums| ==> IsKeyOf(after.checksums[k], before.checksums[k])
  {
    hide IsV3Block, KeysError, KeyOf, IsKeyOf;
    if map2.Some? && |map2.value.files| == 1 && |map2.value.files[0].checksums| == |map2.value.files[0].sizes| {
      var file := map2.value.files[0];
      KeysErrorIs(file.checksums, file.sizes, 0);
      forall k | 0 <= k < |file.checksums| && IsV3Block(file.checksums[k], file.sizes[k]) ensures IsKeyOf(KeyOf(file.checksums[k]), file.checksums[k]) {
        ChecksumIsOfDigest(file.checksums[k], file.sizes[k]);
      }
    }
  }

  /** The key is the hex of the first 8 of the 18 bytes that the checksum is the base64 of. */
  ghost predicate IsKeyOf(key: string, checksum: string) {
    exists digest: bytes :: |digest| == 18 && B64.Encode(digest) == checksum && key == Hex(digest[..8])
  }

  lemma {:induction false} StandardIsCanonical(s: string)
    requires |s| % 4 == 0 && forall k :: 0 <= k < |s| ==> B64.IsStandard(s[k])
    ensures B64.IsCanonical(s)
  {
    if |s| >= 4 {
      StandardIsCanonical(s[4..]);
    }
  }

  lemma {:induction false} NoPadding(b: bytes)
    requires '=' !in B64.Encode(b)
    ensures |b| % 3 == 0
  {
    if |b| > 2 {
      var q := B64.Quad(b[0], b[1], b[2]);
      var rest := B64.Encode(b[3..]);
      assert B64.Encode(b) == [B64.Digit(q[0]), B64.Digit(q[1]), B64.Digit(q[2]), B64.Digit(q[3])] + rest;
      NoPadding(b[3..]);
    }
  }

  /** Every accepted checksum is the base64 of a digest of 18 bytes. */
  lemma ChecksumIsOfDigest(checksum: string, size: int)
    requires IsV3Block(checksum, size)
    ensures IsKeyOf(KeyOf(checksum), checksum)
  {
    hide B64.Encode, B64.Decode, Hex, B64.IsCanonical;
    StandardIsCanonical(checksum);
    B64.CanonicalRoundTrip(checksum);
    NoPadding(B64.Decode(checksum));
    FullGroupsAreStandard(B64.Decode(checksum));
  }

  // ---- the two formats agree

  /** The v2 map of blocks: whole digests in base64. */
  function V2Of(blocks: seq<BlockInput>, name: string): BlockMapV2 {
    BlockMapV2("2", [FileChunks(name, 0,
                                seq(|blocks|, k requires 0 <= k < |blocks| => B64.Encode(blocks[k].digest)),
                                Sizes(blocks))])
  }

  lemma {:induction false} FullGroupsAreStandard(digest: bytes)
    requires |digest| % 3 == 0
    ensures |B64.Encode(digest)| == |digest| / 3 * 4
    ensures forall k :: 0 <= k < |B64.Encode(digest)| ==> B64.IsStandard(B64.Encode(digest)[k])
  {
    if digest != [] {
      FullGroupsAreStandard(digest[3..]);
      var q := B64.Quad(digest[0], digest[1], digest[2]);
      B64.DigitIsStandard(q[0]);
      B64.DigitIsStandard(q[1]);
      B64.DigitIsStandard(q[2]);
      B64.DigitIsStandard(q[3]);
      var rest := B64.Encode(digest[3..]);
      assert B64.Encode(digest) == [B64.Digit(q[0]), B64.Digit(q[1]), B64.Digit(q[2]), B64.Digit(q[3])] + rest;
    }
  }

  /** A digest's v2 checksum is accepted and its v3 key is the hash its v3 record carries. */
  lemma KeyOfDigest(digest: bytes)
    requires |digest| == V2_DIGEST_LENGTH
    ensures IsV2Checksum(B64.Encode(digest))
    ensures KeyOf(B64.Encode(digest)) == Hex(Prefix8(digest))
  {
    FullGroupsAreStandard(digest);
    B64.DecodeEncode(digest);
  }

  lemma {:induction false} NoKeyError(blocks: seq<BlockInput>, file: FileChunks, i: nat)
    requires |file.checksums| == |file.sizes| == |blocks|
    requires forall k :: 0 <= k < |blocks| ==> IsV3Size(file.sizes[k]) && IsV2Checksum(file.checksums[k])
    ensures KeysError(file.checksums, file.sizes, i).None?
    decreases |blocks| - i
  {
    if i < |blocks| {
      NoKeyError(blocks, file, i + 1);
    }
  }

  lemma V2KeysOfBlocks(blocks: seq<BlockInput>)
    requires forall k :: 0 <= k < |blocks| ==> |blocks[k].digest| == V2_DIGEST_LENGTH && IsV3Size(blocks[k].size)
    ensures SizesFit(blocks)
    ensures V2ToV3Keys(Some(V2Of(blocks, "file"))) == Success(ChunksOf(RecordsOf(blocks)))
  {
    Pow256Values();
    var file := V2Of(blocks, "file").files[0];
    forall k | 0 <= k < |blocks|
      ensures IsV2Checksum(file.checksums[k]) && KeyOf(file.checksums[k]) == RecordsOf(blocks)[k].hash
    {
      KeyOfDigest(blocks[k].digest);
    }
    NoKeyError(blocks, file, 0);
    var chunks := ChunksOf(RecordsOf(blocks)).files[0];
    assert Keys(file.checksums) == chunks.checksums;
    assert file.sizes == chunks.sizes;
  }

  /**
   For blocks with full digests and sizes a record can hold, converting the v2 map gives exactly the checksums and sizes
   of the decoded v3 map of the same blocks.
   */
  lemma BothFormatsAgree(h: bytes -> Hash8, blocks: seq<BlockInput>, options: EncodeOptions, expectedFileSize: Option<int>, maxSize: Option<int>)
    requires Encode(h, blocks, options).Success?
    requires forall k :: 0 <= k < |blocks| ==> |blocks[k].digest| == V2_DIGEST_LENGTH && IsV3Size(blocks[k].size)
    requires Decode(Encode(h, blocks, options).value, expectedFileSize, maxSize).Success?
    ensures V2ToV3Keys(Some(V2Of(blocks, "file"))) == Success(ToBlockMap(Decode(Encode(h, blocks, options).value, expectedFileSize, maxSize).value))
  {
    hide Encode, Decode, RecordsOf, ChunksOf, V2ToV3Keys, V2Of;
    RecordsSurvive(h, blocks, options, expectedFileSize, maxSize);
    V2KeysOfBlocks(blocks);
  }

  /** Two converted checksums match exactly when their digests share the first 8 bytes. */
  lemma KeysMatchOnPrefix(a: bytes, b: bytes)
    requires |a| == |b| == V2_DIGEST_LENGTH
    ensures KeyOf(B64.Encode(a)) == KeyOf(B64.Encode(b)) <==> a[..HASH_LEN] == b[..HASH_LEN]
  {
    KeyOfDigest(a);
    KeyOfDigest(b);
    if KeyOf(B64.Encode(a)) == KeyOf(B64.Encode(b)) {
      HexInjective(Prefix8(a), Prefix8(b));
    }
  }
}
