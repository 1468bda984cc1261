# Verified core of electron-builder

A Dafny model of the parts of electron-builder that have to be exactly right, with proofs about them. Each component is a
module of its own, in the form of the code it models: loops are loops, objects are classes, expressions are functions, and
every method is proved against a function or a property that the theorems are about.

- **Block map v3** (`BlockMap*`, `Grouping`, `Buffers`, `RangeCoalescing`, `FetchPlan`): the binary index of a published file that
  differential updates compare. Content-defined grouping at two levels, the encoder that fills buffers by cursors, the validating
  decoder, the byte layout both agree on, the ranges for partial fetches, the keys shared with the older JSON map, and the fetcher
  that assembles a new map from an old one or falls back to the whole file. The hash is a parameter; that it does not collide is
  assumed only where a theorem says so, and only on the finite set of byte strings being compared.
- **Signed update manifests** (`Json`, `Manifest`, `ManifestReader`, `ManifestShape`, `ManifestVerify`, `Pem`, `PemBlocks`, `SigningKeys`, `Base64`):
  the canonical text that is signed, a reader of it, the shape check, verification against a trust list with key rotation, PEM
  splitting, and signing keys from the environment. Key parsing, key ids and the signature scheme are parameters.
- **Distinguished names** (`DistinguishedName`, `DistinguishedNamePrinter`, `PublisherName`, `Utf8`): the one-loop parser of RFC 2253
  names, a printer with the escapes of section 2.4 of that RFC, and publisher matching.
- **Physical paths** (`FileTree`, `PhysicalPath`, `WriteGuard`): a file system with dangling and cyclic symlinks, resolution of paths
  that do not exist yet, and the guard that keeps writes inside a root.
- **Smaller pieces**: capped brace expansion (`BraceExpansion`), redirect chains (`Redirects`), the draining task manager
  (`AsyncTasks`) and base-62 identifiers (`Ksuid`). `Arithmetic`, `Bytes`, `Seqs`, `Texts` and `Wrappers` hold what several modules share.

Where the code and its comments differ, the model follows the code and a theorem says exactly when the comment holds:

- The canonical text is said to determine every signed field. It does for exactly the manifests without NaN or an infinity
  (`Manifest.TextDeterminesIffFinite`): JSON prints all of those as `null`.
- A `Host` header is said never to reach another origin. It does exactly when it is one of the request's own headers
  (`Redirects.HostSentIffOwn`), on that hop and on every later one (`Redirects.HostAfterCrossing`).
- A signing key variable that decodes to no complete PEM block is said to be refused. A text that starts a block but completes
  none passes as one key and is left to the key parser, for example the base64 of a lone `-----BEGIN`
  (`SigningKeys.IncompleteKeyPasses`); the keys are complete blocks exactly when the text holds a well-formed BEGIN marker
  followed by a well-formed END marker (`SigningKeys.CompleteIffSomeBlock`).
- A name is said to be parsed as RFC 2253 writes it, but the text is trimmed first, and trimming takes the blank off a backslash
  and a blank at the end (`PublisherName.EscapedBlankAtEndIsLost`). A printed name is read back exactly when its last value does
  not end in a whitespace character written as a backslash and that character; otherwise exactly the last attribute is missing
  (`DistinguishedNamePrinter.ParsePrintIff`). Matching works on what is left (`PublisherName.MatchPrinted`), so it is exact for
  an entry or a subject exactly when that one loses nothing, or is an entry that matches nothing because a value is empty
  (`PublisherName.EntryIsExactIff`, `PublisherName.SubjectIsExactIff`).
- 64-bit header fields are read as JavaScript numbers. The header of an encoded map is read back unchanged exactly when the
  blocks are not more than the bytes of the file and every such field is a number of at most 53 bits, or 2^53, times a power of
  two (`BlockMapRoundTrip.HeaderReadBackIff`). The encoder's callers pass JavaScript numbers, so theirs are; a file size of
  2^53 + 1 is read as 2^53 (`BlockMapRoundTrip.LargeFileSizeIsRead`).
- A foreign key id is said never to keep a legitimately signed manifest from verifying. It does when the top-level signature is
  also listed under that id: it is then tried with no other key (`ManifestVerify.ForeignIdHidesLegacy`). A manifest is accepted
  exactly as `ManifestVerify.AcceptedAsWritten` says.
- prepareFile is said to make a file ready to be written. It does exactly when the way to the file's directory does not go through
  the symlink it removes (`WriteGuard.ClearedCanBeWritten`, with an input in `WriteGuard.SymlinkOnItsOwnWay`); otherwise the write
  fails and creates nothing.
- The fetcher's first request is sized from the old header. A new map whose header is longer than that cannot be fetched in
  parts: it is refused as truncated, and the caller downloads it whole (`BlockMapUpdate.FetchBlockMapV3`).

`dafny verify dfyconfig.toml` checks the project.

## Model

| member | source | states |
|---|---|---|
| Grouping.GroupsAreGreedy | packages/builder-util-runtime/src/blockMapV3.ts:152-187 | the ranges cover all items one after the other, and each ends at the first item where the close rule holds |
| Grouping.GreedyIsUnique | packages/builder-util-runtime/src/blockMapV3.ts:152-187 | there is only one such partition, so the grouping is a canonical form |
| Grouping.GroupSizes | packages/builder-util-runtime/src/blockMapV3.ts:51-61 | a group has at most the maximum and, unless the next boundary is forced, at least the minimum number of members |
| Grouping.ForcedItemStartsGroup | packages/builder-util-runtime/src/blockMapV3.ts:152-187 | every item with a forced boundary before it starts a group |
| BlockMapEncoder.GroupBlocks | packages/builder-util-runtime/src/blockMapV3.ts:152-167 | the loop returns exactly the greedy groups of the blocks |
| BlockMapEncoder.GroupSupers | packages/builder-util-runtime/src/blockMapV3.ts:174-187 | the loop returns exactly the greedy super-groups of the group hashes and offsets |
| BlockMapCuts.GroupCut | packages/builder-util-runtime/src/blockMapV3.ts:152-167 | on the digests: from the eighth block of a group on, none but its last has the low five bits of byte 7 set; no boundary is forced inside; a group that ends before the last block, below 128 blocks and before no forced boundary has at least 8 and ends in such a block |
| BlockMapCuts.SuperCut | packages/builder-util-runtime/src/blockMapV3.ts:174-187 | on the group hashes: the same of super-groups, with the low four bits of the last hash byte, 4 and 64 |
| BlockMapCuts.MarkerResynchronizes | packages/builder-util-runtime/src/blockMapV3.ts:16-25 | two files that reach a marker block of common content with open groups of at least 8 blocks both cut there, and have identical group entries for the common tail, whatever came before |
| BlockMapCuts.MarkerResynchronizesSupers | packages/builder-util-runtime/src/blockMapV3.ts:16-25 | the same one level up, with open super-groups of at least 4 groups |
| BlockMapV3.InfosOfRangesFit | packages/builder-util-runtime/src/blockMapV3.ts:217-249 | byteLength and blockCount of every group fit their 32-bit and 16-bit fields |
| BlockMapV3.SupersOfRangesFit | packages/builder-util-runtime/src/blockMapV3.ts:217-249 | blockCount and groupCount of every super-group fit their fields |
| BlockMapEncoder.FillRecords | packages/builder-util-runtime/src/blockMapV3.ts:205-215 | the cursor loop writes the record table, or reports the first block whose size a record cannot hold |
| BlockMapEncoder.FillGroups | packages/builder-util-runtime/src/blockMapV3.ts:217-234 | the cursor loop writes one entry per group with the hash of its records, and yields the hashes and offsets for the level above |
| BlockMapEncoder.FillSupers | packages/builder-util-runtime/src/blockMapV3.ts:236-249 | the cursor loop writes one entry per super-group with the hash of its group entries |
| BlockMapEncoder.WriteFixedHeader | packages/builder-util-runtime/src/blockMapV3.ts:251-266 | every fixed header field lands at its offset in little-endian order, or the value that does not fit is refused |
| BlockMapEncoder.EncodeBlockMapV3 | packages/builder-util-runtime/src/blockMapV3.ts:196-277 | the encoder that fills buffers computes the specified file layout, error cases included |
| BlockMapFormat.EncodesIff | packages/builder-util-runtime/src/blockMapV3.ts:196-277 | the encoder succeeds exactly when every block size, count, region and chunker value fits the width of its field |
| BlockMapFormat.EncodedLayout | packages/builder-util-runtime/src/blockMapV3.ts:11-22 | every encoded map has the documented layout, byte by byte: each field of the header, the regions, the super-groups, the groups and the records stands at its offset, lowest byte first |
| BlockMapDecoder.ParseBlockMapV3Header | packages/builder-util-runtime/src/blockMapV3.ts:280-330 | the header is read field by field, with the first error in the order of the checks |
| BlockMapDecoder.CheckBlockMapV3Supers | packages/builder-util-runtime/src/blockMapV3.ts:414-427 | super-groups are accepted exactly when none is empty and their counts sum to the header's |
| BlockMapDecoder.CheckBlockMapV3Groups | packages/builder-util-runtime/src/blockMapV3.ts:433-444 | groups are accepted exactly when none is empty and their counts sum to the header's |
| BlockMapDecoder.DecodeBlockMapV3 | packages/builder-util-runtime/src/blockMapV3.ts:479-491 | the decoder computes the specified parse with all checks in their order |
| BlockMapFormat.DecodesIff | packages/builder-util-runtime/src/blockMapV3.ts:280-491 | the decoder accepts exactly the byte strings of this layout whose magic, version and lengths are right, whose counts sum up, that hold no empty super-group, group or block, and that have the expected size within the limits |
| BlockMapRoundTrip.DecodeEncode | packages/builder-util-runtime/src/blockMapV3.ts:196-491 | decoding an encoded map succeeds exactly when its counts fit the file, the size limits and the expected size and no block is empty, and then returns the header fields and regions, with 64-bit fields as JavaScript numbers, both tables and one record per block that were encoded |
| BlockMapRoundTrip.HeaderReadBackIff | packages/builder-util-runtime/src/blockMapV3.ts:251-330 | the parsed header of an encoded map equals the encoded fields exactly when the blocks are not more than the bytes of the file and every 64-bit field is m * 2^k with m at most 2^53 |
| BlockMapRoundTrip.SafeHeaderIsReadBack | packages/builder-util-runtime/src/blockMapV3.ts:251-330 | so a header with at least as many bytes as blocks and 64-bit fields of at most 2^53 is read back as it was encoded |
| BlockMapRoundTrip.LargeFileSizeIsRead | packages/builder-util-runtime/src/blockMapV3.ts:311 | the header encoded for a file of 2^53 + 1 bytes parses to one of 2^53 bytes |
| Bytes.ToNumberIsExactIff | packages/builder-util-runtime/src/blockMapV3.ts:302-311 | rounding to the nearest double, ties to even, leaves a whole number alone exactly when it is m * 2^k with m at most 2^53 |
| BlockMapIndex.GroupEntryRanges | packages/builder-util-runtime/src/blockMapV3.ts:447-456 | the accumulating loop yields the byte ranges of every super-group's entries |
| BlockMapIndex.RecordRanges | packages/builder-util-runtime/src/blockMapV3.ts:459-468 | the accumulating loop yields the byte ranges of every group's records |
| BlockMapIndex.RangesTile | packages/builder-util-runtime/src/blockMapV3.ts:446-468 | in every accepted map the super-groups' ranges tile the group table and the groups' ranges tile the records, to the last byte |
| BlockMapIndex.RangeParsesAlone | packages/builder-util-runtime/src/blockMapV3.ts:397-408 | a group's range, parsed alone, gives the slice of records the full decode attributes to it |
| BlockMapIndex.EntryRangeParsesAlone | packages/builder-util-runtime/src/blockMapV3.ts:384-395 | a super-group's range, parsed alone, gives its slice of the group table |
| BlockMapLocality.TablesSplitAtForced | packages/builder-util-runtime/src/blockMapV3.ts:16-25 | splitting the blocks at a forced boundary makes the tables the concatenation of the tables of the parts |
| BlockMapLocality.ShiftKeepsTables | packages/builder-util-runtime/src/blockMapV3.ts:217-249 | shifting all offsets and boundaries by a constant changes no byte of the tables |
| BlockMapLocality.SameContentSameTables | packages/builder-util-runtime/src/blockMapV3.ts:203-249 | blocks with the same digests, sizes and boundaries have byte-identical tables wherever they lie |
| BlockMapLocality.SharedTailSharesGroups | packages/builder-util-runtime/src/blockMapV3.ts:16-25 | two files that close a group right before tails with the same content have identical group entries for those tails |
| BlockMapLocality.SharedTailSharesSupers | packages/builder-util-runtime/src/blockMapV3.ts:16-25 | the same one level up |
| BlockMapLocality.ForcedIff | packages/builder-util-runtime/src/blockMapV3.ts:198-203 | boundaries are forced where a region begins or ends, and nowhere else |
| BlockMapLocality.RegionEdgeIsBoundary | packages/builder-util-runtime/src/blockMapV3.ts:16-25 | a block at a region edge starts a group that starts a super-group |
| BlockMapVerify.VerifyBlockMapV3 | packages/electron-updater/src/differentialDownloader/blockMapV3Fetcher.ts:637-704 | the checking loops accept exactly the maps whose hashes, counts, sizes and emptiness rules all hold |
| BlockMapVerify.VerifiedMapsAgree | packages/electron-updater/src/differentialDownloader/blockMapV3Fetcher.ts:112-126 | two verified maps with the same header and super table are the same bytes unless the hash collides on what they hash |
| BlockMapVerify.VerifiedHasNoEmptyBlock | packages/electron-updater/src/differentialDownloader/blockMapV3Fetcher.ts:678-687 | the check group by group leaves no empty block anywhere in the records |
| BlockMapVerify.VerifiedAddsUp | packages/electron-updater/src/differentialDownloader/blockMapV3Fetcher.ts:637-704 | in a verified map every number is what the level below adds up to: the blocks of a super-group, the bytes of a group, the blocks and the bytes of the file |
| BlockMapMerkle.EncodedMapVerifies | packages/electron-updater/src/differentialDownloader/blockMapV3Fetcher.ts:633-704 | verification accepts an encoded map exactly when no block is empty and the blocks add up to the file size as read |
| RangeCoalescing.Coalesce | packages/electron-updater/src/differentialDownloader/blockMapV3Fetcher.ts:620-631 | the merged ranges cover every given range, begin and end where given ones do, lie further apart than the gap, and hold no stretch wider than the gap that no given range touches |
| FetchPlan.PlanSuperStage | packages/electron-updater/src/differentialDownloader/blockMapV3Fetcher.ts:532-557 | each super-group is matched to the first equal old one; of the others exactly the bytes beyond those in hand are to be fetched |
| FetchPlan.PlanRecordStage | packages/electron-updater/src/differentialDownloader/blockMapV3Fetcher.ts:572-617 | groups of matched super-groups are matched by position, the others to the first equal old group; of the rest exactly the records beyond the bytes in hand are to be fetched |
| BlockMapFetch.EqualSupersEqualContent | packages/electron-updater/src/differentialDownloader/blockMapV3Fetcher.ts:567-571 | super-groups of two genuine maps with equal hashes hold equal groups in the same order and equal records in each of them, without a collision |
| BlockMapFetch.StageTwo | packages/electron-updater/src/differentialDownloader/blockMapV3Fetcher.ts:215-236 | asks for the entries of unmatched super-groups beyond the bytes in hand, merged across gaps of up to 1024 bytes, and for nothing else; with a genuine old map the buffer then holds the new group table |
| BlockMapFetch.StageThree | packages/electron-updater/src/differentialDownloader/blockMapV3Fetcher.ts:238-257 | asks for the records of unmatched groups in the same way; with a genuine old map the buffer then holds the new records |
| BlockMapFetch.FetchParts | packages/electron-updater/src/differentialDownloader/blockMapV3Fetcher.ts:196-265 | stages 2 to 4: with a genuine old map the assembled buffer is the new map, byte for byte; whatever the old map and the server hold, an assembled buffer is a genuine map of its header |
| BlockMapUpdate.VerifiedWhole | packages/electron-updater/src/differentialDownloader/blockMapV3Fetcher.ts:280-289 | a whole body passes as it is, and a v3 map exactly when it decodes as the caller expects and verifies |
| BlockMapUpdate.HeaderOfPrefix | packages/electron-updater/src/differentialDownloader/blockMapV3Fetcher.ts:179-189 | the first bytes of a map parse to its header when they hold it, and are refused as truncated otherwise |
| BlockMapUpdate.FirstRangeFits | packages/electron-updater/src/differentialDownloader/blockMapV3Fetcher.ts:504-513 | the first request holds the header, a super-group table up to a quarter and 16 entries larger than the old one and 8 group entries, and no larger table, within 2 KiB and 64 KiB |
| BlockMapUpdate.FetchBlockMapV3 | packages/electron-updater/src/differentialDownloader/blockMapV3Fetcher.ts:172-316 | from any file, old map and answers: a v3 result decodes as expected, verifies and is the published map unless the hash collides, another format is the server's file; a published map arrives from a server that answers, without a usable old map always, with a genuine one when the first request finds the whole header, and not at all when it does not; with a usable old map no v3 map is downloaded whole, no byte is asked for twice or behind the end of a published map, and nothing behind the super-group table of one whose super-groups the old map all has |
| BlockMapUpdate.EncodedMapIsPublished | packages/builder-util-runtime/src/blockMapV3.ts:196-277 | an encoded map decodes and verifies exactly when the decoder accepts its header and blocks and the blocks add up to the file size as read |
| BlockMapUpdate.FetchEncodedMap | packages/electron-updater/src/differentialDownloader/blockMapV3Fetcher.ts:172-265 | between two encoded maps without a collision the fetch returns the new one, byte for byte, by ranges only, and asks for nothing behind the super-group table when the old map has all of its super-groups |
| BlockMapKeys.BlockMapV2ToV3Keys | packages/builder-util-runtime/src/blockMapV3.ts:522-545 | the loop converts every checksum or reports the first block that cannot be converted |
| BlockMapKeys.ConvertsIff | packages/builder-util-runtime/src/blockMapV3.ts:522-545 | a v2 map is converted exactly when it is of version 2, holds one file at offset 0 and every block has a size of 1 to 65535 and a checksum of 24 base64 characters; every key is then the hex of the first 8 of the 18 bytes the checksum encodes |
| BlockMapKeys.KeysErrorIs | packages/builder-util-runtime/src/blockMapV3.ts:531-541 | otherwise the error names the first such block, its size before its checksum |
| BlockMapKeys.BothFormatsAgree | packages/builder-util-runtime/src/blockMapV3.ts:497-545 | the converted v2 map of any blocks equals toBlockMap of the decoded v3 map of the same blocks |
| BlockMapKeys.KeysMatchOnPrefix | packages/builder-util-runtime/src/blockMapV3.ts:509-518 | two converted checksums match exactly when their digests share the first 8 bytes |
| Base64.CanonicalRoundTrip | packages/builder-util/src/cscLink.ts:7-18 | a canonical text is the encoding of what it decodes to (sections 3.5 and 4 of RFC 4648) |
| Base64.StrictIsExact | packages/builder-util/src/cscLink.ts:13-18 | the strict decoder accepts exactly the non-empty canonical encodings, wherever whitespace is put, and returns the bytes they encode |
| Base64.EncodeThree | packages/builder-util/src/cscLink.ts:7-18 | three bytes are four characters, the digits of 6 bits of one 24-bit number in the alphabet A-Z, a-z, 0-9, + and / (section 4 of RFC 4648) |
| Base64.EncodeRest | packages/builder-util/src/cscLink.ts:7-18 | one or two bytes at the end are two or three such characters, padded |
| Base64.SpacedDecodes | packages/builder-util/src/cscLink.ts:13-18 | a canonical text decodes the same with any whitespace of ECMA-262, told by code point, inserted anywhere |
| Json.QuoteInjective | packages/builder-util-runtime/src/updateManifestSignature.ts:13-30 | different strings have different JSON texts (section 7 of RFC 8259) |
| Json.ParseQuote | packages/builder-util-runtime/src/updateManifestSignature.ts:13-30 | a quoted string, read by the grammar of section 7 of RFC 8259, is the string |
| Json.EscapeCharIsExact | packages/builder-util-runtime/src/updateManifestSignature.ts:22-30 | the exact text of every single character: two with a backslash, 32 control characters as in a table, every other one as it is |
| Json.QuoteAppend | packages/builder-util-runtime/src/updateManifestSignature.ts:22-30 | a string is quoted character by character |
| Json.QuotePlain | packages/builder-util-runtime/src/updateManifestSignature.ts:22-30 | so a string without quotes, backslashes and control characters stands between the quotes as it is |
| Json.FieldIsExact | packages/builder-util-runtime/src/updateManifestSignature.ts:22-30 | two scalar values are encoded alike exactly when they are equal, up to the numbers JSON prints as null |
| Json.FieldIsPrintable | packages/builder-util-runtime/src/updateManifestSignature.ts:13-21 | the encoding of a scalar holds no control character, so neither separator |
| Json.DecimalPrintsNumbers | packages/builder-util-runtime/src/updateManifestSignature.ts:13-21 | what the theorems assume of printed numbers can be met: decimal notation of whole numbers does |
| Manifest.FileLineIsExact | packages/builder-util-runtime/src/updateManifestSignature.ts:97-101 | file records have the same line exactly when all fields agree, an absent block map URL told from a present one |
| Manifest.PackageLineIsExact | packages/builder-util-runtime/src/updateManifestSignature.ts:110-114 | package records have the same line exactly when arch and fields agree and the admin flag is true in both or neither |
| Manifest.FileLineJoins | packages/builder-util-runtime/src/updateManifestSignature.ts:61-69 | a file line is its label and its three or four fields, joined by tabs |
| Manifest.PackageLineJoins | packages/builder-util-runtime/src/updateManifestSignature.ts:61-80 | a package line is its label and its six fields, joined by tabs |
| Manifest.CanonicalizeForSigning | packages/builder-util-runtime/src/updateManifestSignature.ts:83-121 | the line-collecting code computes the canonical text |
| ManifestReader.ReadCanonical | packages/builder-util-runtime/src/updateManifestSignature.ts:61-80 | a separate reader of the documented format - lines, labels in their order, tabs - gets every signed field back from the canonical text of any manifest of scalar fields |
| ManifestReader.RecordsAscend | packages/builder-util-runtime/src/updateManifestSignature.ts:61-80 | the records of the files, and those of the packages, stand in ascending order |
| Manifest.CanonicalIsExact | packages/builder-util-runtime/src/updateManifestSignature.ts:32-121 | manifests of scalar fields have the same canonical text if and only if they agree on every signed field, as multisets of files and packages, up to what JSON keeps of numbers |
| Manifest.TextDeterminesIffFinite | packages/builder-util-runtime/src/updateManifestSignature.ts:13-21 | the canonical text determines the signed fields of exactly the manifests without NaN or infinity |
| Manifest.FiniteCanonicalIsExact | packages/builder-util-runtime/src/updateManifestSignature.ts:32-81 | manifests of finite numbers have the same canonical text exactly when their signed fields agree |
| Manifest.NonFiniteHasTwin | packages/builder-util-runtime/src/updateManifestSignature.ts:26-29 | every manifest with a NaN or infinity has a twin with other signed fields and the same text |
| ManifestShape.ValidateSignedManifestShape | packages/builder-util-runtime/src/updateManifestSignature.ts:166-232 | the checks report the first problem in their order, and none exactly for a manifest of valid shape |
| ManifestShape.NoProblemIffShapeValid | packages/builder-util-runtime/src/updateManifestSignature.ts:146-165 | no check fails exactly when the documented shape holds |
| ManifestShape.ProblemIsThere | packages/builder-util-runtime/src/updateManifestSignature.ts:166-232 | the problem that is reported, with its file, arch or field, is one the manifest has |
| ManifestVerify.CollectManifestSignatures | packages/builder-util-runtime/src/updateManifestSignature.ts:371-382 | the listed signatures in order, and the legacy one unless its text is among them |
| ManifestVerify.VerifyManifestSignatures | packages/builder-util-runtime/src/updateManifestSignature.ts:413-443 | the loop with its set of seen ids computes the verdict, including the key that throws |
| ManifestVerify.AcceptedIff | packages/builder-util-runtime/src/updateManifestSignature.ts:400-443 | with usable keys a manifest is accepted exactly when its shape is valid and some trusted key verifies a candidate tagged with its id or untagged; repeated keys make no difference |
| ManifestVerify.AcceptedAsWritten | packages/builder-util-runtime/src/updateManifestSignature.ts:371-443 | the same on the manifest as it is written: accepted exactly when the shape is valid and a trusted key verifies a signature that is listed for its id, listed under no id, or the top-level one and not listed |
| ManifestVerify.AcceptedKeyVerifies | packages/builder-util-runtime/src/updateManifestSignature.ts:413-443 | the id of an accepted manifest is that of a trusted key that verifies a signature carried for it, whatever the other keys are |
| ManifestVerify.LegacyAloneIsAccepted | packages/builder-util-runtime/src/updateManifestSignature.ts:371-443 | a manifest with only the top-level signature is accepted by every usable trust list with the key that verifies it |
| ManifestVerify.ForeignIdHidesLegacy | packages/builder-util-runtime/src/updateManifestSignature.ts:371-443 | a manifest whose top-level signature is also listed, under the id of no trusted key, is rejected whatever the trusted keys would verify |
| ManifestVerify.ThrowsIff | packages/builder-util-runtime/src/updateManifestSignature.ts:405-443 | a trust list throws exactly when an unusable key comes before every key that verifies |
| ManifestVerify.AcceptedWasPublished | packages/builder-util-runtime/src/updateManifestSignature.ts:32-81 | when the trusted keys verify canonical texts of published manifests only, an accepted manifest has the signed fields of a published one |
| ManifestVerify.SignedIff | packages/builder-util/src/updateManifestSigner.ts:23-49 | signing succeeds exactly when there is a key, every key is a usable Ed25519 one and the verifier would take the shape; then every key signs |
| ManifestVerify.EntryOfKey | packages/builder-util/src/updateManifestSigner.ts:36-49 | entry j of the created signatures carries the id of key j and its base64 signature of the canonical text |
| ManifestVerify.SharedKeyIsAccepted | packages/builder-util/src/updateManifestSigner.ts:23-49 | a manifest signed with a list of keys is accepted by every trust list that shares one of them, also after edits that keep the signed fields |
| ManifestVerify.EditKeepsSignedFields | packages/builder-util-runtime/src/updateManifestSignature.ts:47-52 | other notes, date, name or file order keep the shape, the signed fields and the canonical text |
| Pem.SplitPemBlocks | packages/builder-util-runtime/src/updateManifestSignature.ts:277-325 | the nested loops compute the blocks, terminate, and look at no more than 26 characters per character of the trimmed text |
| PemBlocks.IsMarkerIff | packages/builder-util-runtime/src/updateManifestSignature.ts:245-264 | a marker is its prefix, a label that is not empty and holds no dash, and five dashes |
| PemBlocks.WrittenIsBlock | packages/builder-util-runtime/src/updateManifestSignature.ts:266-276 | a BEGIN marker, a body without dashes and an END marker are a block |
| PemBlocks.SplitIsStable | packages/builder-util-runtime/src/updateManifestSignature.ts:266-276 | splitting any of the results again changes nothing |
| PemBlocks.SplitGivesParts | packages/builder-util-runtime/src/updateManifestSignature.ts:266-276 | the results are disjoint parts of the trimmed text in its order: the whole of it, or complete blocks |
| PemBlocks.SplitMissesNothing | packages/builder-util-runtime/src/updateManifestSignature.ts:266-276 | every well-formed BEGIN marker that a well-formed END marker follows lies in one of the results |
| PemBlocks.SplitUndoesJoin | packages/builder-util-runtime/src/updateManifestSignature.ts:266-276 | splitting complete blocks joined by line breaks gives back the list |
| SigningKeys.NormalizePublicKeyList | packages/builder-util-runtime/src/updateManifestSignature.ts:332-343 | the keys of every configured text in order, each of which is one key when split again |
| SigningKeys.ConfiguredBlocks | packages/builder-util-runtime/src/updateManifestSignature.ts:332-343 | texts of joined blocks, among values that are no texts, give exactly their blocks in order |
| SigningKeys.EnvRoundTrip | packages/builder-util/src/updateManifestSigner.ts:89-115 | the base64 of concatenated PEM files, whitespace put into it anywhere, decodes to exactly their blocks |
| SigningKeys.EnvIff | packages/builder-util/src/updateManifestSigner.ts:89-115 | a value is accepted exactly when it holds no PEM text itself, is strict base64, and decodes to a text that starts a block and has nothing but whitespace behind its last key |
| SigningKeys.CompleteIffSomeBlock | packages/builder-util/src/updateManifestSigner.ts:103-114 | the decoded keys are complete blocks exactly when the decoded text holds a well-formed BEGIN marker followed by a well-formed END marker |
| SigningKeys.IncompleteKeyPasses | packages/builder-util/src/updateManifestSigner.ts:103-114 | the base64 of a BEGIN and nothing else, whitespace put into it anywhere, is accepted as one key that is no complete block |
| Utf8.DecodeEscapedBytes | packages/builder-util-runtime/src/rfc2253Parser.ts:28-43 | the loop decodes each valid UTF-8 sequence and keeps any other byte as a Latin-1 character |
| Utf8.DecodeEncode | packages/builder-util-runtime/src/rfc2253Parser.ts:3-43 | decoding the UTF-8 encoding of any text gives the text back |
| Utf8.DecodeIsExact | packages/builder-util-runtime/src/rfc2253Parser.ts:27-43 | where the bytes begin with the UTF-8 encoding of a character, that character is read; where they begin with no encoding, the first byte is a Latin-1 character |
| DistinguishedName.ParseDn | packages/builder-util-runtime/src/rfc2253Parser.ts:45-131 | the loop with its index jumps and cached look-ahead terminates and computes the position-wise parse |
| DistinguishedNamePrinter.ParsePrint | packages/builder-util-runtime/src/rfc2253Parser.ts:45-131 | parsing a printed name gives back its attributes without the last one if that ends in a backslashed whitespace character, whatever the values, whatever is escaped by a backslash, by hex pairs or by quotes, with any separators and any number of blanks around them and around the equals signs |
| DistinguishedNamePrinter.ParsePrintIff | packages/builder-util-runtime/src/rfc2253Parser.ts:45-131 | a printed name with distinct keys is read back exactly when its last value does not end in a backslashed whitespace character; else exactly the last attribute is missing |
| PublisherName.MatchPublisherName | packages/builder-util-runtime/src/authenticodeSignature.ts:138-155 | without a subject it throws; else it is true exactly when some entry matches |
| PublisherName.MatchPrinted | packages/builder-util-runtime/src/authenticodeSignature.ts:103-155 | a written entry matches exactly when what is left of it is a non-empty set of non-empty attributes contained in what is left of the subject, in any order |
| PublisherName.EntryIsExactIff | packages/builder-util-runtime/src/authenticodeSignature.ts:103-155 | an entry matches exactly the subjects that contain it, if and only if its last value does not end in a backslashed whitespace character or some value is empty, so that it matches nothing anyway |
| PublisherName.SubjectIsExactIff | packages/builder-util-runtime/src/authenticodeSignature.ts:103-155 | a subject is matched exactly by the entries it contains, if and only if its last value does not end so |
| PublisherName.EscapedBlankAtEndIsLost | packages/builder-util-runtime/src/rfc2253Parser.ts:51-84 | the name that prints as CN=a, a backslash and a blank parses to no attribute |
| PhysicalPath.WalkComponents | packages/builder-util/src/pathContainment.ts:48-84 | the work-list loop terminates (symlinks left, then components left) and computes the walk |
| PhysicalPath.ResolvePhysicalPath | packages/builder-util/src/pathContainment.ts:32-88 | realpath where it succeeds, else the walk |
| PhysicalPath.RealpathOfDeepestExisting | packages/builder-util/src/pathContainment.ts:90-104 | of a path without symlinks, the path itself |
| PhysicalPath.WritesLandWhereResolved | packages/builder-util/src/pathContainment.ts:32-36 | where the system opens or creates a file, the path resolves to that place, dangling symlinks included; the walk agrees with realpath whenever that succeeds (section 4.13 of POSIX.1-2017) |
| PhysicalPath.WalkFailsOnLoops | packages/builder-util/src/pathContainment.ts:52-84 | resolving fails only on too many symlinks |
| PhysicalPath.ResolvedIsPhysical | packages/builder-util/src/pathContainment.ts:48 | no prefix of a resolved path is a symlink |
| PhysicalPath.ResolveIsStable | packages/builder-util/src/pathContainment.ts:32-88 | resolving a resolved path changes nothing |
| WriteGuard.WithinIsPrefix | packages/builder-util/src/pathContainment.ts:17-21 | the comparison of texts is the comparison of components, also for names that begin with two dots |
| WriteGuard.RefusedIff | packages/builder-util/src/pathContainment.ts:284-296 | a directory is refused exactly when the root or the path does not resolve, with that error, or when it resolves outside the root |
| WriteGuard.MakesDirsOnTheWay | packages/builder-util/src/pathContainment.ts:298-306 | making directories creates only directories on the way to where the path resolved to beforehand, also when it fails halfway |
| WriteGuard.SecondCheckPasses | packages/builder-util/src/pathContainment.ts:303-308 | the check after making the directory never fails when nothing else changes the file system |
| WriteGuard.MakesDirsIff | packages/builder-util/src/pathContainment.ts:298-306 | a directory is made exactly when the part of its path that is there ends in a directory and nothing is where the rest goes |
| WriteGuard.EnsuredIff | packages/builder-util/src/pathContainment.ts:299-313 | ensureDir succeeds exactly when the path resolves inside the root and directories can be made along it; then the directory is there, inside the root |
| WriteGuard.GuardedWriteStaysInside | packages/builder-util/src/pathContainment.ts:236-261 | after a passed check and a cleared file a write through it lands inside the real root or nowhere |
| WriteGuard.ClearedCanBeWritten | packages/builder-util/src/pathContainment.ts:319-335 | with its directory there and no error in clearing it, a file can be written exactly when the way to its directory does not go through the symlink that was removed |
| WriteGuard.SymlinkOnItsOwnWay | packages/builder-util/src/pathContainment.ts:319-335 | for out/x/x, with out/x a symlink to out, prepareFile removes that symlink and the write fails with ENOENT |
| WriteGuard.WriteContainment.GetRealRoot | packages/builder-util/src/pathContainment.ts:277-282 | the real root is computed once and kept |
| WriteGuard.WriteContainment.AssertDirectoryWithin | packages/builder-util/src/pathContainment.ts:284-296 | a directory is refused exactly when it resolves outside the real root or does not resolve |
| WriteGuard.WriteContainment.EnsureDir | packages/builder-util/src/pathContainment.ts:299-313 | check, create, check again, once per directory: without an error exactly when the path resolves inside the root and directories can be made along it, and then the directory is there, inside the real root; what came of it is remembered |
| WriteGuard.WriteContainment.PrepareFile | packages/builder-util/src/pathContainment.ts:319-335 | on a new directory it succeeds exactly when the directory resolves inside the root and can be made; the file can then be written - unless its directory was reached through the symlink that was in its way - to a place inside the real root where nothing or a file or a directory is; every created directory is inside the root or on the way to it, and no file or directory is removed |
| BraceExpansion.SplitOnCommas | packages/app-builder-lib/src/fileMatcher.ts:151-168 | the scan yields the parts between top-level commas |
| BraceExpansion.SplitIsExact | packages/app-builder-lib/src/fileMatcher.ts:150-168 | the parts joined by commas are the text, no comma in a part is at nesting depth 0, and every separating comma is |
| BraceExpansion.GroupIsBalanced | packages/app-builder-lib/src/fileMatcher.ts:121-134 | the first group ends where the nesting depth first returns to zero, and there is none exactly when it never does |
| BraceExpansion.ExpandBraces | packages/app-builder-lib/src/fileMatcher.ts:116-148 | the recursion with its loops computes the capped expansion, of 1 to 64 strings |
| BraceExpansion.ExpandKeepsMeaning | packages/app-builder-lib/src/fileMatcher.ts:107-148 | the full expansions of the results, one after the other, are the full expansion of the pattern, whether or not the cap was hit |
| BraceExpansion.ExpandIsComplete | packages/app-builder-lib/src/fileMatcher.ts:107-148 | a pattern with at most 64 full expansions is expanded to just these, and a result that could be expanded further has more than 64 |
| BraceExpansion.FullOfGroup | packages/app-builder-lib/src/fileMatcher.ts:113-148 | the full expansions of a pattern whose first group holds the given balanced parts are those of the pattern with each part in the place of the group, in order |
| BraceExpansion.FullOfNoGroup | packages/app-builder-lib/src/fileMatcher.ts:116-134 | a pattern without an opening brace, or whose first one is never closed, stands for itself |
| BraceExpansion.FullKeepsEnding | packages/app-builder-lib/src/fileMatcher.ts:259-265 | a brace-free ending of a string is an ending of each of its full expansions |
| BraceExpansion.LongestExcludedExtension | packages/app-builder-lib/src/fileMatcher.ts:248-257 | the longest extension the name ends with, or none when there is none |
| BraceExpansion.BasenameIs | packages/app-builder-lib/src/fileMatcher.ts:273 | the name an extension is looked for in is what follows the last slash |
| BraceExpansion.CollectExtensionReincludes | packages/app-builder-lib/src/fileMatcher.ts:266-280 | under each extension exactly the alternatives that name it are recorded, in the order of the patterns that do not begin with an exclamation mark and of their expansions, and all their full expansions end with it |
| Redirects.PrepareRedirectUrlOptions | packages/builder-util-runtime/src/httpExecutor.ts:520-550 | the stepwise changes to the copied options make the options of the redirected request |
| Redirects.RebuiltIsTarget | packages/builder-util-runtime/src/httpExecutor.ts:579-587 | the URL rebuilt from a hop's options is the one it was redirected to |
| Redirects.RedirectedIff | packages/builder-util-runtime/src/httpExecutor.ts:520-550 | a redirect is prepared exactly when the request has a hostname and the location parses against its URL |
| Redirects.UrlDefaults | packages/builder-util-runtime/src/httpExecutor.ts:579-587 | a request without scheme is https, without path for the root, and a default port is as good as none |
| Redirects.SameOriginIff | packages/builder-util-runtime/src/httpExecutor.ts:590-633 | two URLs are on one origin exactly when scheme, host and port agree, or for the upgrade to https on the default ports |
| Redirects.SameOriginKeeps | packages/builder-util-runtime/src/httpExecutor.ts:552-567 | on the same origin credentials and headers go on unchanged |
| Redirects.DefaultsAreSet | packages/builder-util-runtime/src/httpExecutor.ts:860-877 | every redirected request has Cache-Control no-cache, and the User-Agent electron-builder unless it brought one |
| Redirects.NormalNameIs | packages/builder-util-runtime/src/httpExecutor.ts:21 | header names are compared without dashes, underscores and ASCII case, wherever these stand |
| Redirects.ListedIff | packages/builder-util-runtime/src/httpExecutor.ts:25-68 | withheld are the nine default names and the registered ones, and no other |
| Redirects.CredentialsAreListed | packages/builder-util-runtime/src/httpExecutor.ts:25 | the headers credentials are sent in, as they are commonly spelled, are withheld |
| Redirects.HarmlessHeadersStay | packages/builder-util-runtime/src/httpExecutor.ts:42-52 | a header that is not listed goes on with its value, also to another origin; Host and protected names aside |
| Redirects.OwnCredentialsGo | packages/builder-util-runtime/src/httpExecutor.ts:559-577 | a listed header that is the request's own goes to another origin with its value |
| Redirects.AtMostElevenRequests | packages/builder-util-runtime/src/httpExecutor.ts:296-309 | no chain sends more than 11 requests, however the servers answer |
| Redirects.ChainHops | packages/builder-util-runtime/src/httpExecutor.ts:441-500 | each request of a chain is the redirect of the one before, and the too-many-redirects error comes after the last allowed one |
| Redirects.ChainEnds | packages/builder-util-runtime/src/httpExecutor.ts:441-500 | a chain follows redirects, status 300 to 399 with a location, as long as it may: it ends without an answer exactly when the responses are used up, else with an answer that is no redirect, after ten redirects, or at a redirect that cannot be prepared or, for downloads, leads to another protocol than http and https |
| Redirects.ChainStripsCredentials | packages/builder-util-runtime/src/httpExecutor.ts:538-577 | after the first hop to another origin no request carries a listed header, except its own ones and the executor's User-Agent and Cache-Control with the executor's values, nor the auth option |
| Redirects.HostSentIffOwn | packages/builder-util-runtime/src/httpExecutor.ts:552-577 | a Host header is sent to another origin exactly when it is one of the request's own headers |
| Redirects.HostAfterCrossing | packages/builder-util-runtime/src/httpExecutor.ts:520-577 | after the first hop to another origin every request of the chain carries a Host header exactly when it is one of the request's own headers |
| Redirects.RedirectedFlag | packages/builder-util-runtime/src/httpExecutor.ts:524-536 | a request is marked exactly when the chain was marked at the start or an earlier request left the machine |
| Redirects.LeavesIff | packages/builder-util-runtime/src/httpExecutor.ts:524-536 | a request leaves the machine when its host option, if it has one, or else its hostname is no loopback name |
| Redirects.LoopbackIff | packages/builder-util-runtime/src/httpExecutor.ts:887-893 | loopback names are localhost, ::1 and the IPv4 addresses that begin with 127., in any case, in brackets or not |
| Redirects.HopsAddressTarget | packages/builder-util-runtime/src/httpExecutor.ts:533-550 | every redirected request of a chain is addressed to the URL of its redirect, with no host option or port of an earlier hop left |
| AsyncTasks.AsyncTaskManager.AddTask | packages/builder-util/src/asyncTaskManager.ts:18-44 | a task is accepted in order, or cancelled when the token is |
| AsyncTasks.AsyncTaskManager.SettleTask | packages/builder-util/src/asyncTaskManager.ts:31-43 | a failure is recorded and the task is no longer cancellable |
| AsyncTasks.AsyncTaskManager.CancelTasks | packages/builder-util/src/asyncTaskManager.ts:46-52 | exactly the cancellable tasks are cancelled and exactly the tasks no drain has taken are dropped |
| AsyncTasks.AsyncTaskManager.AwaitTasks | packages/builder-util/src/asyncTaskManager.ts:54-91 | for every interleaving with added and settling tasks, cancelTasks() and the token: a drain that returns uncancelled has waited for every task added and not dropped by cancelTasks(), none failed, with the value of each task taken in order of addition; and a drain to which nothing is added ends once all it waits for has settled and it may go on |
| AsyncTasks.AsyncTaskManager.NothingLost | packages/builder-util/src/asyncTaskManager.ts:54-91 | when all drains returned so, every task added and not dropped has settled and none has failed |
| Ksuid.Base62Encode | packages/builder-util/src/ksuid.ts:21-30 | the loop computes the 27 digits |
| Ksuid.DecodeEncode | packages/builder-util/src/ksuid.ts:21-30 | 27 digits hold every 20-byte buffer, and decoding them gives its number back |
| Ksuid.EncodeOrder | packages/builder-util/src/ksuid.ts:8-12 | string order of two encodings is the order of their numbers |
| Ksuid.GenerateKsuid | packages/builder-util/src/ksuid.ts:13-19 | an identifier exactly when the time fits 32 bits after the epoch |
| Ksuid.LaterSortsLater | packages/builder-util/src/ksuid.ts:8-12 | a later second sorts strictly later, whatever the random bytes |

## Left out

- The cryptography itself: blake2b, SHA-256, Ed25519 and key parsing are parameters with stated hypotheses.
- Text is a sequence of Unicode characters: lone surrogates cannot occur, sorting compares characters instead of UTF-16 units, and signed text stands for its UTF-8 bytes.
- Numbers of a manifest are named, not computed: how JSON prints a finite double is a parameter that tells numbers apart.
- Manifest.CanonicalIsExact: covers fields that are strings, numbers, booleans or absent; a nested object or a date is outside, and the shape check refuses it.
- BlockMapUpdate.FetchBlockMapV3: the server has one file while a fetch lasts, and a request is answered with exactly the ranges asked for, with the whole file, or not at all; redirects, multipart bodies and answers cut short are errors or are left out. The requests of one stage share their answer and count as one list of ranges.
- The decoder alone does not check hashes, so encode(decode(x)) is not claimed; BlockMapVerify covers what the updater checks.
- PhysicalPath.ResolvePhysicalPath: POSIX paths as component lists; Windows rules, case and short-name spelling, permissions and a trailing slash on a symlink target are left out, and the system follows at most 40 symlinks.
- WriteGuard.WriteContainment.PrepareFile: the containment guarantee is for a directory checked by this call, with no change to the file system by others meanwhile; for a directory checked before, the contract gives the remembered outcome only.
- BraceExpansion.ExpandBraces: no bound on the work is claimed, the cap bounds results only.
- Redirects.PrepareRedirectUrlOptions: URL parsing, net.isIPv4 and the method and body of requests are parameters or absent; header names are compared in ASCII; only the default header policy is modelled.
- AsyncTasks.AsyncTaskManager.AwaitTasks: one drain at a time; promises are steps of a schedule, and a promise is added once.
- Loading keys from files and the duplicate check of configured signing keys, which only repeats a map lookup.
- The external-link policy and the directory listing of escaping symlinks, which apply path resolution entry by entry.
- Name globs, minimatch and the file filters built on the brace expansion.
- The differential planner, installers, code signing tools, publishers, configuration and logging.
