/**
 Reading the canonical text of a manifest: a reader of the EBUM1 wire format that knows nothing of how it is written, and that
 gets back every signed field. It fixes the labels, their order, the separators and the order of the sections.
 */
module ManifestReader {
  import opened Json
  import opened Manifest
  import opened Texts
  import opened Wrappers

  /** A field as it stands in the text: nothing, a string, or a bare word. */
  datatype Field = Absent | Quoted(text: string) | Bare(word: string)

  datatype FileText = FileText(url: Field, sha512: Field, size: Field, blockMapUrl: Field)

  datatype PackageText = PackageText(arch: Field, path: Field, sha512: Field, size: Field, blockMapSize: Field, isAdmin: bool)

  datatype Reading = Reading(version: Field, staging: Field, minimumSystemVersion: Field, allowsCatalogSignature: bool,
                             files: seq<FileText>, packages: seq<PackageText>)

  // ---- the reader

  function SplitOn(text: string, sep: char): (parts: seq<string>)
    ensures parts != []
  {
    if text == "" then [""]
    else
      var rest := SplitOn(text[1..], sep);
      if text[0] == sep then [""] + rest else [[text[0]] + rest[0]] + rest[1..]
  }

  function ReadField(s: string): Option<Field> {
    if s == "" then Some(Absent)
    else if s[0] != '"' then Some(Bare(s))
    else if ParseString(s).Some? then Some(Quoted(ParseString(s).value))
    else None
  }

  /** The field behind a label. */
  function ReadLabelled(line: string, mark: string): Option<Field> {
    if mark <= line then ReadField(line[|mark|..]) else None
  }

  function ReadFields(parts: seq<string>): (fields: Option<seq<Field>>)
    ensures fields.Some? ==> |fields.value| == |parts|
  {
    if parts == [] then Some([])
    else
      var first, rest := ReadField(parts[0]), ReadFields(parts[1..]);
      if first.None? || rest.None? then None else Some([first.value] + rest.value)
  }

  /** A record of the given kind: its fields, separated by tabs. */
  function ReadRecord(line: string, mark: string): Option<seq<Field>> {
    if mark <= line then ReadFields(SplitOn(line[|mark|..], '\t')) else None
  }

  function ReadFile(line: string): Option<FileText> {
    var fields := ReadRecord(line, "file:");
    if fields.None? then None
    else
      var f := fields.value;
      if |f| == 3 then Some(FileText(f[0], f[1], f[2], Absent))
      else if |f| == 4 then Some(FileText(f[0], f[1], f[2], f[3]))
      else None
  }

  function ReadPackage(line: string): Option<PackageText> {
    var fields := ReadRecord(line, "package:");
    if fields.None? || |fields.value| != 6 then None
    else
      var f := fields.value;
      Some(PackageText(f[0], f[1], f[2], f[3], f[4], f[5] == Bare("1")))
  }

  function ReadFiles(lines: seq<string>): (files: seq<FileText>)
    ensures |files| <= |lines|
  {
    if lines == [] || ReadFile(lines[0]).None? then [] else [ReadFile(lines[0]).value] + ReadFiles(lines[1..])
  }

  function ReadPackages(lines: seq<string>): Option<seq<PackageText>> {
    if lines == [] then Some([])
    else
      var first, rest := ReadPackage(lines[0]), ReadPackages(lines[1..]);
      if first.None? || rest.None? then None else Some([first.value] + rest.value)
  }

  function Read(text: string): Option<Reading> {
    var lines := SplitOn(text, '\n');
    if |lines| < 4 || lines[0] != "EBUM1" then None
    else
      var version, staging := ReadLabelled(lines[1], "version:"), ReadLabelled(lines[2], "staging:");
      var minimum := ReadLabelled(lines[3], "minimumSystemVersion:");
      var catalog := |lines| > 4 && lines[4] == "allowCatalogSignature:true";
      var records := if catalog then lines[5..] else lines[4..];
      var files := ReadFiles(records);
      var packages := ReadPackages(records[|files|..]);
      if version.None? || staging.None? || minimum.None? || packages.None? then None
      else Some(Reading(version.value, staging.value, minimum.value, catalog, files, packages.value))
  }

  // ---- what stands for the fields of a manifest

  function FieldOf(num: int -> string, v: Value): Field
    requires IsScalar(v)
  {
    match v
    case Missing => Absent
    case Text(text) => Quoted(text)
    case Boolean(flag) => Bare(if flag then "true" else "false")
    case Num(Finite(double)) => Bare(num(double))
    case Num(_) => Bare("null")
  }

  function TextOfFile(num: int -> string, f: File): FileText
    requires ScalarFile(f)
  {
    FileText(FieldOf(num, f.url), FieldOf(num, f.sha512), FieldOf(num, f.size), FieldOf(num, f.blockMapUrl))
  }

  function TextOfPackage(num: int -> string, p: Package): PackageText
    requires ScalarPackage(p)
  {
    PackageText(Quoted(p.arch), FieldOf(num, p.path), FieldOf(num, p.sha512), FieldOf(num, p.size), FieldOf(num, p.blockMapSize),
                p.isAdminRightsRequired == Boolean(true))
  }

  ghost function TextOfFiles(num: int -> string, files: seq<File>): (texts: seq<FileText>)
    requires ScalarFiles(files)
    ensures |texts| == |files|
  {
    seq(|files|, k requires 0 <= k < |files| && ScalarFiles(files) => TextOfFile(num, files[k]))
  }

  ghost function TextOfPackages(num: int -> string, packages: seq<Package>): (texts: seq<PackageText>)
    requires ScalarPackages(packages)
    ensures |texts| == |packages|
  {
    seq(|packages|, k requires 0 <= k < |packages| && ScalarPackages(packages) => TextOfPackage(num, packages[k]))
  }

  // ---- fields and lines

  lemma {:induction false} SplitJoin(parts: seq<string>, sep: char)
    requires parts != [] && Without(parts, sep)
    ensures SplitOn(Join(parts, sep), sep) == parts
    decreases |parts|
  {
    if |parts| == 1 {
      SplitNothing(parts[0], sep);
    } else {
      SplitJoin(parts[1..], sep);
      SplitFirst(parts[0], Join(parts[1..], sep), sep);
    }
  }

  lemma {:induction false} SplitNothing(part: string, sep: char)
    requires sep !in part
    ensures SplitOn(part, sep) == [part]
  {
    if part != "" {
      SplitNothing(part[1..], sep);
      assert [part[0]] + part[1..] == part;
    }
  }

  lemma {:induction false} SplitFirst(part: string, rest: string, sep: char)
    requires sep !in part
    ensures SplitOn(part + [sep] + rest, sep) == [part] + SplitOn(rest, sep)
  {
    var text := part + [sep] + rest;
    if part == "" {
      assert text[1..] == rest;
    } else {
      assert text[1..] == part[1..] + [sep] + rest;
      SplitFirst(part[1..], rest, sep);
      assert [part[0]] + part[1..] == part;
    }
  }

  lemma FieldIsRead(num: int -> string, v: Value)
    requires PrintsNumbers(num) && IsScalar(v)
    ensures ReadField(EncodeField(num, v)) == Some(FieldOf(num, v))
  {
    match v
    case Text(text) => ParseQuote(text);
    case Num(Finite(double)) => assert IsNumberText(num(double));
    case _ =>
  }

  lemma LabelIsRead(num: int -> string, mark: string, v: Value)
    requires PrintsNumbers(num) && IsScalar(v)
    ensures ReadLabelled(mark + EncodeField(num, v), mark) == Some(FieldOf(num, v))
  {
    FieldIsRead(num, v);
    assert (mark + EncodeField(num, v))[|mark|..] == EncodeField(num, v);
  }

  lemma RecordIsRead(mark: string, parts: seq<string>)
    requires parts != [] && Without(parts, '\t')
    ensures ReadRecord(mark + Join(parts, '\t'), mark) == ReadFields(parts)
  {
    SplitJoin(parts, '\t');
    assert (mark + Join(parts, '\t'))[|mark|..] == Join(parts, '\t');
  }

  lemma FileIsRead(num: int -> string, f: File)
    requires PrintsNumbers(num) && ScalarFile(f)
    ensures ReadFile(FileLine(num, f)) == Some(TextOfFile(num, f))
  {
    hide FileLine, EncodeField, FieldOf, Join, SplitOn;
    var parts := FileParts(num, f);
    FileLineJoins(num, f);
    FilePartsPrintable(num, f);
    RecordIsRead("file:", parts);
    FieldIsRead(num, f.url);
    FieldIsRead(num, f.sha512);
    FieldIsRead(num, f.size);
    FieldIsRead(num, f.blockMapUrl);
    AbsentIsMissing(num, f.blockMapUrl);
    ReadFour(parts);
  }

  lemma AbsentIsMissing(num: int -> string, v: Value)
    ensures v.Missing? ==> FieldOf(num, v) == Absent
  {
  }

  lemma ReadFour(parts: seq<string>)
    requires 3 <= |parts| <= 4 && forall k :: 0 <= k < |parts| ==> ReadField(parts[k]).Some?
    ensures ReadFields(parts).Some? && forall k :: 0 <= k < |parts| ==> ReadFields(parts).value[k] == ReadField(parts[k]).value
  {
    ReadsEach(parts);
  }

  lemma {:induction false} ReadsEach(parts: seq<string>)
    requires forall k :: 0 <= k < |parts| ==> ReadField(parts[k]).Some?
    ensures ReadFields(parts).Some? && forall k :: 0 <= k < |parts| ==> ReadFields(parts).value[k] == ReadField(parts[k]).value
  {
    hide ReadField;
    if parts != [] {
      ReadsEach(parts[1..]);
      var fields := ReadFields(parts).value;
      forall k | 0 <= k < |parts| ensures fields[k] == ReadField(parts[k]).value {
        if k > 0 {
          assert fields[k] == ReadFields(parts[1..]).value[k - 1] && parts[k] == parts[1..][k - 1];
        }
      }
    }
  }

  lemma PackageIsRead(num: int -> string, p: Package)
    requires PrintsNumbers(num) && ScalarPackage(p)
    ensures ReadPackage(PackageLine(num, p)) == Some(TextOfPackage(num, p))
  {
    hide PackageLine, EncodeField, FieldOf, Join, SplitOn;
    var parts := PackageParts(num, p);
    PackageLineJoins(num, p);
    PackagePartsPrintable(num, p);
    RecordIsRead("package:", parts);
    FieldIsRead(num, Text(p.arch));
    FieldIsRead(num, p.path);
    FieldIsRead(num, p.sha512);
    FieldIsRead(num, p.size);
    FieldIsRead(num, p.blockMapSize);
    ArchIsQuoted(num, p.arch);
    ReadsEach(parts);
  }

  lemma ArchIsQuoted(num: int -> string, arch: string)
    ensures FieldOf(num, Text(arch)) == Quoted(arch)
  {
  }

  // ---- the sections

  /** Every line is a record of a file. */
  ghost predicate AllFiles(lines: seq<string>) {
    forall k :: 0 <= k < |lines| ==> ReadFile(lines[k]).Some?
  }

  ghost predicate AllPackages(lines: seq<string>) {
    forall k :: 0 <= k < |lines| ==> ReadPackage(lines[k]).Some?
  }

  function FileOf(line: string): FileText {
    if ReadFile(line).Some? then ReadFile(line).value else FileText(Absent, Absent, Absent, Absent)
  }

  function PackageOf(line: string): PackageText {
    if ReadPackage(line).Some? then ReadPackage(line).value else PackageText(Absent, Absent, Absent, Absent, Absent, false)
  }

  lemma {:induction false} FilesAreRead(lines: seq<string>, rest: seq<string>)
    requires AllFiles(lines) && (rest != [] ==> ReadFile(rest[0]).None?)
    ensures ReadFiles(lines + rest) == Map(FileOf, lines)
    decreases |lines|
  {
    hide ReadFile;
    if lines == [] {
      assert lines + rest == rest;
    } else {
      assert (lines + rest)[1..] == lines[1..] + rest;
      FilesAreRead(lines[1..], rest);
      assert Map(FileOf, lines) == [FileOf(lines[0])] + Map(FileOf, lines[1..]);
    }
  }

  lemma {:induction false} PackagesAreRead(lines: seq<string>)
    requires AllPackages(lines)
    ensures ReadPackages(lines) == Some(Map(PackageOf, lines))
    decreases |lines|
  {
    hide ReadPackage;
    if lines != [] {
      PackagesAreRead(lines[1..]);
      assert Map(PackageOf, lines) == [PackageOf(lines[0])] + Map(PackageOf, lines[1..]);
    }
  }

  /** A record of a package is none of a file. */
  lemma PackageIsNoFile(num: int -> string, p: Package)
    ensures ReadFile(PackageLine(num, p)).None?
  {
    assert PackageLine(num, p)[0] == 'p';
  }

  lemma SortedFiles(num: int -> string, files: seq<File>)
    requires PrintsNumbers(num) && ScalarFiles(files)
    ensures AllFiles(Sort(FileLines(num, files)))
    ensures multiset(Map(FileOf, Sort(FileLines(num, files)))) == multiset(TextOfFiles(num, files))
  {
    hide ReadFile, Sort, TextOfFile, FileLine, ScalarFile;
    var lines := FileLines(num, files);
    forall k | 0 <= k < |files| ensures ReadFile(lines[k]) == Some(TextOfFile(num, files[k])) {
      FileIsRead(num, files[k]);
    }
    forall k | 0 <= k < |Sort(lines)| ensures ReadFile(Sort(lines)[k]).Some? {
      MemberOfSorted(lines, k);
      var j :| 0 <= j < |lines| && lines[j] == Sort(lines)[k];
    }
    MapOfPermutation(FileOf, Sort(lines), lines);
    assert Map(FileOf, lines) == TextOfFiles(num, files);
  }

  lemma MemberOfSorted(lines: seq<string>, k: nat)
    requires k < |Sort(lines)|
    ensures exists j :: 0 <= j < |lines| && lines[j] == Sort(lines)[k]
  {
    assert Sort(lines)[k] in multiset(lines);
  }

  lemma SortedPackages(num: int -> string, packages: seq<Package>)
    requires PrintsNumbers(num) && ScalarPackages(packages)
    ensures AllPackages(Sort(PackageLines(num, packages)))
    ensures multiset(Map(PackageOf, Sort(PackageLines(num, packages)))) == multiset(TextOfPackages(num, packages))
    ensures forall k :: 0 <= k < |Sort(PackageLines(num, packages))| ==> ReadFile(Sort(PackageLines(num, packages))[k]).None?
  {
    hide ReadPackage, ReadFile, Sort, TextOfPackage, PackageLine, ScalarPackage;
    var lines := PackageLines(num, packages);
    forall k | 0 <= k < |packages|
      ensures ReadPackage(lines[k]) == Some(TextOfPackage(num, packages[k])) && ReadFile(lines[k]).None?
    {
      PackageIsRead(num, packages[k]);
      PackageIsNoFile(num, packages[k]);
    }
    forall k | 0 <= k < |Sort(lines)| ensures ReadPackage(Sort(lines)[k]).Some? && ReadFile(Sort(lines)[k]).None? {
      MemberOfSorted(lines, k);
      var j :| 0 <= j < |lines| && lines[j] == Sort(lines)[k];
    }
    MapOfPermutation(PackageOf, Sort(lines), lines);
    assert Map(PackageOf, lines) == TextOfPackages(num, packages);
  }

  // ---- the whole text

  /** The reading holds the signed fields of the manifest, the records in any order. */
  ghost predicate HoldsFields(num: int -> string, r: Reading, info: Manifest)
    requires ScalarFields(info)
  {
    && r.version == FieldOf(num, info.version) && r.staging == FieldOf(num, info.stagingPercentage)
    && r.minimumSystemVersion == FieldOf(num, info.minimumSystemVersion)
    && r.allowsCatalogSignature == (info.allowCatalogSignature == Boolean(true))
    && (info.files.Some? ==> multiset(r.files) == multiset(TextOfFiles(num, info.files.value)))
    && (info.packages.Packages? ==> multiset(r.packages) == multiset(TextOfPackages(num, info.packages.entries)))
    && (info.files.None? ==> r.files == []) && (info.packages == NoPackages ==> r.packages == [])
  }

  /** The reader gets the signed fields back from the canonical text. */
  lemma ReadCanonical(num: int -> string, info: Manifest)
    requires PrintsNumbers(num) && ScalarFields(info)
    ensures Read(Canonical(num, info)).Some? && HoldsFields(num, Read(Canonical(num, info)).value, info)
  {
    hide SplitOn, Join, FileLines, PackageLines, Sort, EncodeField, FieldOf, ReadFiles, ReadPackages, ReadLabelled, ReadFile, Map, FileOf, PackageOf,
         TextOfFiles, TextOfPackages, AllFiles, AllPackages, Lines, HeadLines, CatalogLines, ScalarFiles, ScalarPackages;
    var lines := Lines(num, info);
    var files, packages := Sort(FileLines(num, info.FileList())), Sort(PackageLines(num, info.PackageList()));
    EachOnOneLine(num, info);
    LinesNotEmpty(num, info);
    SplitJoin(lines, '\n');
    HeadIsRead(num, info);
    SortedFiles(num, info.FileList());
    SortedPackages(num, info.PackageList());
    RecordsBehindHead(num, info, files, packages);
    FilesAreRead(files, packages);
    PackagesAreRead(packages);
    assert (files + packages)[|files|..] == packages;
    MapLength(files);
  }

  lemma MapLength(lines: seq<string>)
    ensures |Map(FileOf, lines)| == |lines|
  {
  }

  lemma HeadIsRead(num: int -> string, info: Manifest)
    requires PrintsNumbers(num) && ScalarFields(info)
    ensures var lines := Lines(num, info);
            && |lines| >= 4 && lines[0] == "EBUM1"
            && ReadLabelled(lines[1], "version:") == Some(FieldOf(num, info.version))
            && ReadLabelled(lines[2], "staging:") == Some(FieldOf(num, info.stagingPercentage))
            && ReadLabelled(lines[3], "minimumSystemVersion:") == Some(FieldOf(num, info.minimumSystemVersion))
  {
    hide EncodeField, FieldOf, ReadLabelled, Sort;
    LabelIsRead(num, "version:", info.version);
    LabelIsRead(num, "staging:", info.stagingPercentage);
    LabelIsRead(num, "minimumSystemVersion:", info.minimumSystemVersion);
    var head := HeadLines(num, info);
    assert forall k :: 0 <= k < 4 ==> Lines(num, info)[k] == head[k];
  }

  lemma RecordsBehindHead(num: int -> string, info: Manifest, files: seq<string>, packages: seq<string>)
    requires files == Sort(FileLines(num, info.FileList())) && packages == Sort(PackageLines(num, info.PackageList()))
    ensures var lines := Lines(num, info);
            if info.allowCatalogSignature == Boolean(true) then |lines| > 4 && lines[4] == "allowCatalogSignature:true" && lines[5..] == files + packages
            else (|lines| > 4 ==> lines[4] != "allowCatalogSignature:true") && |lines| >= 4 && lines[4..] == files + packages
  {
    FileLinesStart(num, info.FileList());
    PackageLinesStart(num, info.PackageList());
    hide EncodeField, FileLines, PackageLines, Sort;
    var lines, head := Lines(num, info), HeadLines(num, info);
    if info.allowCatalogSignature == Boolean(true) {
      assert lines == head + ["allowCatalogSignature:true"] + (files + packages);
    } else {
      assert lines == head + (files + packages);
      assert files + packages != [] ==> lines[4] == (files + packages)[0];
    }
  }

  // ---- the order of the records

  /** a is b or a beginning of it, or has the smaller character where they first differ. */
  ghost predicate Ascending(a: string, b: string) {
    a <= b || exists k :: 0 <= k < |a| && k < |b| && a[..k] == b[..k] && a[k] < b[k]
  }

  lemma {:induction false} LexIsAscending(a: string, b: string)
    requires LexLe(a, b)
    ensures Ascending(a, b)
  {
    if a != "" && a[0] == b[0] {
      LexIsAscending(a[1..], b[1..]);
      if a[1..] <= b[1..] {
        assert a == [a[0]] + a[1..] && b == [b[0]] + b[1..];
      } else {
        var k :| 0 <= k < |a[1..]| && k < |b[1..]| && a[1..][..k] == b[1..][..k] && a[1..][k] < b[1..][k];
        assert a[..k + 1] == [a[0]] + a[1..][..k] && b[..k + 1] == [b[0]] + b[1..][..k];
        assert a[k + 1] < b[k + 1];
      }
    } else if a != "" {
      assert a[..0] == b[..0] && a[0] < b[0];
    }
  }

  /** In the canonical text the records of the files, and those of the packages, stand in ascending order. */
  lemma RecordsAscend(num: int -> string, info: Manifest, i: nat, mark: string)
    requires PrintsNumbers(num) && ScalarFields(info) && mark in {"file:", "package:"}
    requires i + 1 < |SplitOn(Canonical(num, info), '\n')|
    requires mark <= SplitOn(Canonical(num, info), '\n')[i] && mark <= SplitOn(Canonical(num, info), '\n')[i + 1]
    ensures Ascending(SplitOn(Canonical(num, info), '\n')[i], SplitOn(Canonical(num, info), '\n')[i + 1])
  {
    hide SplitOn, Join, LexLe, Ascending, EncodeField, FileLines, PackageLines, Sort;
    EachOnOneLine(num, info);
    LinesNotEmpty(num, info);
    SplitJoin(Lines(num, info), '\n');
    FileLinesStart(num, info.FileList());
    PackageLinesStart(num, info.PackageList());
    SortSorted(FileLines(num, info.FileList()));
    SortSorted(PackageLines(num, info.PackageList()));
    var files, packages := Sort(FileLines(num, info.FileList())), Sort(PackageLines(num, info.PackageList()));
    var n := |HeadLines(num, info)| + |CatalogLines(info)|;
    var lines := Lines(num, info);
    assert forall k :: 0 <= k < |files| ==> lines[n + k] == files[k];
    assert forall k :: 0 <= k < |packages| ==> lines[n + |files| + k] == packages[k];
    assert lines[i][0] == mark[0] == lines[i + 1][0];
    HeadStarts(num, info);
    LexIsAscending(lines[i], lines[i + 1]);
  }

  lemma HeadStarts(num: int -> string, info: Manifest)
    ensures var lines, n := Lines(num, info), |HeadLines(num, info)| + |CatalogLines(info)|;
            forall i :: 0 <= i < n ==> i < |lines| && lines[i] != "" && lines[i][0] != 'f' && lines[i][0] != 'p'
  {
  }
}
