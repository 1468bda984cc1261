/**
 The canonical text of an update manifest that is signed at publish time and verified at update time: what it covers,
 and that it covers it exactly.
 */
module Manifest {
  import opened Json
  import opened Texts
  import opened Wrappers

  /** An artifact. A null entry of the list reads as one without any field. */
  datatype File = File(url: Value, sha512: Value, size: Value, blockMapUrl: Value)

  /** An NSIS web-installer package under its arch key. */
  datatype Package = Package(arch: string, path: Value, sha512: Value, size: Value, blockMapSize: Value, isAdminRightsRequired: Value)

  /** `keyed` is false when the value is not an object keyed by arch (an array, say). */
  datatype Packages = NoPackages | Packages(keyed: bool, entries: seq<Package>)

  datatype SignatureEntry = SignatureEntry(keyId: Value, signature: Value)

  /** A parsed manifest. `files` is None when there is no list. */
  datatype Manifest = Manifest(
    version: Value, stagingPercentage: Value, minimumSystemVersion: Value, allowCatalogSignature: Value,
    files: Option<seq<File>>, packages: Packages,
    signature: Value, signatures: seq<SignatureEntry>,
    releaseDate: Value, releaseName: Value, releaseNotes: Value)
  {
    function FileList(): seq<File> {
      if files.Some? then files.value else []
    }

    function PackageList(): seq<Package> {
      if packages.Packages? then packages.entries else []
    }
  }

  // ---- the canonical text

  const FORMAT_VERSION := "EBUM1"
  const CATALOG_LINE := "allowCatalogSignature:true"

  function FileLine(num: int -> string, f: File): string {
    var record := "file:" + EncodeField(num, f.url) + "\t" + EncodeField(num, f.sha512) + "\t" + EncodeField(num, f.size);
    if f.blockMapUrl.Missing? then record else record + "\t" + EncodeField(num, f.blockMapUrl)
  }

  function PackageLine(num: int -> string, p: Package): string {
    "package:" + EncodeField(num, Text(p.arch)) + "\t" + EncodeField(num, p.path) + "\t" + EncodeField(num, p.sha512) + "\t"
    + EncodeField(num, p.size) + "\t" + EncodeField(num, p.blockMapSize) + "\t"
    + (if p.isAdminRightsRequired == Boolean(true) then "1" else "")
  }

  function HeadLines(num: int -> string, info: Manifest): seq<string> {
    [FORMAT_VERSION, "version:" + EncodeField(num, info.version), "staging:" + EncodeField(num, info.stagingPercentage),
     "minimumSystemVersion:" + EncodeField(num, info.minimumSystemVersion)]
  }

  function CatalogLines(info: Manifest): seq<string> {
    if info.allowCatalogSignature == Boolean(true) then [CATALOG_LINE] else []
  }

  function FileLines(num: int -> string, files: seq<File>): seq<string> {
    Map(f => FileLine(num, f), files)
  }

  function PackageLines(num: int -> string, packages: seq<Package>): seq<string> {
    Map(p => PackageLine(num, p), packages)
  }

  function Lines(num: int -> string, info: Manifest): seq<string> {
    HeadLines(num, info) + CatalogLines(info) + Sort(FileLines(num, info.FileList())) + Sort(PackageLines(num, info.PackageList()))
  }

  function Canonical(num: int -> string, info: Manifest): string {
    Join(Lines(num, info), '\n')
  }

  method CollectFileLines(num: int -> string, files: seq<File>) returns (lines: seq<string>)
    ensures lines == FileLines(num, files)
  {
    hide FileLine;
    lines := [];
    for i := 0 to |files|
      invariant lines == FileLines(num, files[..i])
    {
      lines := lines + [FileLine(num, files[i])];
    }
    assert files[..|files|] == files;
  }

  method CollectPackageLines(num: int -> string, packages: seq<Package>) returns (lines: seq<string>)
    ensures lines == PackageLines(num, packages)
  {
    hide PackageLine;
    lines := [];
    for i := 0 to |packages|
      invariant lines == PackageLines(num, packages[..i])
    {
      lines := lines + [PackageLine(num, packages[i])];
    }
    assert packages[..|packages|] == packages;
  }

  lemma NoPackageLines(num: int -> string)
    ensures Sort(PackageLines(num, [])) == []
  {
  }

  /** canonicalizeForSigning: collects the lines, sorting the records, and joins them. */
  method CanonicalizeForSigning(num: int -> string, info: Manifest) returns (text: string)
    ensures text == Canonical(num, info)
  {
    hide Join, HeadLines, FileLines, PackageLines, Sort;
    var lines := HeadLines(num, info);
    if info.allowCatalogSignature == Boolean(true) {
      lines := lines + [CATALOG_LINE];
    }
    assert lines == HeadLines(num, info) + CatalogLines(info);
    hide CatalogLines;
    var files := CollectFileLines(num, info.FileList());
    files := Sort(files);
    lines := lines + files;
    if info.packages.Packages? {
      var packages := CollectPackageLines(num, info.packages.entries);
      packages := Sort(packages);
      lines := lines + packages;
    } else {
      NoPackageLines(num);
      assert info.PackageList() == [] && lines + [] == lines;
    }
    text := Join(lines, '\n');
  }

  // ---- what is signed

  /** The fields a signature protects, free of the order of files and packages. */
  datatype Signed = Signed(version: Value, stagingPercentage: Value, minimumSystemVersion: Value, allowsCatalogSignature: bool,
                           files: multiset<File>, packages: multiset<Package>)

  /** Of the admin flag only `true` is told from the rest. */
  function WithFlag(p: Package): Package {
    p.(isAdminRightsRequired := Boolean(p.isAdminRightsRequired == Boolean(true)))
  }

  function SignedFields(info: Manifest): Signed {
    Signed(info.version, info.stagingPercentage, info.minimumSystemVersion, info.allowCatalogSignature == Boolean(true),
           multiset(info.FileList()), multiset(Map(WithFlag, info.PackageList())))
  }

  function KeptFile(f: File): File {
    File(Kept(f.url), Kept(f.sha512), Kept(f.size), Kept(f.blockMapUrl))
  }

  function KeptPackage(p: Package): Package {
    Package(p.arch, Kept(p.path), Kept(p.sha512), Kept(p.size), Kept(p.blockMapSize), WithFlag(p).isAdminRightsRequired)
  }

  /** The signed fields up to what JSON keeps of numbers. */
  function KeptFields(info: Manifest): Signed {
    Signed(Kept(info.version), Kept(info.stagingPercentage), Kept(info.minimumSystemVersion), info.allowCatalogSignature == Boolean(true),
           multiset(Map(KeptFile, info.FileList())), multiset(Map(KeptPackage, info.PackageList())))
  }

  predicate ScalarFile(f: File) {
    IsScalar(f.url) && IsScalar(f.sha512) && IsScalar(f.size) && IsScalar(f.blockMapUrl)
  }

  predicate ScalarPackage(p: Package) {
    IsScalar(p.path) && IsScalar(p.sha512) && IsScalar(p.size) && IsScalar(p.blockMapSize)
  }

  /** No signed field is an object or array. */
  ghost predicate ScalarFields(info: Manifest) {
    && IsScalar(info.version) && IsScalar(info.stagingPercentage) && IsScalar(info.minimumSystemVersion)
    && ScalarFiles(info.FileList()) && ScalarPackages(info.PackageList())
  }

  ghost predicate ScalarFiles(files: seq<File>) {
    forall k :: 0 <= k < |files| ==> ScalarFile(files[k])
  }

  ghost predicate ScalarPackages(packages: seq<Package>) {
    forall k :: 0 <= k < |packages| ==> ScalarPackage(packages[k])
  }

  // ---- records are told apart

  function FileParts(num: int -> string, f: File): seq<string> {
    [EncodeField(num, f.url), EncodeField(num, f.sha512), EncodeField(num, f.size)]
    + if f.blockMapUrl.Missing? then [] else [EncodeField(num, f.blockMapUrl)]
  }

  function PackageParts(num: int -> string, p: Package): seq<string> {
    [EncodeField(num, Text(p.arch)), EncodeField(num, p.path), EncodeField(num, p.sha512), EncodeField(num, p.size),
     EncodeField(num, p.blockMapSize), if p.isAdminRightsRequired == Boolean(true) then "1" else ""]
  }

  lemma Join3(a: string, b: string, c: string)
    ensures Join([a, b, c], '\t') == a + "\t" + b + "\t" + c
  {
    assert [a, b, c][1..] == [b, c] && [b, c][1..] == [c];
    assert Join([b, c], '\t') == b + ['\t'] + c;
  }

  lemma Join4(a: string, b: string, c: string, d: string)
    ensures Join([a, b, c, d], '\t') == a + "\t" + b + "\t" + c + "\t" + d
  {
    Join3(b, c, d);
    assert [a, b, c, d][1..] == [b, c, d];
  }

  lemma Join6(a: string, b: string, c: string, d: string, e: string, f: string)
    ensures Join([a, b, c, d, e, f], '\t') == a + "\t" + b + "\t" + c + "\t" + d + "\t" + e + "\t" + f
  {
    Join4(c, d, e, f);
    assert [a, b, c, d, e, f][1..] == [b, c, d, e, f];
    assert [b, c, d, e, f][1..] == [c, d, e, f];
    assert Join([b, c, d, e, f], '\t') == b + ['\t'] + Join([c, d, e, f], '\t');
  }

  lemma FileLineJoins(num: int -> string, f: File)
    ensures FileLine(num, f) == "file:" + Join(FileParts(num, f), '\t')
  {
    hide Join, EncodeField;
    var a, b, c, d := EncodeField(num, f.url), EncodeField(num, f.sha512), EncodeField(num, f.size), EncodeField(num, f.blockMapUrl);
    if f.blockMapUrl.Missing? {
      Join3(a, b, c);
      assert FileParts(num, f) == [a, b, c];
    } else {
      Join4(a, b, c, d);
      assert FileParts(num, f) == [a, b, c, d];
    }
  }

  lemma PackageLineJoins(num: int -> string, p: Package)
    ensures PackageLine(num, p) == "package:" + Join(PackageParts(num, p), '\t')
  {
    hide Join, EncodeField;
    var parts := PackageParts(num, p);
    Join6(parts[0], parts[1], parts[2], parts[3], parts[4], parts[5]);
    assert parts == [parts[0], parts[1], parts[2], parts[3], parts[4], parts[5]];
  }

  lemma FilePartsPrintable(num: int -> string, f: File)
    requires PrintsNumbers(num) && ScalarFile(f)
    ensures Without(FileParts(num, f), '\t') && Without(FileParts(num, f), '\n')
  {
    hide EncodeField;
    FieldIsPrintable(num, f.url);
    FieldIsPrintable(num, f.sha512);
    FieldIsPrintable(num, f.size);
    FieldIsPrintable(num, f.blockMapUrl);
  }

  lemma PackagePartsPrintable(num: int -> string, p: Package)
    requires PrintsNumbers(num) && ScalarPackage(p)
    ensures Without(PackageParts(num, p), '\t') && Without(PackageParts(num, p), '\n')
  {
    hide EncodeField;
    FieldIsPrintable(num, Text(p.arch));
    FieldIsPrintable(num, p.path);
    FieldIsPrintable(num, p.sha512);
    FieldIsPrintable(num, p.size);
    FieldIsPrintable(num, p.blockMapSize);
  }

  /** Two file records have the same line exactly when they agree on every field, and on whether there is a blockMapUrl. */
  lemma FileLineIsExact(num: int -> string, f: File, g: File)
    requires PrintsNumbers(num) && ScalarFile(f) && ScalarFile(g)
    ensures FileLine(num, f) == FileLine(num, g) <==> KeptFile(f) == KeptFile(g)
  {
    FieldsExact(num, f.url, g.url);
    FieldsExact(num, f.sha512, g.sha512);
    FieldsExact(num, f.size, g.size);
    FieldsExact(num, f.blockMapUrl, g.blockMapUrl);
    hide Join, EncodeField, Kept;
    FileLineJoins(num, f);
    FileLineJoins(num, g);
    var a, b := FileParts(num, f), FileParts(num, g);
    if FileLine(num, f) == FileLine(num, g) {
      assert Join(a, '\t') == ("file:" + Join(a, '\t'))[5..] == ("file:" + Join(b, '\t'))[5..] == Join(b, '\t');
      FilePartsPrintable(num, f);
      FilePartsPrintable(num, g);
      JoinInjective(a, b, '\t');
      assert a[0] == b[0] && a[1] == b[1] && a[2] == b[2] && |a| == |b|;
      assert |a| == 4 ==> a[3] == b[3];
    }
  }

  lemma FieldsExact(num: int -> string, u: Value, v: Value)
    requires PrintsNumbers(num) && IsScalar(u) && IsScalar(v)
    ensures EncodeField(num, u) == EncodeField(num, v) <==> Kept(u) == Kept(v)
    ensures Kept(u) == Kept(v) ==> (u.Missing? <==> v.Missing?)
    ensures u.Missing? && v.Missing? ==> Kept(u) == Kept(v)
  {
    FieldIsExact(num, u, v);
  }

  lemma PackageLineIsExact(num: int -> string, p: Package, q: Package)
    requires PrintsNumbers(num) && ScalarPackage(p) && ScalarPackage(q)
    ensures PackageLine(num, p) == PackageLine(num, q) <==> KeptPackage(p) == KeptPackage(q)
  {
    FieldIsExact(num, Text(p.arch), Text(q.arch));
    FieldIsExact(num, p.path, q.path);
    FieldIsExact(num, p.sha512, q.sha512);
    FieldIsExact(num, p.size, q.size);
    FieldIsExact(num, p.blockMapSize, q.blockMapSize);
    assert Kept(Text(p.arch)) == Text(p.arch) && Kept(Text(q.arch)) == Text(q.arch);
    hide Join, EncodeField, Kept;
    PackageLineJoins(num, p);
    PackageLineJoins(num, q);
    var a, b := PackageParts(num, p), PackageParts(num, q);
    if PackageLine(num, p) == PackageLine(num, q) {
      assert Join(a, '\t') == ("package:" + Join(a, '\t'))[8..] == ("package:" + Join(b, '\t'))[8..] == Join(b, '\t');
      PackagePartsPrintable(num, p);
      PackagePartsPrintable(num, q);
      JoinInjective(a, b, '\t');
      assert a[0] == b[0] && a[1] == b[1] && a[2] == b[2] && a[3] == b[3] && a[4] == b[4] && a[5] == b[5];
    }
  }

  // ---- the list of lines is taken apart again

  ghost predicate AllStart(lines: seq<string>, c: char) {
    forall k :: 0 <= k < |lines| ==> lines[k] != "" && lines[k][0] == c
  }

  ghost predicate NoneStarts(lines: seq<string>, c: char) {
    forall k :: 0 <= k < |lines| ==> lines[k] == "" || lines[k][0] != c
  }

  /** Lines that start with c followed by lines that do not: the boundary is fixed. */
  lemma SplitAtClass(xs: seq<string>, ys: seq<string>, us: seq<string>, vs: seq<string>, c: char)
    requires AllStart(xs, c) && AllStart(us, c) && NoneStarts(ys, c) && NoneStarts(vs, c)
    requires xs + ys == us + vs
    ensures xs == us && ys == vs
  {
    var all := xs + ys;
    assert forall k :: 0 <= k < |xs| ==> all[k] == xs[k] && all[k] != "" && all[k][0] == c;
    assert forall k :: 0 <= k < |us| ==> all[k] == us[k] && all[k] != "" && all[k][0] == c;
    assert |xs| < |all| ==> all[|xs|] == ys[0];
    assert |us| < |all| ==> all[|us|] == vs[0];
    assert |xs| == |us|;
    assert xs == all[..|xs|] && us == all[..|us|];
    assert ys == all[|xs|..] && vs == all[|us|..];
  }

  lemma SortKeepsStart(lines: seq<string>, c: char)
    requires AllStart(lines, c)
    ensures AllStart(Sort(lines), c)
  {
    forall k | 0 <= k < |Sort(lines)| ensures Sort(lines)[k] != "" && Sort(lines)[k][0] == c {
      assert Sort(lines)[k] in multiset(lines);
      var j :| 0 <= j < |lines| && lines[j] == Sort(lines)[k];
    }
  }

  lemma FileLinesStart(num: int -> string, files: seq<File>)
    ensures AllStart(Sort(FileLines(num, files)), 'f') && NoneStarts(Sort(FileLines(num, files)), 'a')
  {
    hide FileLine, Sort;
    forall k | 0 <= k < |files| ensures FileLine(num, files[k]) != "" && FileLine(num, files[k])[0] == 'f' {
      FileLineStarts(num, files[k]);
    }
    SortKeepsStart(FileLines(num, files), 'f');
  }

  lemma FileLineStarts(num: int -> string, f: File)
    ensures FileLine(num, f) != "" && FileLine(num, f)[0] == 'f'
  {
    hide EncodeField;
  }

  lemma PackageLinesStart(num: int -> string, packages: seq<Package>)
    ensures AllStart(Sort(PackageLines(num, packages)), 'p')
    ensures NoneStarts(Sort(PackageLines(num, packages)), 'a') && NoneStarts(Sort(PackageLines(num, packages)), 'f')
  {
    SortKeepsStart(PackageLines(num, packages), 'p');
  }

  /** Four sections are fixed by the list they make up: the first by its length, the others by how their lines start. */
  lemma SectionsApart(ha: seq<string>, ca: seq<string>, fa: seq<string>, pa: seq<string>,
                      hb: seq<string>, cb: seq<string>, fb: seq<string>, pb: seq<string>)
    requires |ha| == |hb| && ha + ca + fa + pa == hb + cb + fb + pb
    requires AllStart(ca, 'a') && AllStart(cb, 'a')
    requires NoneStarts(fa, 'a') && NoneStarts(fb, 'a') && AllStart(fa, 'f') && AllStart(fb, 'f')
    requires NoneStarts(pa, 'a') && NoneStarts(pb, 'a') && NoneStarts(pa, 'f') && NoneStarts(pb, 'f')
    ensures ha == hb && ca == cb && fa == fb && pa == pb
  {
    var ra, rb := ca + (fa + pa), cb + (fb + pb);
    assert ha + ca + fa + pa == ha + ra && hb + cb + fb + pb == hb + rb;
    assert ha == (ha + ra)[..|ha|] && hb == (hb + rb)[..|ha|];
    assert ra == (ha + ra)[|ha|..] && rb == (hb + rb)[|ha|..];
    SplitAtClass(ca, fa + pa, cb, fb + pb, 'a');
    SplitAtClass(fa, pa, fb, pb, 'f');
  }

  lemma LinesOfTheSame(num: int -> string, a: Manifest, b: Manifest)
    requires Lines(num, a) == Lines(num, b)
    ensures HeadLines(num, a) == HeadLines(num, b) && CatalogLines(a) == CatalogLines(b)
    ensures Sort(FileLines(num, a.FileList())) == Sort(FileLines(num, b.FileList()))
    ensures Sort(PackageLines(num, a.PackageList())) == Sort(PackageLines(num, b.PackageList()))
  {
    CatalogStart(a);
    CatalogStart(b);
    assert |HeadLines(num, a)| == |HeadLines(num, b)| == 4;
    hide HeadLines, CatalogLines, FileLines, PackageLines, Sort, AllStart, NoneStarts;
    FileLinesStart(num, a.FileList());
    FileLinesStart(num, b.FileList());
    PackageLinesStart(num, a.PackageList());
    PackageLinesStart(num, b.PackageList());
    SectionsApart(HeadLines(num, a), CatalogLines(a), Sort(FileLines(num, a.FileList())), Sort(PackageLines(num, a.PackageList())),
                  HeadLines(num, b), CatalogLines(b), Sort(FileLines(num, b.FileList())), Sort(PackageLines(num, b.PackageList())));
  }

  lemma CatalogStart(info: Manifest)
    ensures AllStart(CatalogLines(info), 'a')
  {
  }

  // ---- no line holds a line break

  lemma JoinWithout(lines: seq<string>, sep: char, c: char)
    requires Without(lines, c) && c != sep
    ensures c !in Join(lines, sep)
  {
    if |lines| > 1 {
      JoinWithout(lines[1..], sep, c);
    }
  }

  lemma FileLineIsOneLine(num: int -> string, f: File)
    requires PrintsNumbers(num) && ScalarFile(f)
    ensures '\n' !in FileLine(num, f)
  {
    hide EncodeField, FileLine;
    FilePartsPrintable(num, f);
    FileLineJoins(num, f);
    JoinWithout(FileParts(num, f), '\t', '\n');
  }

  lemma PackageLineIsOneLine(num: int -> string, p: Package)
    requires PrintsNumbers(num) && ScalarPackage(p)
    ensures '\n' !in PackageLine(num, p)
  {
    hide EncodeField, PackageLine;
    PackagePartsPrintable(num, p);
    PackageLineJoins(num, p);
    JoinWithout(PackageParts(num, p), '\t', '\n');
  }

  lemma SortWithout(lines: seq<string>, c: char)
    requires Without(lines, c)
    ensures Without(Sort(lines), c)
  {
    forall k | 0 <= k < |Sort(lines)| ensures c !in Sort(lines)[k] {
      assert Sort(lines)[k] in multiset(lines);
      var j :| 0 <= j < |lines| && lines[j] == Sort(lines)[k];
    }
  }

  lemma HeadIsPrintable(num: int -> string, info: Manifest)
    requires PrintsNumbers(num) && ScalarFields(info)
    ensures Without(HeadLines(num, info), '\n') && Without(CatalogLines(info), '\n')
  {
    hide EncodeField;
    FieldIsPrintable(num, info.version);
    FieldIsPrintable(num, info.stagingPercentage);
    FieldIsPrintable(num, info.minimumSystemVersion);
  }

  lemma EachOnOneLine(num: int -> string, info: Manifest)
    requires PrintsNumbers(num) && ScalarFields(info)
    ensures Without(Lines(num, info), '\n')
  {
    HeadIsPrintable(num, info);
    var files, packages := info.FileList(), info.PackageList();
    forall k | 0 <= k < |files| ensures '\n' !in FileLines(num, files)[k] {
      FileLineIsOneLine(num, files[k]);
    }
    forall k | 0 <= k < |packages| ensures '\n' !in PackageLines(num, packages)[k] {
      PackageLineIsOneLine(num, packages[k]);
    }
    SortWithout(FileLines(num, files), '\n');
    SortWithout(PackageLines(num, packages), '\n');
  }

  // ---- exactness

  lemma HeadIsExact(num: int -> string, a: Manifest, b: Manifest)
    requires PrintsNumbers(num) && ScalarFields(a) && ScalarFields(b)
    ensures HeadLines(num, a) == HeadLines(num, b) <==>
              && Kept(a.version) == Kept(b.version) && Kept(a.stagingPercentage) == Kept(b.stagingPercentage)
              && Kept(a.minimumSystemVersion) == Kept(b.minimumSystemVersion)
  {
    FieldIsExact(num, a.version, b.version);
    FieldIsExact(num, a.stagingPercentage, b.stagingPercentage);
    FieldIsExact(num, a.minimumSystemVersion, b.minimumSystemVersion);
    hide EncodeField, Kept;
    var x, y := HeadLines(num, a), HeadLines(num, b);
    assert x[1][8..] == EncodeField(num, a.version) && y[1][8..] == EncodeField(num, b.version);
    assert x[2][8..] == EncodeField(num, a.stagingPercentage) && y[2][8..] == EncodeField(num, b.stagingPercentage);
    assert x[3][21..] == EncodeField(num, a.minimumSystemVersion) && y[3][21..] == EncodeField(num, b.minimumSystemVersion);
  }

  lemma KeptFileLine(num: int -> string, f: File)
    ensures FileLine(num, KeptFile(f)) == FileLine(num, f)
  {
  }

  lemma KeptPackageLine(num: int -> string, p: Package)
    ensures PackageLine(num, KeptPackage(p)) == PackageLine(num, p)
  {
  }

  lemma FileLinesExact(num: int -> string, a: seq<File>, b: seq<File>)
    requires PrintsNumbers(num)
    requires ScalarFiles(a) && ScalarFiles(b)
    ensures Sort(FileLines(num, a)) == Sort(FileLines(num, b)) <==> multiset(Map(KeptFile, a)) == multiset(Map(KeptFile, b))
  {
    var f := (x: File) => FileLine(num, x);
    var x, y := Map(KeptFile, a), Map(KeptFile, b);
    assert Map(f, x) == FileLines(num, a) by { FileLinesOfKept(num, a, f); }
    assert Map(f, y) == FileLines(num, b) by { FileLinesOfKept(num, b, f); }
    forall u, v | u in x && v in y && f(u) == f(v) ensures u == v {
      var i :| 0 <= i < |a| && x[i] == u;
      var j :| 0 <= j < |b| && y[j] == v;
      KeptFileLine(num, a[i]);
      KeptFileLine(num, b[j]);
      FileLineIsExact(num, a[i], b[j]);
    }
    hide FileLine, KeptFile, Sort;
    ExactUpToOrder(f, x, y);
  }

  lemma FileLinesOfKept(num: int -> string, a: seq<File>, f: File -> string)
    requires forall x :: f(x) == FileLine(num, x)
    ensures Map(f, Map(KeptFile, a)) == FileLines(num, a)
  {
    forall k | 0 <= k < |a| ensures FileLine(num, KeptFile(a[k])) == FileLine(num, a[k]) {
      KeptFileLine(num, a[k]);
    }
  }

  /** Sorted images agree exactly when the lists hold the same, when f tells their members apart. */
  lemma ExactUpToOrder<T(!new)>(f: T -> string, x: seq<T>, y: seq<T>)
    requires TellsApart(f, x, y)
    ensures Sort(Map(f, x)) == Sort(Map(f, y)) <==> multiset(x) == multiset(y)
  {
    if Sort(Map(f, x)) == Sort(Map(f, y)) {
      assert multiset(Map(f, x)) == multiset(Map(f, y));
      PermutationOfMap(f, x, y);
    }
    if multiset(x) == multiset(y) {
      MapOfPermutation(f, x, y);
      SortOfPermutation(Map(f, x), Map(f, y));
    }
  }

  lemma PackageLinesOfKept(num: int -> string, a: seq<Package>, f: Package -> string)
    requires forall x :: f(x) == PackageLine(num, x)
    ensures Map(f, Map(KeptPackage, a)) == PackageLines(num, a)
  {
    forall k | 0 <= k < |a| ensures PackageLine(num, KeptPackage(a[k])) == PackageLine(num, a[k]) {
      KeptPackageLine(num, a[k]);
    }
  }

  lemma PackageLinesExact(num: int -> string, a: seq<Package>, b: seq<Package>)
    requires PrintsNumbers(num)
    requires ScalarPackages(a) && ScalarPackages(b)
    ensures Sort(PackageLines(num, a)) == Sort(PackageLines(num, b)) <==>
              multiset(Map(KeptPackage, a)) == multiset(Map(KeptPackage, b))
  {
    var f := (x: Package) => PackageLine(num, x);
    var x, y := Map(KeptPackage, a), Map(KeptPackage, b);
    assert Map(f, x) == PackageLines(num, a) by { PackageLinesOfKept(num, a, f); }
    assert Map(f, y) == PackageLines(num, b) by { PackageLinesOfKept(num, b, f); }
    forall u, v | u in x && v in y && f(u) == f(v) ensures u == v {
      var i :| 0 <= i < |a| && x[i] == u;
      var j :| 0 <= j < |b| && y[j] == v;
      KeptPackageLine(num, a[i]);
      KeptPackageLine(num, b[j]);
      PackageLineIsExact(num, a[i], b[j]);
    }
    hide PackageLine, KeptPackage, Sort;
    ExactUpToOrder(f, x, y);
  }

  /**
   The canonical form is exact: manifests of scalar fields have the same canonical text if and only if they agree on
   every signed field, whatever the order of files and packages - up to NaN and the infinities, which JSON prints alike.
   */
  lemma CanonicalIsExact(num: int -> string, a: Manifest, b: Manifest)
    requires PrintsNumbers(num) && ScalarFields(a) && ScalarFields(b)
    ensures Canonical(num, a) == Canonical(num, b) <==> KeptFields(a) == KeptFields(b)
  {
    HeadIsExact(num, a, b);
    FileLinesExact(num, a.FileList(), b.FileList());
    PackageLinesExact(num, a.PackageList(), b.PackageList());
    assert CatalogLines(a) == CatalogLines(b) <==> (a.allowCatalogSignature == Boolean(true) <==> b.allowCatalogSignature == Boolean(true));
    hide HeadLines, CatalogLines, FileLines, PackageLines, Sort, Kept, Join;
    if Canonical(num, a) == Canonical(num, b) {
      EachOnOneLine(num, a);
      EachOnOneLine(num, b);
      LinesNotEmpty(num, a);
      LinesNotEmpty(num, b);
      JoinInjective(Lines(num, a), Lines(num, b), '\n');
      LinesOfTheSame(num, a, b);
    }
  }

  lemma LinesNotEmpty(num: int -> string, info: Manifest)
    ensures Lines(num, info) != []
  {
  }

  // ---- numbers

  predicate IsFinite(v: Value) {
    v.Num? ==> v.number.Finite?
  }

  predicate FiniteFile(f: File) {
    IsFinite(f.url) && IsFinite(f.sha512) && IsFinite(f.size) && IsFinite(f.blockMapUrl)
  }

  predicate FinitePackage(p: Package) {
    IsFinite(p.path) && IsFinite(p.sha512) && IsFinite(p.size) && IsFinite(p.blockMapSize)
  }

  /** No signed field is NaN or infinite. */
  ghost predicate FiniteFields(info: Manifest) {
    && IsFinite(info.version) && IsFinite(info.stagingPercentage) && IsFinite(info.minimumSystemVersion)
    && FiniteFiles(info.FileList()) && FinitePackages(info.PackageList())
  }

  ghost predicate FiniteFiles(files: seq<File>) {
    forall k :: 0 <= k < |files| ==> FiniteFile(files[k])
  }

  ghost predicate FinitePackages(packages: seq<Package>) {
    forall k :: 0 <= k < |packages| ==> FinitePackage(packages[k])
  }

  /** With finite numbers JSON keeps everything. */
  lemma FiniteIsKept(info: Manifest)
    requires FiniteFields(info)
    ensures KeptFields(info) == SignedFields(info)
  {
    var files, packages := info.FileList(), info.PackageList();
    assert forall k :: 0 <= k < |files| ==> FiniteFile(files[k]) && KeptFile(files[k]) == files[k];
    assert Map(KeptFile, files) == files;
    assert forall k :: 0 <= k < |packages| ==> FinitePackage(packages[k]) && KeptPackage(packages[k]) == WithFlag(packages[k]);
    assert Map(KeptPackage, packages) == Map(WithFlag, packages);
  }

  /** With finite numbers the canonical text determines, and is determined by, the signed fields themselves. */
  lemma FiniteCanonicalIsExact(num: int -> string, a: Manifest, b: Manifest)
    requires PrintsNumbers(num) && ScalarFields(a) && ScalarFields(b) && FiniteFields(a) && FiniteFields(b)
    ensures Canonical(num, a) == Canonical(num, b) <==> SignedFields(a) == SignedFields(b)
  {
    CanonicalIsExact(num, a, b);
    FiniteIsKept(a);
    FiniteIsKept(b);
  }

  /** Nothing but the signed fields of `a` has its canonical text. */
  ghost predicate TextDetermines(num: int -> string, a: Manifest) {
    forall b :: ScalarFields(b) && Canonical(num, b) == Canonical(num, a) ==> SignedFields(b) == SignedFields(a)
  }

  /** Another number JSON prints the same, when there is one. */
  function Alike(v: Value): Value {
    if IsFinite(v) then v else if v.number == NaN then Num(Infinite(false)) else Num(NaN)
  }

  function AlikeFile(f: File): (g: File)
    ensures KeptFile(g) == KeptFile(f) && (g == f <==> FiniteFile(f)) && (ScalarFile(f) ==> ScalarFile(g))
  {
    File(Alike(f.url), Alike(f.sha512), Alike(f.size), Alike(f.blockMapUrl))
  }

  function AlikePackage(p: Package): (q: Package)
    ensures KeptPackage(q) == KeptPackage(p) && (WithFlag(q) == WithFlag(p) <==> FinitePackage(p)) && (ScalarPackage(p) ==> ScalarPackage(q))
  {
    p.(path := Alike(p.path), sha512 := Alike(p.sha512), size := Alike(p.size), blockMapSize := Alike(p.blockMapSize))
  }

  lemma ReplacedDiffers<T>(xs: seq<T>, k: nat, y: T)
    requires k < |xs| && xs[k] != y
    ensures multiset(xs[k := y]) != multiset(xs)
  {
    var zs := xs[k := y];
    RemoveAtMultiset(xs, k);
    RemoveAtMultiset(zs, k);
    assert RemoveAt(zs, k) == RemoveAt(xs, k);
    hide RemoveAt;
    assert multiset(xs)[y] == multiset(RemoveAt(xs, k))[y];
    assert multiset(zs)[y] == multiset(RemoveAt(xs, k))[y] + 1;
  }

  /** b is a manifest of scalar fields that JSON cannot tell from a, with other signed fields. */
  ghost predicate IsTwin(a: Manifest, b: Manifest) {
    ScalarFields(b) && KeptFields(b) == KeptFields(a) && SignedFields(b) != SignedFields(a)
  }

  lemma FileTwin(a: Manifest, j: nat)
    requires ScalarFields(a) && j < |a.FileList()| && !FiniteFile(a.FileList()[j])
    ensures IsTwin(a, a.(files := Some(a.FileList()[j := AlikeFile(a.FileList()[j])])))
  {
    var files := a.FileList();
    var b := a.(files := Some(files[j := AlikeFile(files[j])]));
    hide Kept, KeptFile, FiniteFile, KeptPackage, WithFlag, ScalarFile, ScalarPackage;
    ReplacedDiffers(files, j, AlikeFile(files[j]));
    assert Map(KeptFile, b.FileList()) == Map(KeptFile, files);
  }

  lemma PackageTwin(a: Manifest, j: nat)
    requires ScalarFields(a) && j < |a.PackageList()| && !FinitePackage(a.PackageList()[j])
    ensures IsTwin(a, a.(packages := a.packages.(entries := a.PackageList()[j := AlikePackage(a.PackageList()[j])])))
  {
    var packages := a.PackageList();
    var p := AlikePackage(packages[j]);
    var b := a.(packages := a.packages.(entries := packages[j := p]));
    hide Kept, KeptFile, FinitePackage, KeptPackage, WithFlag, ScalarFile, ScalarPackage;
    ReplacedDiffers(Map(WithFlag, packages), j, WithFlag(p));
    assert Map(WithFlag, b.PackageList()) == Map(WithFlag, packages)[j := WithFlag(p)];
    assert Map(KeptPackage, b.PackageList()) == Map(KeptPackage, packages);
  }

  lemma HeadTwin(a: Manifest)
    requires ScalarFields(a) && !(IsFinite(a.version) && IsFinite(a.stagingPercentage) && IsFinite(a.minimumSystemVersion))
    ensures IsTwin(a, a.(version := Alike(a.version), stagingPercentage := Alike(a.stagingPercentage),
                         minimumSystemVersion := Alike(a.minimumSystemVersion)))
  {
    var b := a.(version := Alike(a.version), stagingPercentage := Alike(a.stagingPercentage), minimumSystemVersion := Alike(a.minimumSystemVersion));
    assert b.FileList() == a.FileList() && b.PackageList() == a.PackageList();
    hide Map, ScalarFiles, ScalarPackages;
  }

  /** A manifest with a NaN or infinity has a twin: the same canonical text, other signed fields. */
  lemma NonFiniteHasTwin(num: int -> string, a: Manifest) returns (b: Manifest)
    requires PrintsNumbers(num) && ScalarFields(a) && !FiniteFields(a)
    ensures ScalarFields(b) && Canonical(num, b) == Canonical(num, a) && SignedFields(b) != SignedFields(a)
  {
    hide Canonical, SignedFields, KeptFields, ScalarFields;
    var files, packages := a.FileList(), a.PackageList();
    if j :| 0 <= j < |files| && !FiniteFile(files[j]) {
      FileTwin(a, j);
      b := a.(files := Some(files[j := AlikeFile(files[j])]));
    } else if j :| 0 <= j < |packages| && !FinitePackage(packages[j]) {
      PackageTwin(a, j);
      b := a.(packages := a.packages.(entries := packages[j := AlikePackage(packages[j])]));
    } else {
      HeadTwin(a);
      b := a.(version := Alike(a.version), stagingPercentage := Alike(a.stagingPercentage), minimumSystemVersion := Alike(a.minimumSystemVersion));
    }
    CanonicalIsExact(num, b, a);
  }

  lemma SameKeptIsFinite(a: Manifest, b: Manifest)
    requires FiniteFields(a) && KeptFields(b) == KeptFields(a)
    ensures FiniteFields(b)
  {
    FiniteIsKept(a);
    hide FiniteFile, FinitePackage, KeptFile, KeptPackage, WithFlag;
    var files, packages := b.FileList(), b.PackageList();
    forall k | 0 <= k < |files| ensures FiniteFile(files[k]) {
      assert Map(KeptFile, files)[k] in multiset(a.FileList());
      KeptFileFinite(files[k]);
    }
    forall k | 0 <= k < |packages| ensures FinitePackage(packages[k]) {
      assert Map(KeptPackage, packages)[k] in multiset(Map(WithFlag, a.PackageList()));
      var j :| 0 <= j < |a.PackageList()| && WithFlag(a.PackageList()[j]) == KeptPackage(packages[k]);
      assert FinitePackage(a.PackageList()[j]);
      KeptPackageFinite(packages[k], a.PackageList()[j]);
    }
  }

  lemma KeptFileFinite(f: File)
    ensures FiniteFile(KeptFile(f)) ==> FiniteFile(f)
  {
  }

  lemma KeptPackageFinite(p: Package, q: Package)
    requires FinitePackage(q) && WithFlag(q) == KeptPackage(p)
    ensures FinitePackage(p)
  {
  }

  /**
   Exactly the manifests whose signed numbers are finite are determined by their canonical text: the claim of injectivity
   fails for every manifest with a NaN or infinity, and for no other.
   */
  lemma TextDeterminesIffFinite(num: int -> string, a: Manifest)
    requires PrintsNumbers(num) && ScalarFields(a)
    ensures TextDetermines(num, a) <==> FiniteFields(a)
  {
    if FiniteFields(a) {
      forall b | ScalarFields(b) && Canonical(num, b) == Canonical(num, a) ensures SignedFields(b) == SignedFields(a) {
        CanonicalIsExact(num, b, a);
        SameKeptIsFinite(a, b);
        FiniteIsKept(a);
        FiniteIsKept(b);
      }
    } else {
      var b := NonFiniteHasTwin(num, a);
    }
  }
}
