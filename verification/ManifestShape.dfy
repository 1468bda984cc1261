/** The shape a signed manifest must have, checked before any signature is. */
module ManifestShape {
  import opened Json
  import opened Manifest
  import opened Wrappers

  /** A signed string, as error messages name it. */
  datatype Field = Version | MinimumSystemVersion | FileUrl(index: nat) | FileSha512(index: nat) | FileBlockMapUrl(index: nat)
                 | ArchKey(arch: string) | PackagePath(arch: string) | PackageSha512(arch: string)

  datatype Problem = BadVersion | BadStagingPercentage | BadMinimumSystemVersion | BadCatalogFlag
                   | NoFiles | BadFile(index: nat) | BadFileSize(index: nat) | BadBlockMapUrl(index: nat)
                   | PackagesNotKeyed | BadPackage(arch: string) | BadPackageSizes(arch: string) | BadAdminFlag(arch: string)
                   | HasControlCharacter(field: Field)

  predicate IsControl(c: char) {
    c < ' ' || c == '\U{7f}'
  }

  predicate HasControl(s: string) {
    exists k :: 0 <= k < |s| && IsControl(s[k])
  }

  predicate IsNonEmptyText(v: Value) {
    v.Text? && v.text != ""
  }

  predicate NumberIfPresent(v: Value) {
    v.Missing? || v.Num?
  }

  predicate FlagIfPresent(v: Value) {
    v.Missing? || v.Boolean?
  }

  // ---- the shape as a property

  /** No U+0000 to U+001F and no U+007F. */
  predicate IsPlain(s: string) {
    forall k :: 0 <= k < |s| ==> 0x20 <= s[k] as int != 0x7f
  }

  predicate PlainText(v: Value) {
    v.Text? && v.text != "" && IsPlain(v.text)
  }

  predicate PlainFile(f: File) {
    PlainText(f.url) && PlainText(f.sha512) && (f.size.Missing? || f.size.Num?) && (f.blockMapUrl.Missing? || PlainText(f.blockMapUrl))
  }

  predicate PlainPackage(p: Package) {
    && IsPlain(p.arch) && PlainText(p.path) && PlainText(p.sha512)
    && (p.size.Missing? || p.size.Num?) && (p.blockMapSize.Missing? || p.blockMapSize.Num?)
    && (p.isAdminRightsRequired.Missing? || p.isAdminRightsRequired.Boolean?)
  }

  /** What a manifest must look like for its signature to mean anything. */
  predicate ShapeValid(info: Manifest) {
    && PlainText(info.version) && (info.stagingPercentage.Missing? || info.stagingPercentage.Num?)
    && (info.minimumSystemVersion.Missing? || (info.minimumSystemVersion.Text? && IsPlain(info.minimumSystemVersion.text)))
    && (info.allowCatalogSignature.Missing? || info.allowCatalogSignature.Boolean?)
    && info.files.Some? && info.files.value != [] && (forall k :: 0 <= k < |info.files.value| ==> PlainFile(info.files.value[k]))
    && (info.packages.Packages? ==>
          info.packages.keyed && forall k :: 0 <= k < |info.packages.entries| ==> PlainPackage(info.packages.entries[k]))
  }

  /** A manifest of this shape has scalars in every signed field. */
  lemma ShapeValidIsScalar(info: Manifest)
    requires ShapeValid(info)
    ensures ScalarFields(info)
  {
    var files, packages := info.FileList(), info.PackageList();
    forall k | 0 <= k < |files| ensures ScalarFile(files[k]) {
      assert PlainFile(files[k]);
    }
    forall k | 0 <= k < |packages| ensures ScalarPackage(packages[k]) {
      assert PlainPackage(packages[k]);
    }
  }

  // ---- the first problem, in the order the checks are made

  function HeadProblem(info: Manifest): Option<Problem> {
    if !IsNonEmptyText(info.version) then Some(BadVersion)
    else if !NumberIfPresent(info.stagingPercentage) then Some(BadStagingPercentage)
    else if !info.minimumSystemVersion.Missing? && !info.minimumSystemVersion.Text? then Some(BadMinimumSystemVersion)
    else if !FlagIfPresent(info.allowCatalogSignature) then Some(BadCatalogFlag)
    else if info.FileList() == [] then Some(NoFiles)
    else None
  }

  function FileProblem(f: File, i: nat): Option<Problem> {
    if !IsNonEmptyText(f.url) || !IsNonEmptyText(f.sha512) then Some(BadFile(i))
    else if !NumberIfPresent(f.size) then Some(BadFileSize(i))
    else if !f.blockMapUrl.Missing? && !IsNonEmptyText(f.blockMapUrl) then Some(BadBlockMapUrl(i))
    else None
  }

  function PackageProblem(p: Package): Option<Problem> {
    if !IsNonEmptyText(p.path) || !IsNonEmptyText(p.sha512) then Some(BadPackage(p.arch))
    else if !NumberIfPresent(p.size) || !NumberIfPresent(p.blockMapSize) then Some(BadPackageSizes(p.arch))
    else if !FlagIfPresent(p.isAdminRightsRequired) then Some(BadAdminFlag(p.arch))
    else None
  }

  function FirstFileProblem(files: seq<File>, i: nat): Option<Problem>
    requires i <= |files|
    decreases |files| - i
  {
    if i == |files| then None
    else if FileProblem(files[i], i).Some? then FileProblem(files[i], i)
    else FirstFileProblem(files, i + 1)
  }

  function FirstPackageProblem(packages: seq<Package>, i: nat): Option<Problem>
    requires i <= |packages|
    decreases |packages| - i
  {
    if i == |packages| then None
    else if PackageProblem(packages[i]).Some? then PackageProblem(packages[i])
    else FirstPackageProblem(packages, i + 1)
  }

  /** A signed string under its name. */
  datatype Named = Named(field: Field, text: string)

  function TextOf(v: Value): string {
    if v.Text? then v.text else ""
  }

  function HeadTexts(info: Manifest): seq<Named> {
    [Named(Version, TextOf(info.version))]
    + if info.minimumSystemVersion.Missing? then [] else [Named(MinimumSystemVersion, TextOf(info.minimumSystemVersion))]
  }

  function FileTexts(f: File, i: nat): seq<Named> {
    [Named(FileUrl(i), TextOf(f.url)), Named(FileSha512(i), TextOf(f.sha512))]
    + if f.blockMapUrl.Missing? then [] else [Named(FileBlockMapUrl(i), TextOf(f.blockMapUrl))]
  }

  function PackageTexts(p: Package): seq<Named> {
    [Named(ArchKey(p.arch), p.arch), Named(PackagePath(p.arch), TextOf(p.path)), Named(PackageSha512(p.arch), TextOf(p.sha512))]
  }

  function TextsOfFiles(files: seq<File>, n: nat): seq<Named>
    requires n <= |files|
  {
    if n == 0 then [] else TextsOfFiles(files, n - 1) + FileTexts(files[n - 1], n - 1)
  }

  function TextsOfPackages(packages: seq<Package>, n: nat): seq<Named>
    requires n <= |packages|
  {
    if n == 0 then [] else TextsOfPackages(packages, n - 1) + PackageTexts(packages[n - 1])
  }

  function SignedTexts(info: Manifest): seq<Named> {
    HeadTexts(info) + TextsOfFiles(info.FileList(), |info.FileList()|) + TextsOfPackages(info.PackageList(), |info.PackageList()|)
  }

  function FirstControlProblem(texts: seq<Named>, i: nat): Option<Problem>
    requires i <= |texts|
    decreases |texts| - i
  {
    if i == |texts| then None
    else if HasControl(texts[i].text) then Some(HasControlCharacter(texts[i].field))
    else FirstControlProblem(texts, i + 1)
  }

  function FirstProblem(info: Manifest): Option<Problem> {
    if HeadProblem(info).Some? then HeadProblem(info)
    else if FirstFileProblem(info.FileList(), 0).Some? then FirstFileProblem(info.FileList(), 0)
    else if info.packages.Packages? && !info.packages.keyed then Some(PackagesNotKeyed)
    else if FirstPackageProblem(info.PackageList(), 0).Some? then FirstPackageProblem(info.PackageList(), 0)
    else FirstControlProblem(SignedTexts(info), 0)
  }

  // ---- the check

  /** hasControlCharacter: one pass over the text. */
  method HasControlChar(s: string) returns (found: bool)
    ensures found <==> HasControl(s)
  {
    for i := 0 to |s|
      invariant forall k :: 0 <= k < i ==> !IsControl(s[k])
    {
      if IsControl(s[i]) {
        return true;
      }
    }
    found := false;
  }

  method CheckFiles(files: seq<File>, start: seq<Named>) returns (problem: Option<Problem>, strings: seq<Named>)
    ensures problem == FirstFileProblem(files, 0)
    ensures problem.None? ==> strings == start + TextsOfFiles(files, |files|)
  {
    strings := start;
    for i := 0 to |files|
      invariant FirstFileProblem(files, 0) == FirstFileProblem(files, i)
      invariant strings == start + TextsOfFiles(files, i)
    {
      problem := FileProblem(files[i], i);
      if problem.Some? {
        return;
      }
      strings := strings + FileTexts(files[i], i);
    }
    problem := None;
  }

  method CheckPackages(packages: seq<Package>, start: seq<Named>) returns (problem: Option<Problem>, strings: seq<Named>)
    ensures problem == FirstPackageProblem(packages, 0)
    ensures problem.None? ==> strings == start + TextsOfPackages(packages, |packages|)
  {
    strings := start;
    for i := 0 to |packages|
      invariant FirstPackageProblem(packages, 0) == FirstPackageProblem(packages, i)
      invariant strings == start + TextsOfPackages(packages, i)
    {
      problem := PackageProblem(packages[i]);
      if problem.Some? {
        return;
      }
      strings := strings + PackageTexts(packages[i]);
    }
    problem := None;
  }

  method CheckControlCharacters(strings: seq<Named>) returns (problem: Option<Problem>)
    ensures problem == FirstControlProblem(strings, 0)
  {
    for i := 0 to |strings|
      invariant FirstControlProblem(strings, 0) == FirstControlProblem(strings, i)
    {
      var found := HasControlChar(strings[i].text);
      if found {
        return Some(HasControlCharacter(strings[i].field));
      }
    }
    problem := None;
  }

  /** validateSignedManifestShape: None means the shape is right. */
  method ValidateSignedManifestShape(info: Manifest) returns (problem: Option<Problem>)
    ensures problem == FirstProblem(info)
    ensures problem.None? <==> ShapeValid(info)
  {
    NoProblemIffShapeValid(info);
    hide FirstFileProblem, FirstPackageProblem, FirstControlProblem, HeadTexts, ShapeValid;
    problem := HeadProblem(info);
    if problem.Some? {
      return;
    }
    var strings := HeadTexts(info);
    problem, strings := CheckFiles(info.FileList(), strings);
    if problem.Some? {
      return;
    }
    if info.packages.Packages? {
      if !info.packages.keyed {
        return Some(PackagesNotKeyed);
      }
    }
    problem, strings := CheckPackages(info.PackageList(), strings);
    if problem.Some? {
      return;
    }
    problem := CheckControlCharacters(strings);
  }

  // ---- no problem means a valid shape

  lemma {:induction false} NoFileProblem(files: seq<File>, i: nat)
    requires i <= |files|
    ensures FirstFileProblem(files, i).None? <==> forall k :: i <= k < |files| ==> FileProblem(files[k], k).None?
    decreases |files| - i
  {
    if i < |files| {
      NoFileProblem(files, i + 1);
    }
  }

  lemma {:induction false} NoPackageProblem(packages: seq<Package>, i: nat)
    requires i <= |packages|
    ensures FirstPackageProblem(packages, i).None? <==> forall k :: i <= k < |packages| ==> PackageProblem(packages[k]).None?
    decreases |packages| - i
  {
    if i < |packages| {
      NoPackageProblem(packages, i + 1);
    }
  }

  lemma PlainIff(s: string)
    ensures IsPlain(s) <==> !HasControl(s)
  {
  }

  ghost predicate AllPlain(texts: seq<Named>) {
    forall k :: 0 <= k < |texts| ==> IsPlain(texts[k].text)
  }

  lemma {:induction false} NoControlProblem(texts: seq<Named>, i: nat)
    requires i <= |texts|
    ensures FirstControlProblem(texts, i).None? <==> forall k :: i <= k < |texts| ==> IsPlain(texts[k].text)
    decreases |texts| - i
  {
    hide HasControl, IsPlain;
    if i < |texts| {
      PlainIff(texts[i].text);
      NoControlProblem(texts, i + 1);
    }
  }

  lemma AllPlainAppend(a: seq<Named>, b: seq<Named>)
    ensures AllPlain(a + b) <==> AllPlain(a) && AllPlain(b)
  {
    if AllPlain(a + b) {
      assert forall k :: 0 <= k < |a| ==> (a + b)[k] == a[k];
      forall k | 0 <= k < |b| ensures IsPlain(b[k].text) {
        assert (a + b)[|a| + k] == b[k];
      }
    }
  }

  lemma {:induction false} PlainFiles(files: seq<File>, n: nat)
    requires n <= |files|
    ensures AllPlain(TextsOfFiles(files, n)) <==> forall k :: 0 <= k < n ==> AllPlain(FileTexts(files[k], k))
  {
    if n > 0 {
      PlainFiles(files, n - 1);
      AllPlainAppend(TextsOfFiles(files, n - 1), FileTexts(files[n - 1], n - 1));
    }
  }

  lemma {:induction false} PlainPackages(packages: seq<Package>, n: nat)
    requires n <= |packages|
    ensures AllPlain(TextsOfPackages(packages, n)) <==> forall k :: 0 <= k < n ==> AllPlain(PackageTexts(packages[k]))
  {
    if n > 0 {
      PlainPackages(packages, n - 1);
      AllPlainAppend(TextsOfPackages(packages, n - 1), PackageTexts(packages[n - 1]));
    }
  }

  lemma FileIsPlain(f: File, i: nat)
    ensures PlainFile(f) <==> FileProblem(f, i).None? && AllPlain(FileTexts(f, i))
  {
    var texts := FileTexts(f, i);
    assert texts[0].text == TextOf(f.url) && texts[1].text == TextOf(f.sha512);
    assert !f.blockMapUrl.Missing? ==> texts[2].text == TextOf(f.blockMapUrl);
    hide IsPlain;
  }

  lemma PackageIsPlain(p: Package)
    ensures PlainPackage(p) <==> PackageProblem(p).None? && AllPlain(PackageTexts(p))
  {
    var texts := PackageTexts(p);
    assert texts[0].text == p.arch && texts[1].text == TextOf(p.path) && texts[2].text == TextOf(p.sha512);
    hide IsPlain;
  }

  lemma HeadIsPlain(info: Manifest)
    ensures AllPlain(HeadTexts(info)) <==>
              && IsPlain(TextOf(info.version))
              && (info.minimumSystemVersion.Missing? || IsPlain(TextOf(info.minimumSystemVersion)))
  {
    var texts := HeadTexts(info);
    assert texts[0].text == TextOf(info.version);
    assert !info.minimumSystemVersion.Missing? ==> texts[1].text == TextOf(info.minimumSystemVersion);
  }

  lemma FilesAreRight(files: seq<File>)
    ensures FirstFileProblem(files, 0).None? && AllPlain(TextsOfFiles(files, |files|)) <==>
              forall k :: 0 <= k < |files| ==> PlainFile(files[k])
  {
    NoFileProblem(files, 0);
    PlainFiles(files, |files|);
    hide FileProblem, PlainFile, FileTexts, AllPlain;
    forall k | 0 <= k < |files| ensures PlainFile(files[k]) <==> FileProblem(files[k], k).None? && AllPlain(FileTexts(files[k], k)) {
      FileIsPlain(files[k], k);
    }
  }

  lemma PackagesAreRight(packages: seq<Package>)
    ensures FirstPackageProblem(packages, 0).None? && AllPlain(TextsOfPackages(packages, |packages|)) <==>
              forall k :: 0 <= k < |packages| ==> PlainPackage(packages[k])
  {
    NoPackageProblem(packages, 0);
    PlainPackages(packages, |packages|);
    hide PackageProblem, PlainPackage, PackageTexts, AllPlain;
    forall k | 0 <= k < |packages| ensures PlainPackage(packages[k]) <==> PackageProblem(packages[k]).None? && AllPlain(PackageTexts(packages[k])) {
      PackageIsPlain(packages[k]);
    }
  }

  /** The checks, in whatever order they fail, accept exactly the manifests of valid shape. */
  lemma NoProblemIffShapeValid(info: Manifest)
    ensures FirstProblem(info).None? <==> ShapeValid(info)
  {
    var files, packages := info.FileList(), info.PackageList();
    FilesAreRight(files);
    PackagesAreRight(packages);
    HeadIsPlain(info);
    hide AllPlain, HeadTexts, FirstFileProblem, FirstPackageProblem, TextsOfFiles, TextsOfPackages, PlainFile, PlainPackage, IsPlain;
    AllPlainAppend(HeadTexts(info), TextsOfFiles(files, |files|));
    AllPlainAppend(HeadTexts(info) + TextsOfFiles(files, |files|), TextsOfPackages(packages, |packages|));
    ControlProblemIff(SignedTexts(info));
    hide FirstControlProblem;
  }

  lemma ControlProblemIff(texts: seq<Named>)
    ensures FirstControlProblem(texts, 0).None? <==> AllPlain(texts)
  {
    NoControlProblem(texts, 0);
  }

  // ---- the problem reported is there

  predicate IsText(v: Value) {
    v.Text? && v.text != ""
  }

  predicate Is(v: Value, text: string) {
    v.Text? && v.text == text
  }

  /** The manifest does have this problem. */
  ghost predicate HasProblem(info: Manifest, problem: Problem) {
    var files := info.FileList();
    match problem
    case BadVersion => !IsText(info.version)
    case BadStagingPercentage => !info.stagingPercentage.Missing? && !info.stagingPercentage.Num?
    case BadMinimumSystemVersion => !info.minimumSystemVersion.Missing? && !info.minimumSystemVersion.Text?
    case BadCatalogFlag => !info.allowCatalogSignature.Missing? && !info.allowCatalogSignature.Boolean?
    case NoFiles => files == []
    case BadFile(i) => i < |files| && !(IsText(files[i].url) && IsText(files[i].sha512))
    case BadFileSize(i) => i < |files| && !files[i].size.Missing? && !files[i].size.Num?
    case BadBlockMapUrl(i) => i < |files| && !files[i].blockMapUrl.Missing? && !IsText(files[i].blockMapUrl)
    case PackagesNotKeyed => info.packages.Packages? && !info.packages.keyed
    case BadPackage(arch) => exists p :: p in info.PackageList() && p.arch == arch && !(IsText(p.path) && IsText(p.sha512))
    case BadPackageSizes(arch) =>
      exists p :: p in info.PackageList() && p.arch == arch && !((p.size.Missing? || p.size.Num?) && (p.blockMapSize.Missing? || p.blockMapSize.Num?))
    case BadAdminFlag(arch) =>
      exists p :: p in info.PackageList() && p.arch == arch && !p.isAdminRightsRequired.Missing? && !p.isAdminRightsRequired.Boolean?
    case HasControlCharacter(field) => exists text: string :: !IsPlain(text) && IsField(info, field, text)
  }

  /** The signed string of this name. */
  ghost predicate IsField(info: Manifest, field: Field, text: string) {
    var files := info.FileList();
    match field
    case Version => Is(info.version, text)
    case MinimumSystemVersion => Is(info.minimumSystemVersion, text)
    case FileUrl(i) => i < |files| && Is(files[i].url, text)
    case FileSha512(i) => i < |files| && Is(files[i].sha512, text)
    case FileBlockMapUrl(i) => i < |files| && Is(files[i].blockMapUrl, text)
    case ArchKey(arch) => text == arch && exists p :: p in info.PackageList() && p.arch == arch
    case PackagePath(arch) => exists p :: p in info.PackageList() && p.arch == arch && Is(p.path, text)
    case PackageSha512(arch) => exists p :: p in info.PackageList() && p.arch == arch && Is(p.sha512, text)
  }

  /** Every string that is checked is the field it is named after, unless it is empty. */
  ghost predicate NamedRight(info: Manifest, texts: seq<Named>) {
    forall k :: 0 <= k < |texts| ==> texts[k].text == "" || IsField(info, texts[k].field, texts[k].text)
  }

  lemma NamedRightAppend(info: Manifest, a: seq<Named>, b: seq<Named>)
    requires NamedRight(info, a) && NamedRight(info, b)
    ensures NamedRight(info, a + b)
  {
    hide IsField;
  }

  lemma {:induction false} FileTextsNamed(info: Manifest, n: nat)
    requires n <= |info.FileList()|
    ensures NamedRight(info, TextsOfFiles(info.FileList(), n))
  {
    if n > 0 {
      FileTextsNamed(info, n - 1);
      NamedRightAppend(info, TextsOfFiles(info.FileList(), n - 1), FileTexts(info.FileList()[n - 1], n - 1));
    }
  }

  lemma {:induction false} PackageTextsNamed(info: Manifest, n: nat)
    requires n <= |info.PackageList()|
    ensures NamedRight(info, TextsOfPackages(info.PackageList(), n))
  {
    if n > 0 {
      PackageTextsNamed(info, n - 1);
      NamedRightAppend(info, TextsOfPackages(info.PackageList(), n - 1), PackageTexts(info.PackageList()[n - 1]));
    }
  }

  lemma SignedTextsNamed(info: Manifest)
    ensures NamedRight(info, SignedTexts(info))
  {
    FileTextsNamed(info, |info.FileList()|);
    PackageTextsNamed(info, |info.PackageList()|);
    HeadNamed(info);
    hide NamedRight, HeadTexts, TextsOfFiles, TextsOfPackages;
    NamedRightAppend(info, HeadTexts(info), TextsOfFiles(info.FileList(), |info.FileList()|));
    NamedRightAppend(info, HeadTexts(info) + TextsOfFiles(info.FileList(), |info.FileList()|), TextsOfPackages(info.PackageList(), |info.PackageList()|));
  }

  lemma HeadNamed(info: Manifest)
    ensures NamedRight(info, HeadTexts(info))
  {
  }

  lemma {:induction false} FileProblemIsThere(info: Manifest, i: nat)
    requires i <= |info.FileList()| && FirstFileProblem(info.FileList(), i).Some?
    ensures HasProblem(info, FirstFileProblem(info.FileList(), i).value)
    decreases |info.FileList()| - i
  {
    if FileProblem(info.FileList()[i], i).None? {
      FileProblemIsThere(info, i + 1);
    }
  }

  lemma {:induction false} PackageProblemIsThere(info: Manifest, i: nat)
    requires i <= |info.PackageList()| && FirstPackageProblem(info.PackageList(), i).Some?
    ensures HasProblem(info, FirstPackageProblem(info.PackageList(), i).value)
    decreases |info.PackageList()| - i
  {
    if PackageProblem(info.PackageList()[i]).None? {
      PackageProblemIsThere(info, i + 1);
    } else {
      assert info.PackageList()[i] in info.PackageList();
    }
  }

  lemma {:induction false} ControlProblemIsThere(info: Manifest, texts: seq<Named>, i: nat)
    requires i <= |texts| && NamedRight(info, texts) && FirstControlProblem(texts, i).Some?
    ensures HasProblem(info, FirstControlProblem(texts, i).value)
    decreases |texts| - i
  {
    hide IsField, HasControl, IsPlain;
    PlainIff(texts[i].text);
    if HasControl(texts[i].text) {
      EmptyIsPlain();
      assert IsField(info, texts[i].field, texts[i].text);
    } else {
      ControlProblemIsThere(info, texts, i + 1);
    }
  }

  lemma EmptyIsPlain()
    ensures IsPlain("")
  {
  }

  /** The problem that is reported is one the manifest has. */
  lemma ProblemIsThere(info: Manifest)
    requires FirstProblem(info).Some?
    ensures HasProblem(info, FirstProblem(info).value)
  {
    SignedTextsNamed(info);
    hide FirstFileProblem, FirstPackageProblem, FirstControlProblem, SignedTexts, NamedRight, IsPlain, IsField;
    var files, packages := FirstFileProblem(info.FileList(), 0), FirstPackageProblem(info.PackageList(), 0);
    if HeadProblem(info).None? {
      if files.Some? {
        FileProblemIsThere(info, 0);
      } else if !info.packages.Packages? || info.packages.keyed {
        if packages.Some? {
          PackageProblemIsThere(info, 0);
        } else {
          ControlProblemIsThere(info, SignedTexts(info), 0);
        }
      }
    }
  }
}
