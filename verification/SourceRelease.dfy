/** From a source tree to its archive and back: packaging, extraction and the
    identity check of the extracted tree (scripts/package_release.py,
    scripts/extract_source_package.py, scripts/verify_source_package_identity.py). */
module SourceRelease {
  import opened Base
  import opened PortablePaths
  import opened SourcePackage

  datatype File = File(data: Data, mode: Mode)

  datatype Node = Plain(file: File) | Symlink

  /** The files of a directory by relative path. */
  type Tree = map<string, Node>
  type Files = map<string, File>

  datatype Error =
    | SymlinkNotAllowed(path: string)
    | ManifestNotWritable
    | UnsafePackage
    | MultipleManifests
    | IntegrityFailed(report: Report)
    | DestinationNotDirectory
    | DestinationNotEmpty
    | UnsafeMember(name: string)
    | CannotWrite(path: string)
    | IdentityFailed
    | OsError

  /** The compressed size of some data. */
  type Deflate = Data -> nat

  const EXCLUDED_NAMES: set<string> := {".coverage", "coverage.xml", "pytest.xml", "PACKAGE_MANIFEST.json"}
  const EXCLUDED_SUFFIXES: seq<string> := [".pyc", ".pyo", ".log", ".tsbuildinfo"]
  const EXCLUDED_PREFIX: string := ".coverage."
  const IGNORED_DIRS: set<string> := {".git", ".pytest_cache", "__pycache__", ".venv", "venv", "node_modules"}

  const CANONICAL_REPORT_FILES: set<string> := {
    "KNOWN_ISSUES_LIMITATIONS.md", "LATEST_COVERAGE.txt", "LATEST_PYTEST.txt", "PRODUCTION_READINESS_DOSSIER.json",
    "EXTERNAL_EXECUTION_PLAN_VERIFICATION.json", "PRODUCTION_ACCEPTANCE_HANDOFF.json", "PROJECT_STATUS.json",
    "RELEASE_CONSISTENCY.json", "REAL_MOCK_UNSUPPORTED_MATRIX.md", "SBOM.local.json", "TEST_COUNT.txt",
    "TEST_INVENTORY.json", "TEST_COLLECTION.txt", "ALEMBIC_OFFLINE_SQL.txt", "ACCEPTANCE_CLOSURE_STATUS.json",
    "PHASE176_READINESS.json", "PHASE177_ACCEPTANCE_CAPABILITIES.json", "SECRET_SCAN.txt", "PROHIBITED_SCAN.txt",
    "DEPENDENCY_POLICY.txt", "LOCAL_SOURCE_PROVENANCE.json", "PHASE26_BINANCE_OFFICIAL_API_VERIFICATION.md"}

  /** Mode 0644, and 0755 when executable. */
  function ArchiveMode(executable: bool): Mode {
    Mode(executable, executable, executable, 0x1A4)
  }

  function LastPart(path: string): string {
    var parts := Split(path, '/');
    parts[|parts| - 1]
  }

  predicate HasSuffix(name: string, suffix: string) {
    |name| > |suffix| && EndsWith(name, suffix)
  }

  predicate StartsWith(name: string, prefix: string) {
    prefix <= name
  }

  predicate AnyPartIn(path: string, excluded: set<string>) {
    exists i :: 0 <= i < |Split(path, '/')| && Split(path, '/')[i] in excluded
  }

  /** The filters of iter_release_files. */
  predicate Released(path: string) {
    var parts, name := Split(path, '/'), LastPart(path);
    && !AnyPartIn(path, EXCLUDED_DIRS)
    && name !in EXCLUDED_NAMES
    && (forall i :: 0 <= i < |EXCLUDED_SUFFIXES| ==> !HasSuffix(name, EXCLUDED_SUFFIXES[i]))
    && !StartsWith(name, EXCLUDED_PREFIX)
    && (parts[0] == "reports" ==> |parts| == 2 && name in CANONICAL_REPORT_FILES)
  }

  /** The paths of a listing that a filter keeps. */
  type Filter = string -> bool

  function Kept(listing: seq<string>, keep: Filter): seq<string> {
    if listing == [] then []
    else
      var last := listing[|listing| - 1];
      Kept(listing[..|listing| - 1], keep) + if keep(last) then [last] else []
  }

  lemma {:induction false} KeptMeaning(listing: seq<string>, keep: Filter)
    ensures forall p :: p in Kept(listing, keep) <==> p in listing && keep(p)
    ensures NoRepeats(listing) ==> NoRepeats(Kept(listing, keep))
  {
    if listing != [] {
      var front, last := listing[..|listing| - 1], listing[|listing| - 1];
      KeptMeaning(front, keep);
      assert listing == front + [last];
      if NoRepeats(listing) {
        assert NoRepeats(front) by {
          assert forall i :: 0 <= i < |front| ==> front[i] == listing[i];
        }
        assert last !in front;
      }
    }
  }

  function RowOf(path: string, file: File): Row {
    Row(path, Some(Sha256(file.data)), Some(|file.data|), Some(file.mode.ownerX))
  }

  ghost predicate AllPlain(tree: Tree, paths: seq<string>) {
    forall i :: 0 <= i < |paths| ==> paths[i] in tree && tree[paths[i]].Plain?
  }

  function RowsOf(tree: Tree, paths: seq<string>): seq<Row>
    requires AllPlain(tree, paths)
  {
    seq(|paths|, i requires 0 <= i < |paths| => RowOf(paths[i], tree[paths[i]].file))
  }

  function ManifestOf(tree: Tree, paths: seq<string>, commit: Option<string>): Manifest
    requires AllPlain(tree, paths)
  {
    Manifest(true, true, commit, |paths|, Some(Expected(RowsOf(tree, paths))), RowsOf(tree, paths))
  }

  /** rglob: every file once, in some order. */
  ghost predicate Lists(listing: seq<string>, tree: Tree) {
    NoRepeats(listing) && Elements(listing) == tree.Keys
  }

  /** make_manifest: it raises exactly if a symbolic link passes the filters. */
  method MakeManifest(tree: Tree, listing: seq<string>, keep: Filter, commit: Option<string>) returns (r: Result<Manifest, Error>)
    requires Lists(listing, tree)
    ensures r.Ok? <==> AllPlain(tree, Kept(listing, keep))
    ensures r.Ok? ==> r.value == ManifestOf(tree, Kept(listing, keep), commit)
  {
    var rows: seq<Row> := [];
    ghost var paths: seq<string> := [];
    for i := 0 to |listing|
      invariant paths == Kept(listing[..i], keep)
      invariant AllPlain(tree, paths) && rows == RowsOf(tree, paths)
    {
      var path := listing[i];
      assert path in Elements(listing);
      assert listing[..i + 1][..i] == listing[..i];
      if keep(path) {
        if tree[path].Symlink? {
          KeptMeaning(listing, keep);
          assert path in Kept(listing, keep);
          return Err(SymlinkNotAllowed(path));
        }
        rows := rows + [RowOf(path, tree[path].file)];
        paths := paths + [path];
      }
    }
    assert listing[..|listing|] == listing;
    return Ok(Manifest(true, true, commit, |rows|, Some(Expected(rows)), rows));
  }

  // ---- the archive ----

  function MemberOf(prefix: string, path: string, file: File, deflate: Deflate): Member {
    Member(prefix + "/" + path, file.data, deflate(file.data), RegularFile, true, ArchiveMode(file.mode.ownerX))
  }

  function ManifestMember(prefix: string, data: Data, deflate: Deflate): Member {
    Member(prefix + "/" + MANIFEST_NAME, data, deflate(data), RegularFile, true, ArchiveMode(false))
  }

  function ArchiveOf(tree: Tree, paths: seq<string>, prefix: string, manifestData: Data, deflate: Deflate): seq<Member>
    requires AllPlain(tree, paths)
  {
    seq(|paths|, i requires 0 <= i < |paths| => MemberOf(prefix, paths[i], tree[paths[i]].file, deflate))
    + [ManifestMember(prefix, manifestData, deflate)]
  }

  /** d + "/..." */
  predicate Below(path: string, directory: string) {
    directory + "/" <= path
  }

  /** build_release. The manifest is written into the tree first, which fails if
      a directory has its name. */
  method BuildRelease(
    codec: Codec, deflate: Deflate, tree: Tree, listing: seq<string>, keep: Filter, prefix: string, commit: Option<string>)
    returns (r: Result<seq<Member>, Error>)
    requires Lists(listing, tree)
    ensures r.Ok? <==> AllPlain(tree, Kept(listing, keep)) && !exists p :: p in tree && Below(p, MANIFEST_NAME)
    ensures r.Ok? ==>
              var paths := Kept(listing, keep);
              r.value == ArchiveOf(tree, paths, prefix, codec.render(ManifestOf(tree, paths, commit)), deflate)
  {
    var made := MakeManifest(tree, listing, keep, commit);
    if made.Err? {
      return Err(made.error);
    }
    var manifestData := codec.render(made.value);
    if exists p :: p in tree && Below(p, MANIFEST_NAME) {
      return Err(ManifestNotWritable);
    }
    var rows := made.value.files;
    ghost var paths := Kept(listing, keep);
    var members: seq<Member> := [];
    for i := 0 to |rows|
      invariant |members| == i
      invariant forall j :: 0 <= j < i ==> members[j] == MemberOf(prefix, paths[j], tree[paths[j]].file, deflate)
    {
      var path := rows[i].path;
      var file := tree[path].file;
      members := members + [MemberOf(prefix, path, file, deflate)];
    }
    members := members + [ManifestMember(prefix, manifestData, deflate)];
    assert members == ArchiveOf(tree, paths, prefix, manifestData, deflate);
    return Ok(members);
  }

  // ---- when a tree can be packed ----

  ghost predicate RoundTrips(codec: Codec) {
    forall m :: codec.parse(codec.render(m)) == Some(m)
  }

  /** A filter that keeps no manifest, nothing below an excluded directory, and no
      coverage data. */
  ghost predicate KeepsSources(keep: Filter) {
    forall path :: keep(path) ==>
      LastPart(path) != MANIFEST_NAME && LastPart(path) != ".coverage" && !AnyPartIn(path, EXCLUDED_DIRS)
  }

  lemma ReleasedKeepsSources()
    ensures KeepsSources(Released)
  {
  }

  /** Paths of files in a directory: none ends with a slash, none lies below
      another. */
  ghost predicate FileTree(tree: Tree) {
    && (forall p :: p in tree ==> p != "" && !IsDir(p))
    && (forall p, q :: p in tree && q in tree ==> !Below(p, q))
  }

  predicate Compressible(data: Data, deflate: Deflate) {
    |data| <= MAX_RATIO * deflate(data)
  }

  /** The file can be a member under the prefix. */
  ghost predicate FilePackable(path: string, file: File, deflate: Deflate) {
    Portable(path) && LastPart(path) != ".env" && |file.data| <= MAX_MEMBER && Compressible(file.data, deflate)
  }

  function TotalData(tree: Tree, paths: seq<string>): nat
    requires AllPlain(tree, paths)
  {
    if paths == [] then 0
    else
      assert AllPlain(tree, paths[..|paths| - 1]) by {
        assert forall i :: 0 <= i < |paths| - 1 ==> paths[..|paths| - 1][i] == paths[i];
      }
      TotalData(tree, paths[..|paths| - 1]) + |tree[paths[|paths| - 1]].file.data|
  }

  /** Paths that stay different when normalized and case-folded, also from the
      manifest's. */
  ghost predicate FoldApart(fold: string -> string, prefix: string, paths: seq<string>) {
    && (forall i, j :: 0 <= i < j < |paths| ==> fold(prefix + "/" + paths[i]) != fold(prefix + "/" + paths[j]))
    && (forall i :: 0 <= i < |paths| ==> fold(prefix + "/" + paths[i]) != fold(prefix + "/" + MANIFEST_NAME))
  }

  /** What it takes for the archive of these files to be verified. */
  ghost predicate Packable(
    fold: string -> string, deflate: Deflate, tree: Tree, paths: seq<string>, prefix: string, manifestData: Data)
    requires AllPlain(tree, paths)
  {
    && paths != [] && PrefixPackable(prefix)
    && AllFilesPackable(tree, paths, deflate)
    && FoldApart(fold, prefix, paths)
    && |manifestData| <= MAX_MANIFEST && Compressible(manifestData, deflate)
    && TotalData(tree, paths) + |manifestData| <= MAX_TOTAL
  }

  lemma JoinedIsNoDir(prefix: string, path: string)
    requires path != "" && !IsDir(path)
    ensures !IsDir(prefix + "/" + path)
  {
    var name := prefix + "/" + path;
    assert name[|name| - 1] == path[|path| - 1];
  }

  lemma LastPartOfJoin(prefix: string, path: string)
    ensures LastPart(prefix + "/" + path) == LastPart(path)
  {
    SplitOfConcatenation(prefix, path);
  }

  lemma MemberIsSafe(name: string, prefix: string, path: string, m: Member)
    requires path != "" && !IsDir(path) && name == prefix + "/" + path
    requires m.name == name && m.fileType == RegularFile
    ensures MemberSafe(m) <==> Portable(prefix) && Portable(path) && |m.data| <= MAX_MEMBER && RatioKept(m)
  {
    JoinedIsNoDir(prefix, path);
    PortableJoin(prefix, path);
  }

  /** With portable parts, Parts is Split. */
  lemma PartsOfPortable(name: string)
    requires Portable(name)
    ensures Parts(name) == Split(name, '/') && ".." !in Parts(name) && name != "" && name[0] != '/'
  {
    var parts := Split(name, '/');
    forall i | 0 <= i < |parts| ensures parts[i] !in {"", ".", ".."} {
      assert PortablePart(parts[i]);
    }
    SegmentsKeepsAll(parts);
  }

  /** A kept file's name is forbidden in two cases only. */
  lemma ForbiddenInArchive(prefix: string, path: string)
    requires Portable(prefix) && Portable(path) && '/' !in prefix
    requires !AnyPartIn(path, EXCLUDED_DIRS) && LastPart(path) != ".coverage"
    ensures ForbiddenName(prefix + "/" + path) <==> prefix in EXCLUDED_DIRS || LastPart(path) == ".env"
  {
    var name := prefix + "/" + path;
    PortableJoin(prefix, path);
    ForbiddenWhenPortable(name);
    SplitOfConcatenation(prefix, path);
    SplitOfSegment(prefix);
    ForbiddenParts([prefix] + Split(path, '/'), prefix, Split(path, '/'));
  }

  /** A part is an excluded directory, or the last one is a forbidden file. */
  predicate ForbiddenAmong(parts: seq<string>) {
    || (exists i :: 0 <= i < |parts| && parts[i] in EXCLUDED_DIRS)
    || (parts != [] && parts[|parts| - 1] in {".env", ".coverage"})
  }

  lemma ForbiddenWhenPortable(name: string)
    requires Portable(name)
    ensures ForbiddenName(name) <==> ForbiddenAmong(Split(name, '/'))
  {
    PartsOfPortable(name);
  }

  lemma ForbiddenParts(parts: seq<string>, first: string, rest: seq<string>)
    requires parts == [first] + rest && rest != [] && rest[|rest| - 1] != ".coverage"
    requires forall i :: 0 <= i < |rest| ==> rest[i] !in EXCLUDED_DIRS
    ensures ForbiddenAmong(parts) <==> first in EXCLUDED_DIRS || rest[|rest| - 1] == ".env"
  {
    if first in EXCLUDED_DIRS {
      assert parts[0] in EXCLUDED_DIRS;
    }
    forall i | 0 < i < |parts| ensures parts[i] !in EXCLUDED_DIRS {
      assert parts[i] == rest[i - 1];
    }
  }

  lemma {:induction false} SafeSoFarFrom(fold: string -> string, members: seq<Member>, n: nat)
    requires n <= |members|
    requires forall i :: 0 <= i < n ==> MemberSafe(members[i]) && FreshName(fold, members, i, members[i].name)
    ensures SafeSoFar(fold, members, n)
    decreases n
  {
    if n > 0 {
      SafeSoFarFrom(fold, members, n - 1);
    }
  }

  /** The setting of a packaging: kept files of a directory, under its name. */
  ghost predicate Packing(tree: Tree, paths: seq<string>, prefix: string) {
    && AllPlain(tree, paths) && NoRepeats(paths) && FileTree(tree) && '/' !in prefix
    && forall i :: 0 <= i < |paths| ==>
         LastPart(paths[i]) != MANIFEST_NAME && LastPart(paths[i]) != ".coverage" && !AnyPartIn(paths[i], EXCLUDED_DIRS)
  }

  lemma {:induction false} TotalOfArchive(tree: Tree, paths: seq<string>, members: seq<Member>)
    requires AllPlain(tree, paths) && |paths| <= |members|
    requires forall i :: 0 <= i < |paths| ==> members[i].data == tree[paths[i]].file.data
    ensures TotalSize(members, |paths|) == TotalData(tree, paths)
    decreases |paths|
  {
    if paths != [] {
      TotalOfArchive(tree, paths[..|paths| - 1], members);
    }
  }

  /** A long stem in capitals is no reserved name. */
  lemma LongStem(name: string, stem: string, extension: string)
    requires name == stem + "." + extension && '.' !in stem && |stem| > 4
    requires forall i :: 0 <= i < |stem| ==> !('a' <= stem[i] <= 'z')
    ensures Upper(Split(name, '.')[0]) !in RESERVED
  {
    SplitAtDot(stem, extension);
    UpperOfUpper(stem);
    ReservedIsShort(stem);
  }

  lemma ManifestStem()
    ensures Upper(Split(MANIFEST_NAME, '.')[0]) !in RESERVED
  {
    LongStem(MANIFEST_NAME, "PACKAGE_MANIFEST", "json");
  }

  lemma ReservedIsShort(s: string)
    requires |s| > 4
    ensures s !in RESERVED
  {
  }

  lemma ManifestCharacters()
    ensures forall i :: 0 <= i < |MANIFEST_NAME| ==>
              MANIFEST_NAME[i] >= ' ' && MANIFEST_NAME[i] !in "<>:\"|?*" && MANIFEST_NAME[i] !in {'/', '\\', '\0'}
    ensures MANIFEST_NAME[|MANIFEST_NAME| - 1] == 'n'
  {
  }

  lemma ManifestPart()
    ensures PartProblem(MANIFEST_NAME) == None
  {
    ManifestStem();
    ManifestCharacters();
    FinePart(MANIFEST_NAME);
  }

  lemma FinePart(part: string)
    requires part != "" && part[|part| - 1] !in " ." && Upper(Split(part, '.')[0]) !in RESERVED
    requires forall i :: 0 <= i < |part| ==> part[i] >= ' ' && part[i] !in "<>:\"|?*"
    ensures PartProblem(part) == None
  {
  }

  /** The manifest's own name is portable. */
  lemma ManifestIsPortable()
    ensures Split(MANIFEST_NAME, '/') == [MANIFEST_NAME] && Portable(MANIFEST_NAME)
    ensures MANIFEST_NAME != "" && !IsDir(MANIFEST_NAME)
  {
    ManifestCharacters();
    ManifestPart();
    SplitOfSegment(MANIFEST_NAME);
  }

  lemma {:induction false} SplitAtDot(a: string, b: string)
    requires '.' !in a
    ensures Split(a + "." + b, '.')[0] == a
  {
    if a == "" {
      assert a + "." + b == "." + b;
    } else {
      assert (a + "." + b)[1..] == a[1..] + "." + b;
      SplitAtDot(a[1..], b);
      assert [a[0]] + a[1..] == a;
    }
  }

  lemma {:induction false} UpperOfUpper(s: string)
    requires forall i :: 0 <= i < |s| ==> !('a' <= s[i] <= 'z')
    ensures Upper(s) == s
  {
    if s != "" {
      UpperOfUpper(s[1..]);
      assert [s[0]] + s[1..] == s;
    }
  }

  lemma ManifestIsNoSource()
    ensures !AnyPartIn(MANIFEST_NAME, EXCLUDED_DIRS) && LastPart(MANIFEST_NAME) !in {".env", ".coverage"}
  {
    ManifestIsPortable();
    LongIsNotExcluded(MANIFEST_NAME);
  }

  lemma LongIsNotExcluded(name: string)
    requires |name| > 13
    ensures name !in EXCLUDED_DIRS
  {
  }

  /** A member passes the checks of its own if and only if its parts do. */
  ghost predicate MemberPasses(m: Member) {
    MemberSafe(m) && !ForbiddenName(m.name)
  }

  lemma MemberPassesIff(m: Member, prefix: string, path: string)
    requires path != "" && !IsDir(path) && m.name == prefix + "/" + path && m.fileType == RegularFile && '/' !in prefix
    requires !AnyPartIn(path, EXCLUDED_DIRS) && LastPart(path) != ".coverage"
    ensures MemberPasses(m) <==>
            && Portable(prefix) && prefix !in EXCLUDED_DIRS
            && Portable(path) && LastPart(path) != ".env" && |m.data| <= MAX_MEMBER && RatioKept(m)
  {
    MemberIsSafe(m.name, prefix, path, m);
    if Portable(prefix) && Portable(path) {
      ForbiddenInArchive(prefix, path);
    }
  }

  ghost predicate AllPass(members: seq<Member>) {
    forall i {:trigger MemberPasses(members[i])} :: 0 <= i < |members| ==> MemberPasses(members[i])
  }

  ghost predicate AllFresh(fold: string -> string, members: seq<Member>) {
    forall i {:trigger FreshName(fold, members, i, members[i].name)} ::
      0 <= i < |members| ==> FreshName(fold, members, i, members[i].name)
  }

  lemma SafeAndAllowedIff(fold: string -> string, members: seq<Member>)
    ensures SafeSoFar(fold, members, |members|) && NoneForbidden(members) <==> AllPass(members) && AllFresh(fold, members)
  {
    if SafeSoFar(fold, members, |members|) && NoneForbidden(members) {
      forall i | 0 <= i < |members|
        ensures MemberPasses(members[i]) && FreshName(fold, members, i, members[i].name)
      {
        SafeSoFarAt(fold, members, |members|, i);
      }
    }
    if AllPass(members) && AllFresh(fold, members) {
      forall i | 0 <= i < |members| ensures MemberSafe(members[i]) && !ForbiddenName(members[i].name) {
        assert MemberPasses(members[i]);
      }
      SafeSoFarFrom(fold, members, |members|);
    }
  }

  /** The directory's name can be the prefix. */
  lemma SafeZipIff(fold: string -> string, members: seq<Member>)
    ensures SafeZip(fold, members) && NoneForbidden(members) <==>
              AllPass(members) && AllFresh(fold, members) && TotalSize(members, |members|) <= MAX_TOTAL
  {
    SafeAndAllowedIff(fold, members);
  }

  ghost predicate PrefixPackable(prefix: string) {
    Portable(prefix) && prefix !in EXCLUDED_DIRS
  }

  lemma FileMemberPassesIff(path: string, file: File, prefix: string, deflate: Deflate)
    requires path != "" && !IsDir(path) && '/' !in prefix
    requires !AnyPartIn(path, EXCLUDED_DIRS) && LastPart(path) != ".coverage"
    ensures MemberPasses(MemberOf(prefix, path, file, deflate)) <==> PrefixPackable(prefix) && FilePackable(path, file, deflate)
  {
    MemberPassesIff(MemberOf(prefix, path, file, deflate), prefix, path);
  }

  lemma ManifestMemberPassesIff(prefix: string, data: Data, deflate: Deflate)
    requires '/' !in prefix
    ensures MemberPasses(ManifestMember(prefix, data, deflate)) <==>
            PrefixPackable(prefix) && |data| <= MAX_MEMBER && Compressible(data, deflate)
  {
    ManifestIsPortable();
    ManifestIsNoSource();
    MemberPassesIff(ManifestMember(prefix, data, deflate), prefix, MANIFEST_NAME);
  }

  /** The members' own checks, told about the tree. */
  lemma AllPassIff(tree: Tree, paths: seq<string>, prefix: string, manifestData: Data, deflate: Deflate)
    requires Packing(tree, paths, prefix)
    ensures AllPass(ArchiveOf(tree, paths, prefix, manifestData, deflate)) <==>
            && PrefixPackable(prefix) && AllFilesPackable(tree, paths, deflate)
            && |manifestData| <= MAX_MEMBER && Compressible(manifestData, deflate)
  {
    ManifestMemberPassesIff(prefix, manifestData, deflate);
    forall i | 0 <= i < |paths|
      ensures MemberPasses(MemberOf(prefix, paths[i], tree[paths[i]].file, deflate)) <==>
              PrefixPackable(prefix) && FilePackable(paths[i], tree[paths[i]].file, deflate)
    {
      FileMemberPassesIff(paths[i], tree[paths[i]].file, prefix, deflate);
    }
    AllPassSplit(tree, paths, prefix, manifestData, deflate);
  }

  lemma AllPassSplit(tree: Tree, paths: seq<string>, prefix: string, manifestData: Data, deflate: Deflate)
    requires AllPlain(tree, paths)
    ensures AllPass(ArchiveOf(tree, paths, prefix, manifestData, deflate)) <==>
            && (forall i :: 0 <= i < |paths| ==> MemberPasses(MemberOf(prefix, paths[i], tree[paths[i]].file, deflate)))
            && MemberPasses(ManifestMember(prefix, manifestData, deflate))
  {
    var members := ArchiveOf(tree, paths, prefix, manifestData, deflate);
    assert members[|paths|] == ManifestMember(prefix, manifestData, deflate);
    assert forall i :: 0 <= i < |paths| ==> members[i] == MemberOf(prefix, paths[i], tree[paths[i]].file, deflate);
  }

  lemma AllFreshIff(fold: string -> string, tree: Tree, paths: seq<string>, prefix: string, manifestData: Data, deflate: Deflate)
    requires AllPlain(tree, paths)
    ensures AllFresh(fold, ArchiveOf(tree, paths, prefix, manifestData, deflate)) <==> FoldApart(fold, prefix, paths)
  {
    var members := ArchiveOf(tree, paths, prefix, manifestData, deflate);
    if AllFresh(fold, members) {
      forall i, j | 0 <= i < j < |members| ensures fold(members[i].name) != fold(members[j].name) {
        assert FreshName(fold, members, j, members[j].name);
      }
      forall i, j | 0 <= i < j < |paths| ensures fold(prefix + "/" + paths[i]) != fold(prefix + "/" + paths[j]) {
        assert fold(members[i].name) != fold(members[j].name);
      }
      forall i | 0 <= i < |paths| ensures fold(prefix + "/" + paths[i]) != fold(prefix + "/" + MANIFEST_NAME) {
        assert fold(members[i].name) != fold(members[|paths|].name);
      }
    }
  }

  // ---- the archive and its manifest ----

  lemma RowsAreSound(tree: Tree, paths: seq<string>)
    requires AllPlain(tree, paths) && NoRepeats(paths) && forall i :: 0 <= i < |paths| ==> Portable(paths[i])
    ensures RowsSound(RowsOf(tree, paths))
  {
  }

  /** With names that differ, a member is found under its name. */
  lemma {:induction false} LookupFinds(members: seq<Member>, i: nat)
    requires i < |members| && forall j :: 0 <= j < |members| && j != i ==> members[j].name != members[i].name
    ensures Lookup(members, members[i].name) == Some(members[i])
  {
    var front := members[..|members| - 1];
    if i < |front| {
      assert forall j :: 0 <= j < |front| ==> front[j] == members[j];
      LookupFinds(front, i);
    }
  }

  lemma SuffixIsLastPart(name: string)
    requires IsManifestName(name)
    ensures LastPart(name) == MANIFEST_NAME
  {
    ManifestNameParts(name);
    LastPartOfJoin(PrefixOf(name), MANIFEST_NAME);
    ManifestIsPortable();
  }

  lemma JoinedManifestName(prefix: string)
    ensures IsManifestName(prefix + "/" + MANIFEST_NAME) && PrefixOf(prefix + "/" + MANIFEST_NAME) == prefix
  {
    var name := prefix + "/" + MANIFEST_NAME;
    assert MANIFEST_SUFFIX == "/" + MANIFEST_NAME;
    assert name == prefix + MANIFEST_SUFFIX;
    assert name[|prefix|..] == MANIFEST_SUFFIX;
  }

  /** Among the members only the last is named like a manifest. */
  lemma OneManifest(tree: Tree, paths: seq<string>, prefix: string, manifestData: Data, deflate: Deflate, i: nat)
    requires Packing(tree, paths, prefix) && i < |paths|
    ensures var members := ArchiveOf(tree, paths, prefix, manifestData, deflate);
            !IsManifestName(members[i].name) && members[i].name != members[|paths|].name
  {
    LastPartOfJoin(prefix, paths[i]);
    JoinedManifestName(prefix);
    var name := prefix + "/" + paths[i];
    if IsManifestName(name) {
      SuffixIsLastPart(name);
    }
  }

  lemma FileServed(tree: Tree, paths: seq<string>, prefix: string, manifestData: Data, deflate: Deflate, i: nat)
    requires Packing(tree, paths, prefix) && i < |paths|
    ensures var members := ArchiveOf(tree, paths, prefix, manifestData, deflate);
            RowServed(members, prefix, RowOf(paths[i], tree[paths[i]].file))
  {
    var members := ArchiveOf(tree, paths, prefix, manifestData, deflate);
    forall j | 0 <= j < |members| && j != i ensures members[j].name != members[i].name {
      if j < |paths| {
        JoinInjective(prefix, paths[i], paths[j]);
      } else {
        OneManifest(tree, paths, prefix, manifestData, deflate, i);
      }
    }
    LookupFinds(members, i);
  }

  lemma ArchiveIsAccounted(tree: Tree, paths: seq<string>, prefix: string, manifestData: Data, deflate: Deflate)
    requires AllPlain(tree, paths)
    ensures var members := ArchiveOf(tree, paths, prefix, manifestData, deflate);
            NoneUnexpected(members, members[|paths|].name, prefix, RowsOf(tree, paths))
  {
    var members, rows := ArchiveOf(tree, paths, prefix, manifestData, deflate), RowsOf(tree, paths);
    forall i | 0 <= i < |members| ensures Accounted(members[i].name, members[|paths|].name, prefix, rows) {
      if i < |paths| {
        assert rows[i].Row? && members[i].name == prefix + "/" + rows[i].path;
      }
    }
  }

  lemma ExpectedOfRows(tree: Tree, paths: seq<string>)
    requires AllPlain(tree, paths)
    ensures paths != [] <==> ContentSetOf(RowsOf(tree, paths)) == Some(Expected(RowsOf(tree, paths)))
  {
    var rows := RowsOf(tree, paths);
    if rows != [] {
      assert rows[|rows| - 1].path in Expected(rows);
    }
  }

  /** The manifest describes the archive if there is any file to describe. */
  lemma ManifestDescribes(tree: Tree, paths: seq<string>, prefix: string, commit: Option<string>, manifestData: Data, deflate: Deflate)
    requires Packing(tree, paths, prefix) && forall i :: 0 <= i < |paths| ==> Portable(paths[i])
    ensures var members := ArchiveOf(tree, paths, prefix, manifestData, deflate);
            Describes(ManifestOf(tree, paths, commit), members[|paths|].name, prefix, members) <==> paths != []
  {
    var members := ArchiveOf(tree, paths, prefix, manifestData, deflate);
    RowsAreSound(tree, paths);
    ExpectedOfRows(tree, paths);
    ArchiveIsAccounted(tree, paths, prefix, manifestData, deflate);
    forall i | 0 <= i < |paths| ensures RowServed(members, prefix, RowsOf(tree, paths)[i]) {
      FileServed(tree, paths, prefix, manifestData, deflate, i);
    }
  }

  lemma ManifestAtEnd(
    codec: Codec, tree: Tree, paths: seq<string>, prefix: string, commit: Option<string>, deflate: Deflate, k: nat)
    requires RoundTrips(codec) && Packing(tree, paths, prefix) && forall i :: 0 <= i < |paths| ==> Portable(paths[i])
    ensures var manifestData := codec.render(ManifestOf(tree, paths, commit));
            var members := ArchiveOf(tree, paths, prefix, manifestData, deflate);
            ManifestAt(codec, members, k) <==> k == |paths| && |manifestData| <= MAX_MANIFEST && paths != []
  {
    var manifestData := codec.render(ManifestOf(tree, paths, commit));
    var members := ArchiveOf(tree, paths, prefix, manifestData, deflate);
    JoinedManifestName(prefix);
    ManifestDescribes(tree, paths, prefix, commit, manifestData, deflate);
    forall i | 0 <= i < |paths| ensures !IsManifestName(members[i].name) {
      OneManifest(tree, paths, prefix, manifestData, deflate, i);
    }
  }

  lemma ManifestIsFound(
    codec: Codec, tree: Tree, paths: seq<string>, prefix: string, commit: Option<string>, deflate: Deflate)
    requires RoundTrips(codec) && Packing(tree, paths, prefix) && forall i :: 0 <= i < |paths| ==> Portable(paths[i])
    ensures var manifestData := codec.render(ManifestOf(tree, paths, commit));
            (exists k: nat :: ManifestAt(codec, ArchiveOf(tree, paths, prefix, manifestData, deflate), k))
            <==> |manifestData| <= MAX_MANIFEST && paths != []
  {
    var manifestData := codec.render(ManifestOf(tree, paths, commit));
    var members := ArchiveOf(tree, paths, prefix, manifestData, deflate);
    ManifestAtEnd(codec, tree, paths, prefix, commit, deflate, |paths|);
    if k: nat :| ManifestAt(codec, members, k) {
      ManifestAtEnd(codec, tree, paths, prefix, commit, deflate, k);
    }
  }

  ghost predicate AllFilesPackable(tree: Tree, paths: seq<string>, deflate: Deflate)
    requires AllPlain(tree, paths)
  {
    forall i {:trigger FilePackable(paths[i], tree[paths[i]].file, deflate)} ::
      0 <= i < |paths| ==> FilePackable(paths[i], tree[paths[i]].file, deflate)
  }

  lemma PackableIsPortable(tree: Tree, paths: seq<string>, deflate: Deflate)
    requires AllPlain(tree, paths) && AllFilesPackable(tree, paths, deflate)
    ensures forall i :: 0 <= i < |paths| ==> Portable(paths[i])
  {
    forall i | 0 <= i < |paths| ensures Portable(paths[i]) {
      assert FilePackable(paths[i], tree[paths[i]].file, deflate);
    }
  }

  /** The checks that do not read the manifest, told about the tree. */
  lemma SafeIff(
    fold: string -> string, deflate: Deflate, tree: Tree, paths: seq<string>, prefix: string, manifestData: Data)
    requires Packing(tree, paths, prefix)
    ensures var members := ArchiveOf(tree, paths, prefix, manifestData, deflate);
            SafeZip(fold, members) && NoneForbidden(members) <==>
            && PrefixPackable(prefix) && AllFilesPackable(tree, paths, deflate) && FoldApart(fold, prefix, paths)
            && |manifestData| <= MAX_MEMBER && Compressible(manifestData, deflate)
            && TotalData(tree, paths) + |manifestData| <= MAX_TOTAL
  {
    var members := ArchiveOf(tree, paths, prefix, manifestData, deflate);
    SafeZipIff(fold, members);
    AllPassIff(tree, paths, prefix, manifestData, deflate);
    AllFreshIff(fold, tree, paths, prefix, manifestData, deflate);
    TotalWithManifest(tree, paths, prefix, manifestData, deflate);
  }

  lemma TotalWithManifest(tree: Tree, paths: seq<string>, prefix: string, manifestData: Data, deflate: Deflate)
    requires AllPlain(tree, paths)
    ensures var members := ArchiveOf(tree, paths, prefix, manifestData, deflate);
            TotalSize(members, |members|) == TotalData(tree, paths) + |manifestData|
  {
    TotalOfArchive(tree, paths, ArchiveOf(tree, paths, prefix, manifestData, deflate));
  }

  /** The archive of a tree is verified if and only if the tree can be packed. */
  lemma CleanIffPackable(
    codec: Codec, fold: string -> string, deflate: Deflate, tree: Tree, paths: seq<string>, prefix: string, commit: Option<string>)
    requires RoundTrips(codec) && Packing(tree, paths, prefix)
    ensures var manifestData := codec.render(ManifestOf(tree, paths, commit));
            Clean(codec, fold, ArchiveOf(tree, paths, prefix, manifestData, deflate))
            <==> Packable(fold, deflate, tree, paths, prefix, manifestData)
  {
    SafeIff(fold, deflate, tree, paths, prefix, codec.render(ManifestOf(tree, paths, commit)));
    if AllFilesPackable(tree, paths, deflate) {
      PackableIsPortable(tree, paths, deflate);
      ManifestIsFound(codec, tree, paths, prefix, commit, deflate);
    }
  }
}
