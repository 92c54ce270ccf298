/** The source archive and its verification (scripts/package_release.py). The
    case folding of names and the JSON text of manifests are parameters. */
module SourcePackage {
  import opened Base
  import opened PortablePaths

  type Data = string

  /** The content digest, taken to be injective. */
  datatype Digest = Sha256(data: Data)

  /** Permission bits: the three execute bits and the others. */
  datatype Mode = Mode(ownerX: bool, groupX: bool, otherX: bool, rest: nat)

  datatype UnixType = NoType | RegularFile | Directory | SpecialFile

  datatype Member = Member(name: string, data: Data, compressed: nat, fileType: UnixType, onUnix: bool, mode: Mode)

  /** One entry of the manifest's file list; None: the value is missing or not
      of the right kind. */
  datatype Row = Junk | Row(path: string, sha: Option<Digest>, size: Option<nat>, executable: Option<bool>)

  /** The digest of the normalized entries is represented by the entries. */
  datatype Manifest = Manifest(
    schemaSupported: bool,
    roleIsSource: bool,
    commit: Option<string>,
    fileCount: int,
    contentSet: Option<map<string, Row>>,
    files: seq<Row>)

  datatype Codec = Codec(render: Manifest -> Data, parse: Data -> Option<Manifest>)

  datatype SafetyProblem =
    | DuplicateMember(name: string)
    | PortabilityCollision(prior: string, name: string)
    | NotPortable(name: string, problem: Problem)
    | MemberSizeLimit(name: string)
    | CompressionRatioLimit(name: string)
    | SpecialFileType(name: string)
    | ArchiveTotalSizeLimit

  datatype Mismatch =
    | Unsafe(problem: SafetyProblem)
    | ManifestCount
    | ManifestSizeLimit
    | ManifestInvalid
    | DuplicateOrInvalidPath
    | FileCountMismatch
    | PathNotPortable(path: string)
    | EntryInvalid(path: string)
    | ContentSetMismatch
    | UnexpectedMember(name: string)
    | MissingMember(name: string)
    | ContentMismatch(path: string)
    | ExecutableMode(path: string)

  datatype Report = Report(forbidden: seq<string>, mismatches: seq<Mismatch>)

  const MAX_MEMBER: nat := 256 * 1024 * 1024
  const MAX_TOTAL: nat := 1024 * 1024 * 1024
  const MAX_MANIFEST: nat := 16 * 1024 * 1024
  const MAX_RATIO: nat := 200

  const EXCLUDED_DIRS: set<string> := {
    ".git", ".pytest_cache", "__pycache__", "node_modules", "dist", ".vite", ".venv", "venv", "secrets"}

  const MANIFEST_NAME: string := "PACKAGE_MANIFEST.json"
  const MANIFEST_SUFFIX: string := "/PACKAGE_MANIFEST.json"

  predicate AnyX(mode: Mode) {
    mode.ownerX || mode.groupX || mode.otherX
  }

  function Names(members: seq<Member>): seq<string> {
    seq(|members|, i requires 0 <= i < |members| => members[i].name)
  }

  // ---- the metadata check ----

  predicate IsDir(name: string) {
    name != "" && name[|name| - 1] == '/'
  }

  /** The size of the first n members. */
  function TotalSize(members: seq<Member>, n: nat): nat
    requires n <= |members|
  {
    if n == 0 then 0 else TotalSize(members, n - 1) + |members[n - 1].data|
  }

  predicate RatioKept(m: Member) {
    |m.data| <= MAX_RATIO * m.compressed
  }

  ghost predicate MemberSafe(m: Member) {
    && Portable(if IsDir(m.name) then StripSlashes(m.name) else m.name)
    && |m.data| <= MAX_MEMBER && RatioKept(m)
    && !(m.onUnix && m.fileType.SpecialFile?)
  }

  /** No member before n has this name, normalized and case-folded. */
  ghost predicate FreshName(fold: string -> string, members: seq<Member>, n: nat, name: string)
    requires n <= |members|
  {
    forall i :: 0 <= i < n ==> fold(members[i].name) != fold(name)
  }

  /** The first n members are safe, and their names stay different when they are
      normalized and case-folded. */
  ghost predicate SafeSoFar(fold: string -> string, members: seq<Member>, n: nat)
    requires n <= |members|
  {
    n > 0 ==>
      && SafeSoFar(fold, members, n - 1)
      && MemberSafe(members[n - 1]) && FreshName(fold, members, n - 1, members[n - 1].name)
  }

  ghost predicate SafeZip(fold: string -> string, members: seq<Member>) {
    SafeSoFar(fold, members, |members|) && TotalSize(members, |members|) <= MAX_TOTAL
  }

  lemma {:induction false} SafeSoFarAt(fold: string -> string, members: seq<Member>, n: nat, i: nat)
    requires i < n <= |members| && SafeSoFar(fold, members, n)
    ensures MemberSafe(members[i]) && FreshName(fold, members, i, members[i].name)
    decreases n
  {
    if i < n - 1 {
      SafeSoFarAt(fold, members, n - 1, i);
    }
  }

  /** The problems of one member, apart from its name's uniqueness. */
  method ScanMember(m: Member) returns (problems: seq<SafetyProblem>)
    ensures problems == [] <==> MemberSafe(m)
  {
    problems := [];
    var pathProblem := PortablePathProblem(if IsDir(m.name) then StripSlashes(m.name) else m.name);
    if pathProblem.Some? {
      problems := problems + [NotPortable(m.name, pathProblem.value)];
    }
    if |m.data| > MAX_MEMBER {
      problems := problems + [MemberSizeLimit(m.name)];
    }
    if m.compressed == 0 {
      if |m.data| > 0 {
        problems := problems + [CompressionRatioLimit(m.name)];
      }
    } else if |m.data| > MAX_RATIO * m.compressed {
      problems := problems + [CompressionRatioLimit(m.name)];
    }
    if m.onUnix && m.fileType.SpecialFile? {
      problems := problems + [SpecialFileType(m.name)];
    }
  }

  /** The names seen so far, and for each folded name the first of them. */
  ghost predicate Seen(
    fold: string -> string, members: seq<Member>, n: nat, exact: set<string>, normalized: map<string, string>)
    requires n <= |members|
  {
    && (forall i :: 0 <= i < n ==> members[i].name in exact)
    && (forall name :: name in exact ==> fold(name) in normalized)
    && (forall key :: key in normalized ==> FirstWith(fold, members, n, key, normalized[key]))
  }

  ghost predicate FirstWith(fold: string -> string, members: seq<Member>, n: nat, key: string, name: string)
    requires n <= |members|
  {
    fold(name) == key && exists i :: 0 <= i < n && members[i].name == name
  }

  /** The uniqueness of the name at n, exactly and folded. */
  method ScanName(fold: string -> string, members: seq<Member>, n: nat, exact: set<string>, normalized: map<string, string>)
    returns (problems: seq<SafetyProblem>, exact': set<string>, normalized': map<string, string>)
    requires n < |members| && Seen(fold, members, n, exact, normalized)
    ensures problems == [] <==> FreshName(fold, members, n, members[n].name)
    ensures Seen(fold, members, n + 1, exact', normalized')
  {
    problems := [];
    var name := members[n].name;
    var key := fold(name);
    if key in normalized {
      var i :| 0 <= i < n && members[i].name == normalized[key];
      assert fold(members[i].name) == fold(name);
    }
    if name in exact {
      problems := problems + [DuplicateMember(name)];
    }
    exact' := exact + {name};
    if key in normalized && normalized[key] != name {
      problems := problems + [PortabilityCollision(normalized[key], name)];
    }
    normalized' := if key in normalized then normalized else normalized[key := name];
    forall k | k in normalized' ensures FirstWith(fold, members, n + 1, k, normalized'[k]) {
      if k in normalized {
        assert FirstWith(fold, members, n, k, normalized[k]);
      } else {
        assert members[n].name == normalized'[k];
      }
    }
  }

  /** scan_zip_safety: no problem exactly for an archive that is safe to read. */
  method ScanZipSafety(fold: string -> string, members: seq<Member>) returns (problems: seq<SafetyProblem>)
    ensures problems == [] <==> SafeZip(fold, members)
  {
    problems := [];
    var exact: set<string> := {};
    var normalized: map<string, string> := map[];
    var total := 0;
    for i := 0 to |members|
      invariant problems == [] <==> SafeSoFar(fold, members, i)
      invariant Seen(fold, members, i, exact, normalized)
      invariant total == TotalSize(members, i)
    {
      var clashes;
      clashes, exact, normalized := ScanName(fold, members, i, exact, normalized);
      var found := ScanMember(members[i]);
      problems := problems + clashes + found;
      total := total + |members[i].data|;
    }
    if total > MAX_TOTAL {
      problems := problems + [ArchiveTotalSizeLimit];
    }
  }

  // ---- forbidden names and the manifest member ----

  predicate ForbiddenName(name: string) {
    var parts := Parts(name);
    || (name != "" && name[0] == '/') || ".." in parts
    || (exists i :: 0 <= i < |parts| && parts[i] in EXCLUDED_DIRS)
    || (parts != [] && parts[|parts| - 1] in {".env", ".coverage"})
  }

  ghost predicate NoneForbidden(members: seq<Member>) {
    forall i {:trigger ForbiddenName(members[i].name)} :: 0 <= i < |members| ==> !ForbiddenName(members[i].name)
  }

  method ForbiddenNames(members: seq<Member>) returns (forbidden: seq<string>)
    ensures forbidden == [] <==> NoneForbidden(members)
  {
    forbidden := [];
    for i := 0 to |members|
      invariant forbidden == [] <==> forall j :: 0 <= j < i ==> !ForbiddenName(members[j].name)
    {
      if ForbiddenName(members[i].name) {
        forbidden := forbidden + [members[i].name];
      }
    }
  }

  predicate EndsWith(name: string, suffix: string) {
    |suffix| <= |name| && name[|name| - |suffix|..] == suffix
  }

  predicate IsManifestName(name: string) {
    EndsWith(name, MANIFEST_SUFFIX)
  }

  /** The positions of the members that are named like a manifest. */
  method ManifestCandidates(members: seq<Member>) returns (found: seq<nat>)
    ensures forall i :: i in found <==> 0 <= i < |members| && IsManifestName(members[i].name)
    ensures forall i, j :: 0 <= i < j < |found| ==> found[i] < found[j]
  {
    found := [];
    for i := 0 to |members|
      invariant forall k :: k in found <==> 0 <= k < i && IsManifestName(members[k].name)
      invariant forall k, l :: 0 <= k < l < |found| ==> found[k] < found[l]
      invariant forall k :: 0 <= k < |found| ==> found[k] < i
    {
      if IsManifestName(members[i].name) {
        found := found + [i];
      }
    }
  }

  // ---- the manifest's rows ----

  predicate RowSound(row: Row) {
    row.Row? && Portable(row.path) && row.sha.Some? && row.size.Some? && row.executable.Some?
  }

  ghost predicate RowsSound(rows: seq<Row>) {
    && (forall i :: 0 <= i < |rows| ==> RowSound(rows[i]))
    && (forall i, j :: 0 <= i < j < |rows| ==> rows[i].Row? && rows[j].Row? ==> rows[i].path != rows[j].path)
  }

  /** The rows by path; a later row with the same path wins. */
  function Expected(rows: seq<Row>): map<string, Row> {
    if rows == [] then map[]
    else
      var last := rows[|rows| - 1];
      var before := Expected(rows[..|rows| - 1]);
      if last.Row? then before[last.path := last] else before
  }

  /** The digest that is compared: none for an empty list. */
  function ContentSetOf(rows: seq<Row>): Option<map<string, Row>> {
    if Expected(rows) == map[] then None else Some(Expected(rows))
  }

  lemma {:induction false} ExpectedKeys(rows: seq<Row>, path: string)
    ensures path in Expected(rows) <==> exists i :: 0 <= i < |rows| && rows[i].Row? && rows[i].path == path
  {
    if rows != [] {
      var front := rows[..|rows| - 1];
      ExpectedKeys(front, path);
      if i :| 0 <= i < |rows| && rows[i].Row? && rows[i].path == path {
        if i < |front| {
          assert front[i].Row? && front[i].path == path;
        }
      }
      if path in Expected(front) {
        var i :| 0 <= i < |front| && front[i].Row? && front[i].path == path;
        assert rows[i].Row? && rows[i].path == path;
      }
    }
  }

  lemma {:induction false} ExpectedValue(rows: seq<Row>, i: nat)
    requires RowsSound(rows) && i < |rows|
    ensures rows[i].path in Expected(rows) && Expected(rows)[rows[i].path] == rows[i]
  {
    var front := rows[..|rows| - 1];
    if i < |front| {
      assert RowsSound(front);
      ExpectedValue(front, i);
    }
  }

  lemma RowsSoundExtend(rows: seq<Row>, row: Row)
    ensures RowsSound(rows + [row]) <==> RowsSound(rows) && RowSound(row) && row.path !in Expected(rows)
  {
    var all := rows + [row];
    assert all[|rows|] == row && forall i :: 0 <= i < |rows| ==> all[i] == rows[i];
    if RowSound(row) {
      ExpectedKeys(rows, row.path);
    }
    if RowsSound(all) {
      forall i, j | 0 <= i < j < |rows| && rows[i].Row? && rows[j].Row? ensures rows[i].path != rows[j].path {
        assert all[i].path != all[j].path;
      }
    }
  }

  /** The checks of the entry list. */
  method CheckRows(rows: seq<Row>) returns (mismatches: seq<Mismatch>, expected: map<string, Row>)
    ensures mismatches == [] <==> RowsSound(rows)
    ensures expected == Expected(rows)
  {
    mismatches, expected := [], map[];
    var i := 0;
    while i < |rows|
      invariant 0 <= i <= |rows|
      invariant expected == Expected(rows[..i])
      invariant mismatches == [] <==> RowsSound(rows[..i])
    {
      var row := rows[i];
      assert rows[..i + 1] == rows[..i] + [row];
      RowsSoundExtend(rows[..i], row);
      if row.Junk? || row.path in expected {
        mismatches := mismatches + [DuplicateOrInvalidPath];
      }
      if row.Row? {
        if !Portable(row.path) {
          mismatches := mismatches + [PathNotPortable(row.path)];
        }
        if row.sha.None? || row.size.None? || row.executable.None? {
          mismatches := mismatches + [EntryInvalid(row.path)];
        }
        expected := expected[row.path := row];
      }
      i := i + 1;
    }
    assert rows[..i] == rows;
  }

  // ---- members against rows ----

  /** zf.getinfo: the last member of that name. */
  function Lookup(members: seq<Member>, name: string): Option<Member> {
    if members == [] then None
    else if members[|members| - 1].name == name then Some(members[|members| - 1])
    else Lookup(members[..|members| - 1], name)
  }

  lemma {:induction false} LookupMeaning(members: seq<Member>, name: string)
    ensures Lookup(members, name).Some? ==> Lookup(members, name).value in members && Lookup(members, name).value.name == name
    ensures Lookup(members, name).Some? <==> exists i :: 0 <= i < |members| && members[i].name == name
  {
    if members != [] {
      LookupMeaning(members[..|members| - 1], name);
    }
  }

  /** The member holds what the row says. */
  predicate Matches(m: Member, row: Row) {
    && row.Row? && row.sha == Some(Sha256(m.data)) && row.size == Some(|m.data|)
    && row.executable == Some(AnyX(m.mode))
  }

  ghost predicate RowServed(members: seq<Member>, prefix: string, row: Row) {
    row.Row? &&
    var found := Lookup(members, prefix + "/" + row.path);
    found.Some? && Matches(found.value, row)
  }

  ghost predicate RowsServed(members: seq<Member>, prefix: string, rows: seq<Row>) {
    forall i :: 0 <= i < |rows| ==> RowServed(members, prefix, rows[i])
  }

  /** Every row has its member, and that member its content, size and mode; of
      two rows with the same path only the later one is looked at. */
  method CheckMembers(members: seq<Member>, prefix: string, rows: seq<Row>, expected: map<string, Row>)
    returns (mismatches: seq<Mismatch>)
    requires expected == Expected(rows)
    ensures RowsSound(rows) ==> (mismatches == [] <==> RowsServed(members, prefix, rows))
  {
    mismatches := [];
    for i := 0 to |rows|
      invariant RowsSound(rows) ==> (mismatches == [] <==> forall j :: 0 <= j < i ==> RowServed(members, prefix, rows[j]))
    {
      var row := rows[i];
      if RowsSound(rows) {
        ExpectedValue(rows, i);
      }
      if row.Row? && row.path in expected && expected[row.path] == row {
        var member := Lookup(members, prefix + "/" + row.path);
        if member.None? {
          mismatches := mismatches + [MissingMember(prefix + "/" + row.path)];
        } else if row.sha != Some(Sha256(member.value.data)) || row.size != Some(|member.value.data|) {
          mismatches := mismatches + [ContentMismatch(row.path)];
        } else if row.executable != Some(AnyX(member.value.mode)) {
          mismatches := mismatches + [ExecutableMode(row.path)];
        }
      }
    }
  }

  /** The name is the manifest's or that of a listed file. */
  ghost predicate Accounted(name: string, manifestName: string, prefix: string, rows: seq<Row>) {
    || name == manifestName
    || exists j :: 0 <= j < |rows| && rows[j].Row? && name == prefix + "/" + rows[j].path
  }

  /** No member but the manifest and the listed files. */
  ghost predicate NoneUnexpected(members: seq<Member>, manifestName: string, prefix: string, rows: seq<Row>) {
    forall i :: 0 <= i < |members| ==> Accounted(members[i].name, manifestName, prefix, rows)
  }

  method CheckUnexpected(members: seq<Member>, manifestName: string, prefix: string, rows: seq<Row>) returns (mismatches: seq<Mismatch>)
    ensures mismatches == [] <==> NoneUnexpected(members, manifestName, prefix, rows)
  {
    var expected := {manifestName};
    for j := 0 to |rows|
      invariant forall name :: name in expected <==>
                  name == manifestName || exists k :: 0 <= k < j && rows[k].Row? && name == prefix + "/" + rows[k].path
    {
      if rows[j].Row? {
        expected := expected + {prefix + "/" + rows[j].path};
      }
    }
    mismatches := [];
    for i := 0 to |members|
      invariant mismatches == [] <==> forall k :: 0 <= k < i ==> members[k].name in expected
    {
      if members[i].name !in expected {
        mismatches := mismatches + [UnexpectedMember(members[i].name)];
      }
    }
    forall i | 0 <= i < |members| ensures members[i].name in expected <==> Accounted(members[i].name, manifestName, prefix, rows) {
    }
  }

  // ---- the verification ----

  function PrefixOf(manifestName: string): string
    requires IsManifestName(manifestName)
  {
    manifestName[..|manifestName| - |MANIFEST_SUFFIX|]
  }

  /** The manifest is consistent and describes the members exactly. */
  ghost predicate Describes(manifest: Manifest, manifestName: string, prefix: string, members: seq<Member>) {
    && RowsSound(manifest.files)
    && manifest.fileCount == |manifest.files|
    && manifest.contentSet == ContentSetOf(manifest.files)
    && RowsServed(members, prefix, manifest.files)
    && NoneUnexpected(members, manifestName, prefix, manifest.files)
  }

  /** The member at k is the only one named like a manifest, and its content is
      a manifest that describes the archive. */
  ghost predicate ManifestAt(codec: Codec, members: seq<Member>, k: nat) {
    && k < |members| && IsManifestName(members[k].name)
    && (forall i :: 0 <= i < |members| && IsManifestName(members[i].name) ==> i == k)
    && |members[k].data| <= MAX_MANIFEST
    && codec.parse(members[k].data).Some?
    && Describes(codec.parse(members[k].data).value, members[k].name, PrefixOf(members[k].name), members)
  }

  ghost predicate Clean(codec: Codec, fold: string -> string, members: seq<Member>) {
    && SafeZip(fold, members) && NoneForbidden(members)
    && exists k: nat :: ManifestAt(codec, members, k)
  }

  /** The part of the verification that reads the manifest. */
  method CheckAgainstManifest(manifest: Manifest, manifestName: string, prefix: string, members: seq<Member>)
    returns (mismatches: seq<Mismatch>)
    ensures mismatches == [] <==> Describes(manifest, manifestName, prefix, members)
  {
    var rows := manifest.files;
    var expected;
    mismatches, expected := CheckRows(rows);
    if manifest.fileCount != |rows| {
      mismatches := mismatches + [FileCountMismatch];
    }
    if manifest.contentSet != (if expected == map[] then None else Some(expected)) {
      mismatches := mismatches + [ContentSetMismatch];
    }
    var unexpected := CheckUnexpected(members, manifestName, prefix, rows);
    var unserved := CheckMembers(members, prefix, rows, expected);
    mismatches := mismatches + unexpected + unserved;
  }

  /** From the search for the manifest on. */
  method CheckManifest(codec: Codec, members: seq<Member>) returns (mismatches: seq<Mismatch>)
    ensures mismatches == [] <==> exists k: nat :: ManifestAt(codec, members, k)
  {
    var candidates := ManifestCandidates(members);
    if |candidates| != 1 {
      NotOneManifest(codec, members, candidates);
      return [ManifestCount];
    }
    var k := candidates[0];
    assert k in candidates && forall i :: i in candidates ==> i == k;
    if |members[k].data| > MAX_MANIFEST {
      return [ManifestSizeLimit];
    }
    var manifest := codec.parse(members[k].data);
    if manifest.None? {
      return [ManifestInvalid];
    }
    mismatches := CheckAgainstManifest(manifest.value, members[k].name, PrefixOf(members[k].name), members);
    assert mismatches == [] <==> ManifestAt(codec, members, k);
  }

  /** verify_archive. It reports nothing exactly for a safe archive whose one
      manifest describes it. */
  method VerifyArchive(codec: Codec, fold: string -> string, members: seq<Member>) returns (report: Report)
    ensures report == Report([], []) <==> Clean(codec, fold, members)
  {
    var mismatches: seq<Mismatch> := [];
    var unsafe := ScanZipSafety(fold, members);
    for i := 0 to |unsafe|
      invariant |mismatches| == i
    {
      mismatches := mismatches + [Unsafe(unsafe[i])];
    }
    var forbidden := ForbiddenNames(members);
    var found := CheckManifest(codec, members);
    report := Report(forbidden, mismatches + found);
  }

  lemma NotOneManifest(codec: Codec, members: seq<Member>, candidates: seq<nat>)
    requires forall i :: i in candidates <==> 0 <= i < |members| && IsManifestName(members[i].name)
    requires forall i, j :: 0 <= i < j < |candidates| ==> candidates[i] < candidates[j]
    requires |candidates| != 1
    ensures !exists k: nat :: ManifestAt(codec, members, k)
  {
    forall k: nat ensures !ManifestAt(codec, members, k) {
      if k < |members| && IsManifestName(members[k].name) {
        assert k in candidates;
        assert candidates[0] in candidates && candidates[1] in candidates;
      }
    }
  }

  // ---- what a clean archive is ----

  /** The names that the manifest accounts for: its own and one per row. */
  function AccountedNames(manifestName: string, prefix: string, rows: seq<Row>): seq<string>
    requires forall i :: 0 <= i < |rows| ==> rows[i].Row?
  {
    [manifestName] + seq(|rows|, i requires 0 <= i < |rows| => prefix + "/" + rows[i].path)
  }

  lemma JoinInjective(prefix: string, a: string, b: string)
    ensures prefix + "/" + a == prefix + "/" + b ==> a == b
  {
    assert (prefix + "/" + a)[|prefix| + 1..] == a;
    assert (prefix + "/" + b)[|prefix| + 1..] == b;
  }

  lemma ManifestNameParts(name: string)
    requires IsManifestName(name)
    ensures name == PrefixOf(name) + "/" + MANIFEST_NAME
  {
    assert MANIFEST_SUFFIX == "/" + MANIFEST_NAME;
    assert name == PrefixOf(name) + MANIFEST_SUFFIX;
    assert PrefixOf(name) + ("/" + MANIFEST_NAME) == PrefixOf(name) + "/" + MANIFEST_NAME;
  }

  lemma DirIsNotPortable(name: string)
    requires IsDir(name)
    ensures !Portable(name)
  {
    var front := name[..|name| - 1];
    assert name == front + "/" + "";
    SplitOfConcatenation(front, "");
    var parts := Split(name, '/');
    assert !PortablePart(parts[|parts| - 1]);
  }

  /** A portable name is that of a file. */
  lemma PortableIsNoDir(name: string)
    requires Portable(name)
    ensures !IsDir(name) && SafeTarget(name) == Some(name)
  {
    if IsDir(name) {
      DirIsNotPortable(name);
    }
    PortableTarget(name);
  }

  lemma ManifestNameIsNoDir(name: string)
    requires IsManifestName(name)
    ensures !IsDir(name)
  {
    assert name[|name| - 1] == name[|name| - |MANIFEST_SUFFIX|..][|MANIFEST_SUFFIX| - 1];
  }

  lemma NamesPortable(members: seq<Member>, k: nat, prefix: string, rows: seq<Row>, i: nat)
    requires k < |members| && MemberSafe(members[k]) && IsManifestName(members[k].name) && prefix == PrefixOf(members[k].name)
    requires RowsSound(rows) && i < |members| && Accounted(members[i].name, members[k].name, prefix, rows)
    ensures Portable(members[i].name) && SafeTarget(members[i].name) == Some(members[i].name)
  {
    ManifestNameParts(members[k].name);
    ManifestNameIsNoDir(members[k].name);
    PortableJoin(prefix, MANIFEST_NAME);
    if members[i].name != members[k].name {
      var j :| 0 <= j < |rows| && rows[j].Row? && members[i].name == prefix + "/" + rows[j].path;
      assert RowSound(rows[j]);
      PortableJoin(prefix, rows[j].path);
    }
    PortableIsNoDir(members[i].name);
  }

  lemma TargetsAreNames(members: seq<Member>, k: nat, prefix: string, rows: seq<Row>)
    requires k < |members| && MemberSafe(members[k]) && IsManifestName(members[k].name) && prefix == PrefixOf(members[k].name)
    requires RowsSound(rows) && NoneUnexpected(members, members[k].name, prefix, rows)
    ensures forall i :: 0 <= i < |members| ==> SafeTarget(members[i].name) == Some(members[i].name)
  {
    forall i | 0 <= i < |members| ensures SafeTarget(members[i].name) == Some(members[i].name) {
      NamesPortable(members, k, prefix, rows, i);
    }
  }

  /** A verified archive holds exactly the manifest and the listed files under
      one prefix, each once; every file has the listed content, size and mode;
      the names stay different when folded; and each member is extracted to its
      own name below the root. */
  lemma CleanArchiveMeaning(codec: Codec, fold: string -> string, members: seq<Member>, k: nat)
    requires SafeZip(fold, members) && ManifestAt(codec, members, k)
    ensures var manifest, prefix := codec.parse(members[k].data).value, PrefixOf(members[k].name);
            && members[k].name == prefix + "/" + MANIFEST_NAME
            && Elements(Names(members)) == Elements(AccountedNames(members[k].name, prefix, manifest.files))
            && NoRepeats(Names(members))
            && (forall j :: 0 <= j < |manifest.files| ==> OneMemberMatches(members, prefix, manifest.files[j]))
            && (MANIFEST_NAME !in Expected(manifest.files) ==> |members| == |manifest.files| + 1)
    ensures forall i, j :: 0 <= i < j < |members| ==> fold(members[i].name) != fold(members[j].name)
    ensures forall i :: 0 <= i < |members| ==> SafeTarget(members[i].name) == Some(members[i].name)
  {
    var manifest, prefix, name := codec.parse(members[k].data).value, PrefixOf(members[k].name), members[k].name;
    ManifestNameParts(name);
    SafeSoFarAt(fold, members, |members|, k);
    TargetsAreNames(members, k, prefix, manifest.files);
    NamesAreAccounted(name, prefix, manifest.files, members, k);
    FoldDistinctNames(fold, members);
    if MANIFEST_NAME !in Expected(manifest.files) {
      AccountedNamesDistinct(prefix, MANIFEST_NAME, manifest.files);
      SameNumber(Names(members), AccountedNames(name, prefix, manifest.files));
    }
  }

  lemma SameNumber(a: seq<string>, b: seq<string>)
    requires NoRepeats(a) && NoRepeats(b) && Elements(a) == Elements(b)
    ensures |a| == |b|
  {
    NoRepeatsCardinality(a);
    NoRepeatsCardinality(b);
  }

  lemma FoldDistinctNames(fold: string -> string, members: seq<Member>)
    requires SafeSoFar(fold, members, |members|)
    ensures NoRepeats(Names(members))
    ensures forall i, j :: 0 <= i < j < |members| ==> fold(members[i].name) != fold(members[j].name)
  {
    var names := Names(members);
    forall i, j | 0 <= i < j < |names| ensures names[i] != names[j] && fold(members[i].name) != fold(members[j].name) {
      SafeSoFarAt(fold, members, |members|, j);
    }
  }

  lemma NamesAreAccounted(name: string, prefix: string, rows: seq<Row>, members: seq<Member>, k: nat)
    requires RowsSound(rows) && RowsServed(members, prefix, rows) && NoneUnexpected(members, name, prefix, rows)
    requires k < |members| && members[k].name == name
    ensures Elements(Names(members)) == Elements(AccountedNames(name, prefix, rows))
    ensures forall j :: 0 <= j < |rows| ==> OneMemberMatches(members, prefix, rows[j])
  {
    var names, accounted := Names(members), AccountedNames(name, prefix, rows);
    forall i | 0 <= i < |names| ensures names[i] in accounted {
      NameIsAccounted(name, prefix, rows, members, i);
    }
    forall j | 0 <= j < |rows| ensures OneMemberMatches(members, prefix, rows[j]) {
      RowHasMember(members, prefix, rows[j]);
    }
    forall j | 0 <= j < |accounted| ensures accounted[j] in names {
      AccountedIsNamed(name, prefix, rows, members, k, j);
    }
  }

  lemma NameIsAccounted(name: string, prefix: string, rows: seq<Row>, members: seq<Member>, i: nat)
    requires RowsSound(rows) && i < |members| && Accounted(members[i].name, name, prefix, rows)
    ensures members[i].name in AccountedNames(name, prefix, rows)
  {
    var accounted := AccountedNames(name, prefix, rows);
    if members[i].name == name {
      assert accounted[0] == name;
    } else {
      var j :| 0 <= j < |rows| && rows[j].Row? && members[i].name == prefix + "/" + rows[j].path;
      assert accounted[j + 1] == members[i].name;
    }
  }

  lemma AccountedIsNamed(name: string, prefix: string, rows: seq<Row>, members: seq<Member>, k: nat, j: nat)
    requires RowsSound(rows) && RowsServed(members, prefix, rows) && k < |members| && members[k].name == name
    requires j < |AccountedNames(name, prefix, rows)|
    ensures AccountedNames(name, prefix, rows)[j] in Names(members)
  {
    var names := Names(members);
    if j == 0 {
      assert names[k] == name;
    } else {
      RowHasMember(members, prefix, rows[j - 1]);
      var i :| 0 <= i < |members| && members[i].name == prefix + "/" + rows[j - 1].path;
      assert names[i] == prefix + "/" + rows[j - 1].path;
    }
  }

  lemma RowHasMember(members: seq<Member>, prefix: string, row: Row)
    requires RowServed(members, prefix, row)
    ensures OneMemberMatches(members, prefix, row)
  {
    LookupMeaning(members, prefix + "/" + row.path);
    var i :| 0 <= i < |members| && members[i] == Lookup(members, prefix + "/" + row.path).value;
    assert members[i].name == prefix + "/" + row.path && Matches(members[i], row);
  }

  ghost predicate OneMemberMatches(members: seq<Member>, prefix: string, row: Row) {
    row.Row? && exists i :: 0 <= i < |members| && members[i].name == prefix + "/" + row.path && Matches(members[i], row)
  }

  lemma AccountedNamesDistinct(prefix: string, first: string, rows: seq<Row>)
    requires RowsSound(rows) && first !in Expected(rows)
    ensures NoRepeats(AccountedNames(prefix + "/" + first, prefix, rows))
  {
    var names := AccountedNames(prefix + "/" + first, prefix, rows);
    ExpectedKeys(rows, first);
    forall i, j | 0 <= i < j < |names| ensures names[i] != names[j] {
      JoinInjective(prefix, if i == 0 then first else rows[i - 1].path, rows[j - 1].path);
    }
  }
}
