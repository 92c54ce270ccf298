/** Extraction of a source archive through a staging directory, and the identity
    check of the extracted tree (scripts/extract_source_package.py,
    scripts/verify_source_package_identity.py). */
module SourceExtraction {
  import opened Base
  import opened PortablePaths
  import opened SourcePackage
  import opened SourceRelease

  datatype IdentityProblem =
    | DotGitPresent
    | ManifestMissing
    | ManifestUnreadable
    | SchemaUnsupported
    | RoleInvalid
    | RowInvalid(index: nat)
    | DuplicatePath(path: string)
    | CountMismatch
    | SetMismatch
    | FileMissing(path: string)
    | FileMismatch(path: string)
    | ModeMismatch(path: string)
    | UnexpectedFile(path: string)
    | CommitInvalid

  // ---- identity ----

  /** The file that root / rel names. */
  function NormalPath(rel: string): string {
    Join(Parts(rel))
  }

  /** _safe_rel */
  predicate SafeRel(value: string) {
    value != "" && '\\' !in value && '\0' !in value && value[0] != '/' && ".." !in Parts(value)
  }

  predicate IdentityRow(row: Row) {
    row.Row? && SafeRel(row.path) && row.sha.Some? && row.size.Some? && row.executable.Some?
  }

  ghost predicate IdentityRows(rows: seq<Row>, n: nat)
    requires n <= |rows|
  {
    n > 0 ==> IdentityRows(rows, n - 1) && IdentityRow(rows[n - 1]) && FreshPath(rows, n - 1, rows[n - 1].path)
  }

  ghost predicate FreshPath(rows: seq<Row>, n: nat, path: string)
    requires n <= |rows|
  {
    forall i :: 0 <= i < n && rows[i].Row? ==> rows[i].path != path
  }

  predicate FileAgrees(files: Files, row: Row) {
    && row.Row? && NormalPath(row.path) in files
    && var file := files[NormalPath(row.path)];
       row.size == Some(|file.data|) && row.sha == Some(Sha256(file.data)) && row.executable == Some(file.mode.ownerX)
  }

  ghost predicate FilesAgree(files: Files, rows: seq<Row>) {
    forall i :: 0 <= i < |rows| ==> FileAgrees(files, rows[i])
  }

  predicate Inventoried(path: string) {
    !AnyPartIn(path, IGNORED_DIRS) && LastPart(path) != MANIFEST_NAME
  }

  ghost predicate Inventory(files: Files, rows: seq<Row>) {
    forall p {:trigger Inventoried(p)} :: p in files && Inventoried(p) ==> p in Expected(rows)
  }

  predicate Hex(s: string) {
    |s| == 40 && forall i :: 0 <= i < |s| ==> '0' <= s[i] <= '9' || 'a' <= s[i] <= 'f'
  }

  predicate CommitAcceptable(commit: Option<string>) {
    commit.Some? ==> Hex(commit.value)
  }

  ghost predicate NoDotGit(files: Files) {
    forall p {:trigger Split(p, '/')} :: p in files ==> Split(p, '/')[0] != ".git"
  }

  ghost predicate Agrees(manifest: Manifest, files: Files) {
    var rows := manifest.files;
    && manifest.schemaSupported && manifest.roleIsSource && CommitAcceptable(manifest.commit)
    && IdentityRows(rows, |rows|)
    && manifest.fileCount == |rows| && manifest.contentSet == ContentSetOf(rows)
    && FilesAgree(files, rows) && Inventory(files, rows)
  }

  /** The tree's own manifest agrees with all files of the tree. */
  ghost predicate Identified(codec: Codec, files: Files) {
    && NoDotGit(files) && MANIFEST_NAME in files
    && codec.parse(files[MANIFEST_NAME].data).Some?
    && Agrees(codec.parse(files[MANIFEST_NAME].data).value, files)
  }

  /** The entries: the rows that are in order, the first for each path. */
  method CheckEntries(rows: seq<Row>) returns (problems: seq<IdentityProblem>, entries: map<string, Row>)
    ensures problems == [] <==> IdentityRows(rows, |rows|)
    ensures problems == [] ==> entries == Expected(rows)
  {
    problems, entries := [], map[];
    for i := 0 to |rows|
      invariant problems == [] <==> IdentityRows(rows, i)
      invariant problems == [] ==> entries == Expected(rows[..i])
    {
      var row := rows[i];
      assert rows[..i + 1][..i] == rows[..i];
      if row.Row? {
        ExpectedKeys(rows[..i], row.path);
        FreshPathIff(rows, i, row.path);
      }
      if !row.Row? || !SafeRel(row.path) || row.sha.None? || row.size.None? || row.executable.None? {
        problems := problems + [RowInvalid(i)];
      } else if row.path in entries {
        problems := problems + [DuplicatePath(row.path)];
      } else {
        entries := entries[row.path := row];
      }
    }
    assert rows[..|rows|] == rows;
  }

  lemma FreshPathIff(rows: seq<Row>, n: nat, path: string)
    requires n <= |rows|
    ensures FreshPath(rows, n, path) <==> path !in Expected(rows[..n])
  {
    ExpectedKeys(rows[..n], path);
    if i :| 0 <= i < n && rows[i].Row? && rows[i].path == path {
      assert rows[..n][i].Row? && rows[..n][i].path == path;
    }
  }

  /** The files that the entries name. */
  method CheckFiles(rows: seq<Row>, files: Files) returns (problems: seq<IdentityProblem>)
    ensures problems == [] <==> FilesAgree(files, rows)
  {
    problems := [];
    for i := 0 to |rows|
      invariant problems == [] <==> forall j :: 0 <= j < i ==> FileAgrees(files, rows[j])
    {
      var row := rows[i];
      if row.Junk? {
        problems := problems + [RowInvalid(i)];
      } else if NormalPath(row.path) !in files {
        problems := problems + [FileMissing(row.path)];
      } else {
        var file := files[NormalPath(row.path)];
        if row.size != Some(|file.data|) || row.sha != Some(Sha256(file.data)) {
          problems := problems + [FileMismatch(row.path)];
        }
        if row.executable != Some(file.mode.ownerX) {
          problems := problems + [ModeMismatch(row.path)];
        }
      }
    }
  }

  /** _inventory_files against the entries. */
  method CheckInventory(files: Files, listing: seq<string>, rows: seq<Row>) returns (problems: seq<IdentityProblem>)
    requires Elements(listing) == files.Keys
    ensures problems == [] <==> Inventory(files, rows)
  {
    problems := [];
    var expected := Expected(rows);
    for i := 0 to |listing|
      invariant problems == [] <==> forall j :: 0 <= j < i && Inventoried(listing[j]) ==> listing[j] in expected
    {
      if Inventoried(listing[i]) && listing[i] !in expected {
        problems := problems + [UnexpectedFile(listing[i])];
      }
    }
    if Inventory(files, rows) {
      forall j | 0 <= j < |listing| && Inventoried(listing[j]) ensures listing[j] in expected {
        assert listing[j] in Elements(listing);
      }
    }
    forall p | p in files ensures exists j :: 0 <= j < |listing| && listing[j] == p {
      assert p in Elements(listing);
    }
  }

  /** The manifest against the tree. */
  method CheckIdentity(manifest: Manifest, files: Files, listing: seq<string>) returns (problems: seq<IdentityProblem>)
    requires Elements(listing) == files.Keys
    ensures problems == [] <==> Agrees(manifest, files)
  {
    var rows := manifest.files;
    problems := if manifest.schemaSupported then [] else [SchemaUnsupported];
    if !manifest.roleIsSource {
      problems := problems + [RoleInvalid];
    }
    var invalid, entries := CheckEntries(rows);
    problems := problems + invalid;
    if manifest.fileCount != |rows| {
      problems := problems + [CountMismatch];
    }
    if manifest.contentSet != (if entries == map[] then None else Some(entries)) {
      problems := problems + [SetMismatch];
    }
    var wrong := CheckFiles(rows, files);
    var unexpected := CheckInventory(files, listing, rows);
    problems := problems + wrong + unexpected;
    if !CommitAcceptable(manifest.commit) {
      problems := problems + [CommitInvalid];
    }
  }

  /** verify_source_package_identity: verified exactly when the manifest in the
      tree agrees with the whole tree. */
  method VerifyIdentity(codec: Codec, files: Files, listing: seq<string>) returns (problems: seq<IdentityProblem>)
    requires Elements(listing) == files.Keys
    ensures problems == [] <==> Identified(codec, files)
  {
    problems := if forall p :: p in files ==> Split(p, '/')[0] != ".git" then [] else [DotGitPresent];
    if MANIFEST_NAME !in files {
      return [ManifestMissing];
    }
    var manifest := codec.parse(files[MANIFEST_NAME].data);
    if manifest.None? {
      return [ManifestUnreadable];
    }
    var found := CheckIdentity(manifest.value, files, listing);
    problems := problems + found;
  }

  // ---- extraction ----

  /** What a directory holds: its files, and the directories that were made for
      directory members. */
  datatype Content = Content(files: Files, directories: set<string>)

  const EMPTY: Content := Content(map[], {})

  datatype DestinationState = Absent | NotADirectory | Holding(content: Content)

  /** The destination and the staging directory beside it. Each method is one
      step of the file system. */
  class Destination {
    const fate: nat -> Fate
    var clock: nat
    var state: DestinationState
    var staging: Option<Content>

    constructor (state: DestinationState, fate: nat -> Fate)
      ensures this.state == state && this.fate == fate && clock == 0 && staging == None
    {
      this.state, this.fate, clock, staging := state, fate, 0, None;
    }

    method Tick() returns (f: Fate)
      modifies this`clock
      ensures f == fate(old(clock)) && clock == old(clock) + 1
    {
      f := fate(clock);
      clock := clock + 1;
    }

    /** mkdtemp */
    method MakeStaging() returns (o: Outcome<Error>)
      modifies this`clock, this`staging
      ensures o == Verdict(fate(old(clock)), OsError) && clock == old(clock) + 1
      ensures staging == if o.Done? then Some(EMPTY) else old(staging)
    {
      var f := Tick();
      if f == Works {
        staging := Some(EMPTY);
      }
      o := Verdict(f, OsError);
    }

    /** One member is written to the staging directory; half-way, if it fails. */
    method PutMember(e: Entry) returns (o: Outcome<Error>)
      requires staging.Some?
      modifies this`clock, this`staging
      ensures clock == old(clock) + 1 && staging.Some?
      ensures var placed := Placed(old(staging).value, e);
              && o == (if fate(old(clock)) == Works && placed.Err? then Raised(placed.error) else Verdict(fate(old(clock)), OsError))
              && (o.Done? ==> staging == Some(placed.value))
    {
      var f := Tick();
      var placed := Placed(staging.value, e);
      if f == Works && placed.Ok? {
        staging := Some(placed.value);
      } else {
        var part: Content := *;
        staging := Some(part);
      }
      o := if f == Works && placed.Err? then Raised(placed.error) else Verdict(f, OsError);
    }

    /** rmdir of the empty destination. */
    method RemoveDestination() returns (o: Outcome<Error>)
      modifies this`clock, this`state
      ensures clock == old(clock) + 1
      ensures o == if fate(old(clock)) == Works && old(state) != Holding(EMPTY) then Raised(OsError)
                   else Verdict(fate(old(clock)), OsError)
      ensures state == if o.Done? then Absent else old(state)
    {
      var f := Tick();
      o := if f == Works && state != Holding(EMPTY) then Raised(OsError) else Verdict(f, OsError);
      if o.Done? {
        state := Absent;
      }
    }

    /** os.replace of the staging directory; the destination may be absent or empty. */
    method MoveHome() returns (o: Outcome<Error>)
      requires staging.Some?
      modifies this`clock, this`state, this`staging
      ensures clock == old(clock) + 1
      ensures o == if fate(old(clock)) == Works && !Usable(old(state)) then Raised(OsError) else Verdict(fate(old(clock)), OsError)
      ensures if o.Done? then state == Holding(old(staging).value) && staging == None
              else state == old(state) && staging == old(staging)
    {
      var f := Tick();
      o := if f == Works && !Usable(state) then Raised(OsError) else Verdict(f, OsError);
      if o.Done? {
        state, staging := Holding(staging.value), None;
      }
    }

    /** rmtree with ignored errors. */
    method DropStaging() returns (o: Outcome<Error>)
      modifies this`clock, this`staging
      ensures o == (if fate(old(clock)) == Dies then Crashed else Done) && clock == old(clock) + 1
      ensures fate(old(clock)) == Works ==> staging == None
    {
      var f := Tick();
      if f == Works {
        staging := None;
      } else if staging.Some? {
        var left: Content := *;
        staging := Some(left);
      }
      o := if f == Dies then Crashed else Done;
    }

    /** mkdir of a destination that is no longer there. */
    method RecreateDestination() returns (o: Outcome<Error>)
      requires state == Absent
      modifies this`clock, this`state
      ensures o == Verdict(fate(old(clock)), OsError) && clock == old(clock) + 1
      ensures state == if o.Done? then Holding(EMPTY) else Absent
    {
      var f := Tick();
      if f == Works {
        state := Holding(EMPTY);
      }
      o := Verdict(f, OsError);
    }
  }

  /** chmod only when there are permission bits; else the process default. */
  function EffectiveMode(mode: Mode): Mode {
    if mode == Mode(false, false, false, 0) then ArchiveMode(false) else mode
  }

  function FileOf(m: Member): File {
    File(m.data, EffectiveMode(m.mode))
  }

  /** The files of the first n members under their own names. */
  function FilesOf(members: seq<Member>, n: nat): Files
    requires n <= |members|
  {
    if n == 0 then map[] else FilesOf(members, n - 1)[members[n - 1].name := FileOf(members[n - 1])]
  }

  /** A file can be made there: no file stands where a directory is needed, and
      no directory where the file is. */
  predicate Writable(c: Content, target: string) {
    && target != ""
    && (forall p :: p in c.files ==> !Below(target, p) && !Below(p, target))
    && (forall d :: d in c.directories ==> d != target && !Below(d, target))
  }

  /** A member as the extraction loop sees it: where it goes, None if that is
      refused, and what is written there. */
  datatype Entry = Entry(name: string, directory: bool, target: Option<string>, file: File)

  function EntryOf(m: Member): Entry {
    Entry(m.name, IsDir(m.name), SafeTarget(m.name), FileOf(m))
  }

  function Entries(members: seq<Member>): (entries: seq<Entry>)
    ensures |entries| == |members| && forall i :: 0 <= i < |members| ==> entries[i] == EntryOf(members[i])
  {
    seq(|members|, i requires 0 <= i < |members| => EntryOf(members[i]))
  }

  /** One round of the extraction loop. */
  function Placed(c: Content, e: Entry): Result<Content, Error> {
    if e.target.None? then Err(UnsafeMember(e.name))
    else
      var target := e.target.value;
      if e.directory then
        if exists p :: p in c.files && (p == target || Below(target, p)) then Err(CannotWrite(target))
        else Ok(Content(c.files, c.directories + {target}))
      else if !Writable(c, target) then Err(CannotWrite(target))
      else Ok(Content(c.files[target := e.file], c.directories))
  }

  // ---- when the members fit together ----

  /** The member has a place, whatever else there is. */
  predicate Placeable(e: Entry) {
    e.target.Some? && (e.directory || e.target.value != "")
  }

  /** The file stands in the way of the other member: it is above it, or is where
      that has its directory. */
  predicate Blocks(file: Entry, other: Entry)
    requires file.target.Some? && other.target.Some?
  {
    && !file.directory
    && (Below(other.target.value, file.target.value) || (other.directory && other.target == file.target))
  }

  /** Each has a place and no two are in each other's way. */
  ghost predicate FitTogether(entries: seq<Entry>) {
    && (forall i :: 0 <= i < |entries| ==> Placeable(entries[i]))
    && (forall i, j :: 0 <= i < |entries| && 0 <= j < |entries| ==> !Blocks(entries[i], entries[j]))
  }

  /** What they make. */
  function Written(entries: seq<Entry>): Content {
    if entries == [] then EMPTY
    else
      var c, e := Written(entries[..|entries| - 1]), entries[|entries| - 1];
      if e.target.None? then c
      else if e.directory then Content(c.files, c.directories + {e.target.value})
      else Content(c.files[e.target.value := e.file], c.directories)
  }

  ghost predicate Makes(entries: seq<Entry>, directory: bool, path: string) {
    exists i :: 0 <= i < |entries| && entries[i].directory == directory && entries[i].target == Some(path)
  }

  lemma MakesNext(entries: seq<Entry>, e: Entry, directory: bool, path: string)
    ensures Makes(entries + [e], directory, path) <==>
              Makes(entries, directory, path) || (e.directory == directory && e.target == Some(path))
  {
    var all := entries + [e];
    if i :| 0 <= i < |entries| && entries[i].directory == directory && entries[i].target == Some(path) {
      assert all[i] == entries[i];
    }
    assert all[|entries|] == e;
  }

  lemma {:induction false} WrittenKeys(entries: seq<Entry>, path: string)
    ensures path in Written(entries).files <==> Makes(entries, false, path)
    ensures path in Written(entries).directories <==> Makes(entries, true, path)
  {
    if entries != [] {
      var before, e := entries[..|entries| - 1], entries[|entries| - 1];
      WrittenKeys(before, path);
      MakesNext(before, e, false, path);
      MakesNext(before, e, true, path);
      assert entries == before + [e];
    }
  }

  /** The next member is placed exactly if it still fits. */
  lemma NextFits(entries: seq<Entry>, e: Entry)
    requires FitTogether(entries)
    ensures Placed(Written(entries), e).Ok? <==> FitTogether(entries + [e])
    ensures FitTogether(entries + [e]) ==> Placed(Written(entries), e) == Ok(Written(entries + [e]))
  {
    var c, all := Written(entries), entries + [e];
    assert all[..|entries|] == entries && all[|entries|] == e;
    FitsNext(entries, e);
    if Placeable(e) {
      PlacedIfFree(entries, e);
    }
  }

  lemma PlacedIfFree(entries: seq<Entry>, e: Entry)
    requires FitTogether(entries) && Placeable(e)
    ensures Placed(Written(entries), e).Ok? <==> NoneBlocks(entries, e)
  {
    var c, target := Written(entries), e.target.value;
    if NoneBlocks(entries, e) {
      forall p | p in c.files ensures !Below(target, p) && (if e.directory then p != target else !Below(p, target)) {
        WrittenKeys(entries, p);
        var i :| 0 <= i < |entries| && !entries[i].directory && entries[i].target == Some(p);
        assert !Blocks(entries[i], e) && !Blocks(e, entries[i]);
      }
      forall d | d in c.directories && !e.directory ensures d != target && !Below(d, target) {
        WrittenKeys(entries, d);
        var i :| 0 <= i < |entries| && entries[i].directory && entries[i].target == Some(d);
        assert !Blocks(e, entries[i]);
      }
    }
    if Placed(c, e).Ok? {
      forall i | 0 <= i < |entries| ensures !Blocks(entries[i], e) && !Blocks(e, entries[i]) {
        var path := entries[i].target.value;
        WrittenKeys(entries, path);
        assert Makes(entries, entries[i].directory, path);
      }
    }
  }

  ghost predicate NoneBlocks(entries: seq<Entry>, e: Entry)
    requires e.target.Some? && forall i :: 0 <= i < |entries| ==> entries[i].target.Some?
  {
    forall i :: 0 <= i < |entries| ==> !Blocks(entries[i], e) && !Blocks(e, entries[i])
  }

  lemma FitsNext(entries: seq<Entry>, e: Entry)
    requires FitTogether(entries)
    ensures FitTogether(entries + [e]) <==> Placeable(e) && NoneBlocks(entries, e)
  {
    var all := entries + [e];
    assert all[|entries|] == e && forall i :: 0 <= i < |entries| ==> all[i] == entries[i];
    if Placeable(e) {
      assert !Blocks(e, e);
    }
  }

  /** Names of files none of which lies below another. */
  ghost predicate FileNames(members: seq<Member>) {
    && (forall i :: 0 <= i < |members| ==>
          members[i].name != "" && !IsDir(members[i].name) && SafeTarget(members[i].name) == Some(members[i].name))
    && (forall i, j :: 0 <= i < |members| && 0 <= j < |members| ==> !Below(members[i].name, members[j].name))
  }

  lemma {:induction false} FilesOfKeys(members: seq<Member>, n: nat, name: string)
    requires n <= |members|
    ensures name in FilesOf(members, n) <==> exists i :: 0 <= i < n && members[i].name == name
  {
    if n > 0 {
      FilesOfKeys(members, n - 1, name);
    }
  }

  /** Names of files in no other's way are written under these names. */
  lemma FileNamesFit(members: seq<Member>)
    requires FileNames(members)
    ensures FitTogether(Entries(members)) && Written(Entries(members)) == Content(FilesOf(members, |members|), {})
  {
    var entries := Entries(members);
    forall i | 0 <= i < |members| ensures PlainEntry(entries[i]) && entries[i].name == members[i].name {
      assert entries[i] == EntryOf(members[i]);
    }
    PlainFit(entries);
    FilesWritten(members, entries, |members|);
    assert entries[..|members|] == entries;
  }

  ghost predicate PlainEntry(e: Entry) {
    !e.directory && e.name != "" && e.target == Some(e.name)
  }

  lemma PlainFit(entries: seq<Entry>)
    requires forall i :: 0 <= i < |entries| ==> PlainEntry(entries[i])
    requires forall i, j :: 0 <= i < |entries| && 0 <= j < |entries| ==> !Below(entries[i].name, entries[j].name)
    ensures FitTogether(entries)
  {
  }

  lemma {:induction false} FilesWritten(members: seq<Member>, entries: seq<Entry>, n: nat)
    requires |entries| == |members| && n <= |members|
    requires forall i :: 0 <= i < |entries| ==>
               PlainEntry(entries[i]) && entries[i].name == members[i].name && entries[i].file == FileOf(members[i])
    ensures Written(entries[..n]) == Content(FilesOf(members, n), {})
  {
    if n > 0 {
      FilesWritten(members, entries, n - 1);
      assert entries[..n][..n - 1] == entries[..n - 1];
    }
  }

  /** The extraction loop, into an empty staging directory: without system errors
      it succeeds exactly if the members fit together. */
  method WriteMembers(d: Destination, entries: seq<Entry>) returns (o: Outcome<Error>)
    requires d.staging == Some(EMPTY)
    modifies d`clock, d`staging
    ensures d.staging.Some? && d.clock >= old(d.clock)
    ensures o.Done? ==> FitTogether(entries) && d.staging == Some(Written(entries)) && d.clock == old(d.clock) + |entries|
    ensures o.Done? <==> FitTogether(entries) && WorksUntil(d.fate, old(d.clock), old(d.clock) + |entries|)
    ensures WorksUntil(d.fate, old(d.clock), old(d.clock) + |entries|) ==> !o.Crashed?
  {
    for i := 0 to |entries|
      invariant FitTogether(entries[..i]) && d.staging == Some(Written(entries[..i])) && d.clock == old(d.clock) + i
      invariant WorksUntil(d.fate, old(d.clock), d.clock)
    {
      NextFits(entries[..i], entries[i]);
      assert entries[..i] + [entries[i]] == entries[..i + 1];
      o := d.PutMember(entries[i]);
      if !o.Done? {
        if FitTogether(entries) {
          PrefixFits(entries, i + 1);
        }
        return;
      }
    }
    assert entries[..|entries|] == entries;
    o := Done;
  }

  lemma PrefixFits(entries: seq<Entry>, n: nat)
    requires FitTogether(entries) && n <= |entries|
    ensures FitTogether(entries[..n])
  {
    forall i, j | 0 <= i < n && 0 <= j < n ensures !Blocks(entries[..n][i], entries[..n][j]) {
      assert !Blocks(entries[i], entries[j]);
    }
  }

  /** The files below a directory, with their paths from there. */
  function Under(files: Files, directory: string): Files {
    var below := set p | p in files && Below(p, directory) :: p[|directory| + 1..];
    map q | q in below && directory + "/" + q in files :: files[directory + "/" + q]
  }

  lemma UnderMeaning(files: Files, directory: string, q: string)
    ensures q in Under(files, directory) <==> directory + "/" + q in files
    ensures q in Under(files, directory) ==> Under(files, directory)[q] == files[directory + "/" + q]
  {
    var p := directory + "/" + q;
    assert Below(p, directory) && p[|directory| + 1..] == q;
  }

  ghost predicate HasManifest(members: seq<Member>) {
    exists i :: 0 <= i < |members| && IsManifestName(members[i].name)
  }

  /** The directory of some manifest member is identified by it. */
  ghost predicate IdentifiedBelow(codec: Codec, members: seq<Member>, files: Files) {
    exists k: nat :: k < |members| && IsManifestName(members[k].name)
                     && Identified(codec, Under(files, PrefixOf(members[k].name)))
  }

  /** rglob on the extracted tree. */
  method ListFiles(files: Files) returns (listing: seq<string>)
    ensures Elements(listing) == files.Keys
  {
    listing := [];
    var left := files.Keys;
    while left != {}
      invariant left <= files.Keys && Elements(listing) == files.Keys - left
      decreases left
    {
      var p :| p in left;
      assert Elements(listing + [p]) == Elements(listing) + {p};
      listing, left := listing + [p], left - {p};
    }
  }

  predicate Usable(state: DestinationState) {
    state == Absent || state == Holding(EMPTY)
  }

  method CheckDestination(state: DestinationState) returns (error: Option<Error>)
    ensures error.None? <==> Usable(state)
  {
    if state.NotADirectory? {
      return Some(DestinationNotDirectory);
    }
    if state.Holding? && state.content != EMPTY {
      return Some(DestinationNotEmpty);
    }
    error := None;
  }

  ghost predicate AtMostOneManifest(members: seq<Member>) {
    forall i, j :: 0 <= i < j < |members| ==> !(IsManifestName(members[i].name) && IsManifestName(members[j].name))
  }

  /** The one member named like a manifest, if there is one; several are an error. */
  method FindManifest(members: seq<Member>) returns (r: Result<Option<nat>, Error>)
    ensures r.Ok? <==> AtMostOneManifest(members)
    ensures r.Ok? ==> (r.value.Some? <==> HasManifest(members))
    ensures r.Ok? && r.value.Some? ==> r.value.value < |members| && IsManifestName(members[r.value.value].name)
  {
    var candidates := ManifestCandidates(members);
    if |candidates| > 1 {
      assert candidates[0] in candidates && candidates[1] in candidates;
      return Err(MultipleManifests);
    }
    assert forall i :: 0 <= i < |members| ==> IsManifestName(members[i].name) ==> i in candidates;
    if |candidates| == 0 {
      return Ok(None);
    }
    assert candidates[0] in candidates;
    return Ok(Some(candidates[0]));
  }

  /** What the package must be before anything is written. */
  ghost predicate Acceptable(codec: Codec, fold: string -> string, members: seq<Member>, verify: bool) {
    SafeZip(fold, members) && AtMostOneManifest(members) && (verify && HasManifest(members) ==> Clean(codec, fold, members))
  }

  /** The checks of the package before anything is written. */
  method CheckPackage(codec: Codec, fold: string -> string, members: seq<Member>, verify: bool)
    returns (r: Result<Option<nat>, Error>)
    ensures r.Ok? <==> Acceptable(codec, fold, members, verify)
    ensures r.Ok? ==>
              && (r.value.Some? <==> HasManifest(members))
              && (r.value.Some? ==> r.value.value < |members| && IsManifestName(members[r.value.value].name))
  {
    var problems := ScanZipSafety(fold, members);
    if problems != [] {
      return Err(UnsafePackage);
    }
    r := FindManifest(members);
    if r.Ok? && r.value.Some? && verify {
      var report := VerifyArchive(codec, fold, members);
      if report != Report([], []) {
        return Err(IntegrityFailed(report));
      }
    }
  }

  /** What an archive needs to be extracted. */
  ghost predicate Extracts(codec: Codec, fold: string -> string, members: seq<Member>, verify: bool) {
    && Acceptable(codec, fold, members, verify)
    && FitTogether(Entries(members))
    && (verify && HasManifest(members) ==> IdentifiedBelow(codec, members, Written(Entries(members)).files))
  }

  /** The identity check of the staged tree below a directory. */
  method CheckStaged(codec: Codec, files: Files, directory: Option<string>) returns (o: Outcome<Error>)
    ensures o == if IdentifiedAt(codec, files, directory) then Done else Raised(IdentityFailed)
  {
    o := Done;
    if directory.Some? {
      var root := Under(files, directory.value);
      var listing := ListFiles(root);
      var problems := VerifyIdentity(codec, root, listing);
      if problems != [] {
        o := Raised(IdentityFailed);
      }
    }
  }

  ghost predicate IdentifiedAt(codec: Codec, files: Files, directory: Option<string>) {
    directory.Some? ==> Identified(codec, Under(files, directory.value))
  }

  /** The destination gives way to the staging directory. */
  method ReplaceDestination(d: Destination) returns (o: Outcome<Error>)
    requires d.staging.Some? && Usable(d.state)
    modifies d`clock, d`state, d`staging
    ensures o.Done? ==> d.state == Holding(old(d.staging).value) && d.staging == None
    ensures !o.Done? ==> d.state == old(d.state) || d.state == Absent
    ensures d.clock >= old(d.clock)
    ensures var c, fate := old(d.clock), d.fate;
            if old(d.state) == Absent then o == Verdict(fate(c), OsError) && (!o.Done? ==> d.staging == old(d.staging))
            else if fate(c) == Works then
              && o == Verdict(fate(c + 1), OsError) && d.clock == c + 2
              && (!o.Done? ==> d.state == Absent && d.staging == old(d.staging))
            else o == Verdict(fate(c), OsError) && d.state == old(d.state)
  {
    o := Done;
    if d.state != Absent {
      o := d.RemoveDestination();
    }
    if o.Done? {
      o := d.MoveHome();
    }
  }

  /** The except block: the staging directory goes, and a destination that was
      there before is made again. */
  method CleanUp(d: Destination, preexisted: bool, raised: Outcome<Error>) returns (o: Outcome<Error>)
    requires raised.Raised?
    modifies d`clock, d`state, d`staging
    ensures !o.Done? && d.clock >= old(d.clock)
    ensures d.state == old(d.state) || (preexisted && old(d.state) == Absent && d.state == Holding(EMPTY))
    ensures preexisted && old(d.state) == Absent ==>
              (d.state == Absent <==> d.fate(old(d.clock)) == Dies || d.fate(old(d.clock) + 1) != Works)
    ensures preexisted && d.state == Absent ==> o.Crashed? || o == Raised(OsError)
    ensures AllWork(d.fate, old(d.clock)) ==> o == raised && d.staging == None && (preexisted ==> d.state != Absent)
  {
    o := d.DropStaging();
    if o.Done? && preexisted && d.state == Absent {
      o := d.RecreateDestination();
    }
    if o.Done? {
      o := raised;
    }
  }

  /** The destination is as before; only an empty directory may be missing. */
  ghost predicate Untouched(before: DestinationState, after: DestinationState) {
    after == before || (before == Holding(EMPTY) && after == Absent)
  }

  /** The destination's rmdir, at step c, is not followed by the rename, and not
      made up for: the rename is killed, or raises and the cleanup is killed or
      cannot make the directory again. */
  ghost predicate LosesDestination(fate: nat -> Fate, c: nat) {
    && fate(c) == Works
    && (fate(c + 1) == Dies || (fate(c + 1) == Raises && (fate(c + 2) == Dies || fate(c + 3) != Works)))
  }

  /** The steps from the rmdir, if there is a directory, to the rename. */
  function ReplaceSteps(state: DestinationState): nat {
    if state == Absent then 1 else 2
  }

  /** Every step works: the mkdtemp, one for each member, and the replacement. */
  ghost predicate AllSteps(fate: nat -> Fate, c: nat, members: nat, state: DestinationState) {
    WorksUntil(fate, c, c + 1 + members + ReplaceSteps(state))
  }

  /** The staging works, and the replacement loses the destination. */
  ghost predicate LostAtEnd(fate: nat -> Fate, c: nat, members: nat) {
    WorksUntil(fate, c, c + 1 + members) && LosesDestination(fate, c + 1 + members)
  }

  /** extract, exactly. It succeeds if and only if an absent or empty destination is
      given, the archive extracts, and all steps work; then the destination holds
      what the members make. Otherwise the destination is as before, except that an
      empty directory is missing if and only if the archive extracts, all steps work
      up to the rmdir, and that is not made up for. */
  method Extract(codec: Codec, fold: string -> string, members: seq<Member>, verify: bool, d: Destination)
    returns (o: Outcome<Error>)
    modifies d`clock, d`state, d`staging
    ensures o.Done? ==>
              && Usable(old(d.state)) && Extracts(codec, fold, members, verify)
              && d.state == Holding(Written(Entries(members))) && d.staging == None
    ensures !o.Done? ==> Untouched(old(d.state), d.state)
    ensures o.Raised? && o.error != OsError ==> d.state == old(d.state)
    ensures d.clock >= old(d.clock) && (AllWork(d.fate, old(d.clock)) ==> !o.Crashed?)
    ensures var extracts := Extracts(codec, fold, members, verify);
            && (o.Done? <==> extracts && Usable(old(d.state)) && AllSteps(d.fate, old(d.clock), |members|, old(d.state)))
            && (!o.Done? ==>
                  (d.state != old(d.state) <==>
                   extracts && old(d.state) == Holding(EMPTY) && LostAtEnd(d.fate, old(d.clock), |members|)))
            && (extracts && old(d.state) == Holding(EMPTY) && KilledBeforeMove(d.fate, old(d.clock), |members|) ==>
                  o.Crashed? && d.staging == Some(Written(Entries(members))))
  {
    var directory;
    ghost var identified, extracts;
    directory, identified, extracts := Prepare(codec, fold, members, verify);
    o := ExtractChecked(codec, Entries(members), |members|, directory, d, identified, extracts);
  }

  /** The checks of the package; the directory whose identity is to be checked. */
  method Prepare(codec: Codec, fold: string -> string, members: seq<Member>, verify: bool)
    returns (directory: Result<Option<string>, Error>, ghost identified: Files -> bool, ghost extracts: bool)
    ensures extracts == Extracts(codec, fold, members, verify)
    ensures if directory.Ok? then Decides(identified, codec, directory.value) && (extracts <==> StagedWell(identified, Entries(members)))
            else !extracts
  {
    extracts, identified := Extracts(codec, fold, members, verify), (_ => false);
    var checked := CheckPackage(codec, fold, members, verify);
    if checked.Err? {
      directory := Err(checked.error);
      return;
    }
    var named := if verify && checked.value.Some? then Some(PrefixOf(members[checked.value.value].name)) else None;
    OneManifestDecides(codec, members, verify, checked.value, Written(Entries(members)).files);
    identified := files => IdentifiedAt(codec, files, named);
    directory := Ok(named);
  }

  /** With at most one manifest, the identity below its directory is the one asked for. */
  lemma OneManifestDecides(codec: Codec, members: seq<Member>, verify: bool, manifest: Option<nat>, files: Files)
    requires AtMostOneManifest(members) && (manifest.Some? <==> HasManifest(members))
    requires manifest.Some? ==> manifest.value < |members| && IsManifestName(members[manifest.value].name)
    ensures var directory := if verify && manifest.Some? then Some(PrefixOf(members[manifest.value].name)) else None;
            (verify && HasManifest(members) ==> IdentifiedBelow(codec, members, files)) <==> IdentifiedAt(codec, files, directory)
  {
  }

  /** The destination's check and what follows it, for a package with the given
      verdict; `extracts` says whether all is well with it. */
  method ExtractChecked(
    codec: Codec, entries: seq<Entry>, ghost count: nat, directory: Result<Option<string>, Error>, d: Destination,
    ghost identified: Files -> bool, ghost extracts: bool)
    returns (o: Outcome<Error>)
    requires count == |entries|
    requires directory.Ok? ==> Decides(identified, codec, directory.value)
    requires extracts <==> directory.Ok? && StagedWell(identified, entries)
    modifies d`clock, d`state, d`staging
    ensures o.Done? ==> d.state == Holding(Written(entries)) && d.staging == None
    ensures !o.Done? ==> Untouched(old(d.state), d.state)
    ensures o.Raised? && o.error != OsError ==> d.state == old(d.state)
    ensures d.clock >= old(d.clock) && (AllWork(d.fate, old(d.clock)) ==> !o.Crashed?)
    ensures o.Done? <==> extracts && Usable(old(d.state)) && AllSteps(d.fate, old(d.clock), count, old(d.state))
    ensures !o.Done? ==>
              (d.state != old(d.state) <==> extracts && old(d.state) == Holding(EMPTY) && LostAtEnd(d.fate, old(d.clock), count))
    ensures extracts && old(d.state) == Holding(EMPTY) && KilledBeforeMove(d.fate, old(d.clock), count) ==>
              o.Crashed? && d.staging == Some(Written(entries))
  {
    if directory.Err? {
      return Raised(directory.error);
    }
    var error := CheckDestination(d.state);
    if error.Some? {
      return Raised(error.value);
    }
    o := StageAndReplace(codec, entries, directory.value, d, identified);
  }

  /** Killed between the rmdir and the rename, which follow the mkdtemp and one
      step for each member. */
  ghost predicate KilledBeforeMove(fate: nat -> Fate, c: nat, members: nat) {
    WorksUntil(fate, c, c + 1 + members) && KilledSecond(fate, c + 1 + members)
  }

  ghost predicate KilledSecond(fate: nat -> Fate, c: nat) {
    fate(c) == Works && fate(c + 1) == Dies
  }

  /** What must be so of the members for the staging to succeed. */
  ghost predicate StagedWell(identified: Files -> bool, entries: seq<Entry>) {
    FitTogether(entries) && identified(Written(entries).files)
  }

  /** The outcome of the identity check as a predicate on the staged files. */
  ghost predicate Decides(identified: Files -> bool, codec: Codec, directory: Option<string>) {
    forall files {:trigger IdentifiedAt(codec, files, directory)} :: identified(files) <==> IdentifiedAt(codec, files, directory)
  }

  /** The staging directory: the members, and the identity of the tree in it. */
  method StageMembers(codec: Codec, entries: seq<Entry>, directory: Option<string>, d: Destination, ghost identified: Files -> bool)
    returns (o: Outcome<Error>)
    requires d.staging == Some(EMPTY) && Decides(identified, codec, directory)
    modifies d`clock, d`staging
    ensures d.staging.Some? && d.clock >= old(d.clock)
    ensures o.Done? ==> d.staging == Some(Written(entries)) && d.clock == old(d.clock) + |entries|
    ensures o.Done? <==> StagedWell(identified, entries) && WorksUntil(d.fate, old(d.clock), old(d.clock) + |entries|)
    ensures WorksUntil(d.fate, old(d.clock), old(d.clock) + |entries|) ==> !o.Crashed?
  {
    o := WriteMembers(d, entries);
    if o.Done? {
      o := CheckStaged(codec, d.staging.value.files, directory);
    }
  }

  /** The mkdtemp, the members, and what follows. */
  lemma StepsInOrder(fate: nat -> Fate, c: nat, members: nat, more: nat)
    ensures WorksUntil(fate, c, c + 1 + members) <==> fate(c) == Works && WorksUntil(fate, c + 1, c + 1 + members)
    ensures WorksUntil(fate, c, c + 1 + members + more) <==>
              WorksUntil(fate, c, c + 1 + members) && WorksUntil(fate, c + 1 + members, c + 1 + members + more)
  {
  }

  /** From the staging directory to the destination. */
  method StageAndReplace(codec: Codec, entries: seq<Entry>, directory: Option<string>, d: Destination, ghost identified: Files -> bool)
    returns (o: Outcome<Error>)
    requires Usable(d.state) && Decides(identified, codec, directory)
    modifies d`clock, d`state, d`staging
    ensures o.Done? ==> d.state == Holding(Written(entries)) && d.staging == None
    ensures !o.Done? ==> Untouched(old(d.state), d.state)
    ensures o.Raised? && o.error != OsError ==> d.state == old(d.state)
    ensures d.clock >= old(d.clock) && (AllWork(d.fate, old(d.clock)) ==> !o.Crashed?)
    ensures var well := StagedWell(identified, entries);
            && (o.Done? <==> well && AllSteps(d.fate, old(d.clock), |entries|, old(d.state)))
            && (!o.Done? ==>
                  (d.state != old(d.state) <==>
                   well && old(d.state) == Holding(EMPTY) && LostAtEnd(d.fate, old(d.clock), |entries|)))
            && (well && old(d.state) == Holding(EMPTY) && KilledBeforeMove(d.fate, old(d.clock), |entries|) ==>
                  o.Crashed? && d.staging == Some(Written(entries)))
  {
    StepsInOrder(d.fate, d.clock, |entries|, ReplaceSteps(d.state));
    var preexisted := d.state != Absent;
    o := d.MakeStaging();
    if o.Done? {
      o := StageMembers(codec, entries, directory, d, identified);
      o := Finish(d, preexisted, o);
    }
  }

  /** After the staging: the replacement, and the except block. */
  method Finish(d: Destination, preexisted: bool, staged: Outcome<Error>) returns (o: Outcome<Error>)
    requires d.staging.Some? && Usable(d.state) && preexisted == (d.state != Absent)
    modifies d`clock, d`state, d`staging
    ensures o.Done? ==> staged.Done? && d.state == Holding(old(d.staging).value) && d.staging == None
    ensures !o.Done? ==> Untouched(old(d.state), d.state)
    ensures o.Raised? && o.error != OsError ==> d.state == old(d.state)
    ensures o.Done? <==> staged.Done? && WorksUntil(d.fate, old(d.clock), old(d.clock) + ReplaceSteps(old(d.state)))
    ensures AllWork(d.fate, old(d.clock)) ==> (o.Crashed? <==> staged.Crashed?)
    ensures !o.Done? ==> (d.state != old(d.state) <==> staged.Done? && preexisted && LosesDestination(d.fate, old(d.clock)))
    ensures d.clock >= old(d.clock)
    ensures staged.Done? && preexisted && KilledSecond(d.fate, old(d.clock)) ==> o.Crashed? && d.staging == old(d.staging)
  {
    o := staged;
    if o.Done? {
      o := ReplaceDestination(d);
    }
    if o.Raised? {
      o := CleanUp(d, preexisted, o);
    }
  }

  /** Any number of attempts, each of which may fail or be killed anywhere, leave a
      destination that the next one can use, until one succeeds. */
  method ExtractRepeatedly(
    codec: Codec, fold: string -> string, members: seq<Member>, verify: bool, d: Destination, attempts: nat) returns (done: bool)
    requires Usable(d.state)
    modifies d`clock, d`state, d`staging
    ensures if done then Extracts(codec, fold, members, verify) && d.state == Holding(Written(Entries(members)))
            else Usable(d.state)
  {
    done := false;
    for i := 0 to attempts
      invariant !done && Usable(d.state)
    {
      var o := Extract(codec, fold, members, verify, d);
      if o.Done? {
        return true;
      }
    }
  }

  ghost predicate IdentifiedEverywhere(codec: Codec, members: seq<Member>) {
    forall k: nat :: k < |members| && IsManifestName(members[k].name) ==>
      Identified(codec, Under(FilesOf(members, |members|), PrefixOf(members[k].name)))
  }

  /** A verified archive of plain files, each written under its own name, whose
      extraction is identified. */
  ghost predicate Extractable(codec: Codec, fold: string -> string, members: seq<Member>) {
    Clean(codec, fold, members) && FileNames(members) && IdentifiedEverywhere(codec, members)
  }

  lemma ExtractableExtracts(codec: Codec, fold: string -> string, members: seq<Member>)
    requires Extractable(codec, fold, members)
    ensures Extracts(codec, fold, members, true) && Written(Entries(members)) == Content(FilesOf(members, |members|), {})
  {
    FileNamesFit(members);
    var k: nat :| ManifestAt(codec, members, k);
    assert IdentifiedBelow(codec, members, FilesOf(members, |members|));
  }
}
