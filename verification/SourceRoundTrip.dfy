/** Packing a source tree, verifying the archive and extracting it give the
    packed files back. */
module SourceRoundTrip {
  import opened Base
  import opened PortablePaths
  import opened SourcePackage
  import opened SourceRelease
  import opened SourceExtraction

  /** What is extracted of a packed file: its data, and its executable bit. */
  function Repacked(file: File): File {
    File(file.data, ArchiveMode(file.mode.ownerX))
  }

  /** Exactly the packed files and the manifest, under the given names. */
  ghost predicate Holds(files: Files, tree: Tree, paths: seq<string>, first: string, manifest: string, manifestData: Data)
    requires AllPlain(tree, paths)
  {
    && manifest in files && files[manifest] == File(manifestData, ArchiveMode(false))
    && (forall i :: 0 <= i < |paths| ==>
          first + paths[i] in files && files[first + paths[i]] == Repacked(tree[paths[i]].file))
    && (forall p :: p in files ==> p == manifest || exists i :: 0 <= i < |paths| && p == first + paths[i])
  }

  lemma {:induction false} FilesOfValue(members: seq<Member>, n: nat, i: nat)
    requires i < n <= |members| && forall j :: 0 <= j < n && j != i ==> members[j].name != members[i].name
    ensures members[i].name in FilesOf(members, n) && FilesOf(members, n)[members[i].name] == FileOf(members[i])
    decreases n
  {
    if i < n - 1 {
      FilesOfValue(members, n - 1, i);
    }
  }

  lemma NamesDiffer(tree: Tree, paths: seq<string>, prefix: string, manifestData: Data, deflate: Deflate, i: nat, j: nat)
    requires Packing(tree, paths, prefix) && i <= |paths| && j <= |paths| && i != j
    ensures var members := ArchiveOf(tree, paths, prefix, manifestData, deflate);
            members[i].name != members[j].name
  {
    if i < |paths| && j < |paths| {
      JoinInjective(prefix, paths[i], paths[j]);
    } else {
      OneManifest(tree, paths, prefix, manifestData, deflate, if i < j then i else j);
    }
  }

  /** Extracting every member under its name gives the files under the prefix. */
  lemma ExtractedHolds(tree: Tree, paths: seq<string>, prefix: string, manifestData: Data, deflate: Deflate)
    requires Packing(tree, paths, prefix)
    ensures var members := ArchiveOf(tree, paths, prefix, manifestData, deflate);
            Holds(FilesOf(members, |members|), tree, paths, prefix + "/", prefix + "/" + MANIFEST_NAME, manifestData)
  {
    var members := ArchiveOf(tree, paths, prefix, manifestData, deflate);
    var files := FilesOf(members, |members|);
    forall i | 0 <= i <= |paths| ensures members[i].name in files && files[members[i].name] == FileOf(members[i]) {
      forall j | 0 <= j < |members| && j != i ensures members[j].name != members[i].name {
        NamesDiffer(tree, paths, prefix, manifestData, deflate, i, j);
      }
      FilesOfValue(members, |members|, i);
    }
    assert members[|paths|] == ManifestMember(prefix, manifestData, deflate);
    forall i | 0 <= i < |paths|
      ensures prefix + "/" + paths[i] in files && files[prefix + "/" + paths[i]] == Repacked(tree[paths[i]].file)
    {
      assert members[i] == MemberOf(prefix, paths[i], tree[paths[i]].file, deflate);
    }
    forall p | p in files
      ensures p == prefix + "/" + MANIFEST_NAME || exists i :: 0 <= i < |paths| && p == prefix + "/" + paths[i]
    {
      FilesOfKeys(members, |members|, p);
      var i :| 0 <= i < |members| && members[i].name == p;
      if i < |paths| {
        assert p == prefix + "/" + paths[i];
      }
    }
  }

  /** Seen from the project root the prefix is gone. */
  lemma RootHolds(files: Files, tree: Tree, paths: seq<string>, prefix: string, manifest: string, manifestData: Data)
    requires AllPlain(tree, paths) && Holds(files, tree, paths, prefix + "/", prefix + "/" + manifest, manifestData)
    ensures Holds(Under(files, prefix), tree, paths, "", manifest, manifestData)
  {
    var root := Under(files, prefix);
    UnderMeaning(files, prefix, manifest);
    forall i | 0 <= i < |paths| ensures "" + paths[i] in root && root["" + paths[i]] == Repacked(tree[paths[i]].file) {
      assert "" + paths[i] == paths[i];
      UnderMeaning(files, prefix, paths[i]);
    }
    forall q | q in root ensures q == manifest || exists i :: 0 <= i < |paths| && q == "" + paths[i] {
      UnderMeaning(files, prefix, q);
      if prefix + "/" + q == prefix + "/" + manifest {
        JoinInjective(prefix, q, manifest);
      } else {
        var i :| 0 <= i < |paths| && prefix + "/" + q == prefix + "/" + paths[i];
        JoinInjective(prefix, q, paths[i]);
        assert q == "" + paths[i];
      }
    }
  }

  // ---- the identity of the extracted tree ----

  lemma PortableIsSafeRel(path: string)
    requires Portable(path)
    ensures SafeRel(path) && NormalPath(path) == path
  {
    PartsOfPortable(path);
    JoinOfSplit(path);
  }

  lemma {:induction false} IdentityRowsFrom(rows: seq<Row>, n: nat)
    requires n <= |rows| && RowsSound(rows)
    ensures IdentityRows(rows, n)
    decreases n
  {
    if n > 0 {
      IdentityRowsFrom(rows, n - 1);
      PortableIsSafeRel(rows[n - 1].path);
    }
  }

  lemma RowAgrees(files: Files, path: string, file: File)
    requires Portable(path) && path in files && files[path] == Repacked(file)
    ensures FileAgrees(files, RowOf(path, file))
  {
    PortableIsSafeRel(path);
  }

  lemma FirstPartKept(path: string, excluded: set<string>)
    requires !AnyPartIn(path, excluded)
    ensures Split(path, '/')[0] !in excluded
  {
  }

  lemma ManifestIsNotInventoried()
    ensures !Inventoried(MANIFEST_NAME) && Split(MANIFEST_NAME, '/')[0] !in EXCLUDED_DIRS
  {
    ManifestIsPortable();
    LongIsNotExcluded(MANIFEST_NAME);
  }

  /** The extracted files are those of the manifest, and no others. */
  lemma ExtractedInventory(root: Files, tree: Tree, paths: seq<string>, manifest: string, manifestData: Data)
    requires AllPlain(tree, paths) && Holds(root, tree, paths, "", manifest, manifestData) && !Inventoried(manifest)
    ensures Inventory(root, RowsOf(tree, paths))
  {
    var rows := RowsOf(tree, paths);
    forall p | p in root && Inventoried(p) ensures p in Expected(rows) {
      var i :| 0 <= i < |paths| && p == "" + paths[i];
      ExpectedKeys(rows, p);
      assert rows[i].Row? && rows[i].path == p;
    }
  }

  lemma ExtractedAgrees(root: Files, tree: Tree, paths: seq<string>, manifest: string, manifestData: Data, commit: Option<string>)
    requires AllPlain(tree, paths) && NoRepeats(paths) && paths != [] && CommitAcceptable(commit)
    requires forall i :: 0 <= i < |paths| ==> Portable(paths[i])
    requires Holds(root, tree, paths, "", manifest, manifestData) && !Inventoried(manifest)
    ensures Agrees(ManifestOf(tree, paths, commit), root)
  {
    var rows := RowsOf(tree, paths);
    RowsAreSound(tree, paths);
    IdentityRowsFrom(rows, |rows|);
    ExpectedOfRows(tree, paths);
    ExtractedInventory(root, tree, paths, manifest, manifestData);
    forall i | 0 <= i < |rows| ensures FileAgrees(root, rows[i]) {
      assert "" + paths[i] == paths[i];
      RowAgrees(root, paths[i], tree[paths[i]].file);
    }
  }

  lemma ExtractedNoDotGit(root: Files, tree: Tree, paths: seq<string>, manifest: string, manifestData: Data, excluded: set<string>)
    requires AllPlain(tree, paths) && Holds(root, tree, paths, "", manifest, manifestData) && ".git" in excluded
    requires Split(manifest, '/')[0] !in excluded && forall i :: 0 <= i < |paths| ==> !AnyPartIn(paths[i], excluded)
    ensures NoDotGit(root)
  {
    forall p | p in root ensures Split(p, '/')[0] != ".git" {
      if p != manifest {
        var i :| 0 <= i < |paths| && p == "" + paths[i];
        assert p == paths[i];
        FirstPartKept(p, excluded);
      }
    }
  }

  lemma ExtractedIdentified(codec: Codec, root: Files, tree: Tree, paths: seq<string>, prefix: string, commit: Option<string>)
    requires RoundTrips(codec) && Packing(tree, paths, prefix) && paths != [] && CommitAcceptable(commit)
    requires forall i :: 0 <= i < |paths| ==> Portable(paths[i])
    requires Holds(root, tree, paths, "", MANIFEST_NAME, codec.render(ManifestOf(tree, paths, commit)))
    ensures Identified(codec, root)
  {
    var manifestData := codec.render(ManifestOf(tree, paths, commit));
    ManifestIsNotInventoried();
    ExtractedAgrees(root, tree, paths, MANIFEST_NAME, manifestData, commit);
    ExtractedNoDotGit(root, tree, paths, MANIFEST_NAME, manifestData, EXCLUDED_DIRS);
  }

  // ---- nothing stands in the way ----

  lemma BelowJoined(prefix: string, p: string, q: string)
    requires Below(prefix + "/" + p, prefix + "/" + q)
    ensures Below(p, q)
  {
    var a, b := prefix + "/" + p, prefix + "/" + q + "/";
    assert a[..|b|] == b;
    assert a[|prefix| + 1..] == p && b[|prefix| + 1..] == q + "/";
    assert p[..|q| + 1] == a[|prefix| + 1..|b|];
  }

  lemma NothingBelowFlat(name: string, p: string)
    requires '/' !in name
    ensures !Below(name, p)
  {
    if Below(name, p) {
      BelowHasSlash(name, p);
    }
  }

  lemma BelowHasSlash(name: string, p: string)
    requires Below(name, p)
    ensures '/' in name
  {
    assert (p + "/")[|p|] == '/';
    assert name[|p|] == '/';
  }

  lemma ManifestIsFlat()
    ensures '/' !in MANIFEST_NAME
  {
    ManifestCharacters();
  }

  lemma ArchiveFileNames(tree: Tree, paths: seq<string>, prefix: string, manifestData: Data, deflate: Deflate)
    requires Packing(tree, paths, prefix) && Portable(prefix) && forall i :: 0 <= i < |paths| ==> Portable(paths[i])
    requires !exists p :: p in tree && Below(p, MANIFEST_NAME)
    ensures FileNames(ArchiveOf(tree, paths, prefix, manifestData, deflate))
  {
    var members := ArchiveOf(tree, paths, prefix, manifestData, deflate);
    ManifestIsPortable();
    ManifestIsFlat();
    forall i | 0 <= i < |members|
      ensures members[i].name != "" && !IsDir(members[i].name) && SafeTarget(members[i].name) == Some(members[i].name)
    {
      PortableJoin(prefix, if i < |paths| then paths[i] else MANIFEST_NAME);
      PortableIsNoDir(members[i].name);
    }
    forall i, j | 0 <= i < |members| && 0 <= j < |members| ensures !Below(members[i].name, members[j].name) {
      ApartInArchive(tree, paths, prefix, MANIFEST_NAME, i, j);
    }
  }

  lemma ApartInArchive(tree: Tree, paths: seq<string>, prefix: string, manifest: string, i: nat, j: nat)
    requires AllPlain(tree, paths) && FileTree(tree) && '/' !in manifest && i <= |paths| && j <= |paths|
    requires !exists p :: p in tree && Below(p, manifest)
    ensures var p, q := if i < |paths| then paths[i] else manifest, if j < |paths| then paths[j] else manifest;
            !Below(prefix + "/" + p, prefix + "/" + q)
  {
    var p, q := if i < |paths| then paths[i] else manifest, if j < |paths| then paths[j] else manifest;
    assert !Below(p, q) by {
      if i == |paths| {
        NothingBelowFlat(manifest, q);
      }
    }
    if Below(prefix + "/" + p, prefix + "/" + q) {
      BelowJoined(prefix, p, q);
    }
  }

  // ---- the round trip ----

  /** A tree that can be packed comes back: its archive is extracted completely,
      to exactly its files and the manifest. */
  lemma PackedIsExtractable(
    codec: Codec, fold: string -> string, deflate: Deflate, tree: Tree, paths: seq<string>, prefix: string, commit: Option<string>)
    requires RoundTrips(codec) && Packing(tree, paths, prefix) && CommitAcceptable(commit)
    requires !exists p :: p in tree && Below(p, MANIFEST_NAME)
    requires Packable(fold, deflate, tree, paths, prefix, codec.render(ManifestOf(tree, paths, commit)))
    ensures Extractable(codec, fold, ArchiveOf(tree, paths, prefix, codec.render(ManifestOf(tree, paths, commit)), deflate))
  {
    var manifestData := codec.render(ManifestOf(tree, paths, commit));
    CleanIffPackable(codec, fold, deflate, tree, paths, prefix, commit);
    PackableIsPortable(tree, paths, deflate);
    ArchiveFileNames(tree, paths, prefix, manifestData, deflate);
    PackedIsIdentified(codec, deflate, tree, paths, prefix, commit);
  }

  lemma PackedIsIdentified(
    codec: Codec, deflate: Deflate, tree: Tree, paths: seq<string>, prefix: string, commit: Option<string>)
    requires RoundTrips(codec) && Packing(tree, paths, prefix) && paths != [] && CommitAcceptable(commit)
    requires forall i :: 0 <= i < |paths| ==> Portable(paths[i])
    ensures IdentifiedEverywhere(codec, ArchiveOf(tree, paths, prefix, codec.render(ManifestOf(tree, paths, commit)), deflate))
  {
    var manifestData := codec.render(ManifestOf(tree, paths, commit));
    var members := ArchiveOf(tree, paths, prefix, manifestData, deflate);
    var files := FilesOf(members, |members|);
    ExtractedHolds(tree, paths, prefix, manifestData, deflate);
    RootHolds(files, tree, paths, prefix, MANIFEST_NAME, manifestData);
    ExtractedIdentified(codec, Under(files, prefix), tree, paths, prefix, commit);
    forall k: nat | k < |members| && IsManifestName(members[k].name)
      ensures Identified(codec, Under(files, PrefixOf(members[k].name)))
    {
      ManifestPrefix(tree, paths, prefix, manifestData, deflate, k);
    }
  }

  lemma ManifestPrefix(tree: Tree, paths: seq<string>, prefix: string, manifestData: Data, deflate: Deflate, k: nat)
    requires Packing(tree, paths, prefix) && k <= |paths|
    requires IsManifestName(ArchiveOf(tree, paths, prefix, manifestData, deflate)[k].name)
    ensures PrefixOf(ArchiveOf(tree, paths, prefix, manifestData, deflate)[k].name) == prefix
  {
    JoinedManifestName(prefix);
    if k < |paths| {
      OneManifest(tree, paths, prefix, manifestData, deflate, k);
    }
  }

  lemma PackingOfKept(tree: Tree, listing: seq<string>, keep: Filter, prefix: string)
    requires Lists(listing, tree) && FileTree(tree) && '/' !in prefix && KeepsSources(keep)
    requires AllPlain(tree, Kept(listing, keep))
    ensures Packing(tree, Kept(listing, keep), prefix)
  {
    KeptMeaning(listing, keep);
    var paths := Kept(listing, keep);
    forall i | 0 <= i < |paths|
      ensures LastPart(paths[i]) != MANIFEST_NAME && LastPart(paths[i]) != ".coverage" && !AnyPartIn(paths[i], EXCLUDED_DIRS)
    {
      assert paths[i] in paths && keep(paths[i]);
    }
  }

  /** An archive that is not verified but has a manifest is not extracted. */
  lemma UnverifiedHasManifest(tree: Tree, paths: seq<string>, prefix: string, manifestData: Data, deflate: Deflate)
    requires AllPlain(tree, paths)
    ensures HasManifest(ArchiveOf(tree, paths, prefix, manifestData, deflate))
  {
    JoinedManifestName(prefix);
    assert IsManifestName(ArchiveOf(tree, paths, prefix, manifestData, deflate)[|paths|].name);
  }

  /** Verification and extraction of what was built. */
  method VerifyAndExtract(
    codec: Codec, fold: string -> string, members: seq<Member>, d: Destination,
    ghost deflate: Deflate, ghost tree: Tree, ghost paths: seq<string>, ghost prefix: string, ghost commit: Option<string>)
    returns (report: Report, extracted: Outcome<Error>)
    requires RoundTrips(codec) && Packing(tree, paths, prefix) && CommitAcceptable(commit) && Usable(d.state)
    requires !exists p :: p in tree && Below(p, MANIFEST_NAME)
    requires members == ArchiveOf(tree, paths, prefix, codec.render(ManifestOf(tree, paths, commit)), deflate)
    modifies d`clock, d`state, d`staging
    ensures var manifestData := codec.render(ManifestOf(tree, paths, commit));
            var packable := Packable(fold, deflate, tree, paths, prefix, manifestData);
            && (report == Report([], []) <==> packable)
            && (extracted.Done? ==> packable && HoldsReleased(d.state, tree, paths, prefix, manifestData))
            && (AllWork(d.fate, old(d.clock)) ==> (extracted.Done? <==> packable) && (!extracted.Done? ==> d.state == old(d.state)))
    ensures !extracted.Done? ==> Untouched(old(d.state), d.state)
  {
    report := VerifyArchive(codec, fold, members);
    extracted := Extract(codec, fold, members, true, d);
    ghost var manifestData := codec.render(ManifestOf(tree, paths, commit));
    CleanIffPackable(codec, fold, deflate, tree, paths, prefix, commit);
    UnverifiedHasManifest(tree, paths, prefix, manifestData, deflate);
    if Packable(fold, deflate, tree, paths, prefix, manifestData) {
      PackedIsExtractable(codec, fold, deflate, tree, paths, prefix, commit);
      ExtractableExtracts(codec, fold, members);
      ExtractedHolds(tree, paths, prefix, manifestData, deflate);
    }
  }

  /** The destination holds exactly the released files, with their executable
      bits, and the manifest. */
  ghost predicate HoldsReleased(state: DestinationState, tree: Tree, paths: seq<string>, prefix: string, manifestData: Data)
    requires AllPlain(tree, paths)
  {
    && state.Holding? && state.content.directories == {}
    && Holds(state.content.files, tree, paths, prefix + "/", prefix + "/" + MANIFEST_NAME, manifestData)
  }

  /** build_release, verify_archive and extract, one after the other: the archive
      is verified if and only if the tree can be packed. It is extracted only
      then, to exactly the released files with their executable bits and the
      manifest, and without system errors it is extracted whenever that is so.
      Otherwise the destination is as before, except that an empty directory may
      be missing. */
  method PackAndExtract(
    codec: Codec, fold: string -> string, deflate: Deflate,
    tree: Tree, listing: seq<string>, prefix: string, commit: Option<string>, d: Destination)
    returns (built: Result<seq<Member>, Error>, report: Report, extracted: Outcome<Error>)
    requires RoundTrips(codec) && CommitAcceptable(commit)
    requires Lists(listing, tree) && FileTree(tree) && '/' !in prefix && Usable(d.state)
    modifies d`clock, d`state, d`staging
    ensures built.Ok? <==>
            AllPlain(tree, Kept(listing, Released)) && !exists p :: p in tree && Below(p, MANIFEST_NAME)
    ensures built.Ok? ==>
              var paths := Kept(listing, Released);
              var manifestData := codec.render(ManifestOf(tree, paths, commit));
              var packable := Packable(fold, deflate, tree, paths, prefix, manifestData);
              && (report == Report([], []) <==> packable)
              && (extracted.Done? ==> packable && HoldsReleased(d.state, tree, paths, prefix, manifestData))
              && (AllWork(d.fate, old(d.clock)) ==> (extracted.Done? <==> packable) && (!extracted.Done? ==> d.state == old(d.state)))
    ensures built.Err? || !extracted.Done? ==> Untouched(old(d.state), d.state)
  {
    report, extracted := Report([], []), Done;
    built := BuildRelease(codec, deflate, tree, listing, Released, prefix, commit);
    if built.Ok? {
      ReleasedKeepsSources();
      PackingOfKept(tree, listing, Released, prefix);
      report, extracted := VerifyAndExtract(
        codec, fold, built.value, d, deflate, tree, Kept(listing, Released), prefix, commit);
    }
  }
}
