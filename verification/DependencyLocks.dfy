/** The both-or-none promotion of dependency lock files, with its rollback
    journal and copied backups (scripts/bootstrap_dependency_locks.py). */
module DependencyLocks {
  import opened Base

  type Key = string
  type Content = string

  /** SHA-256, taken to be injective. */
  datatype Digest = Sha256(content: Content)

  datatype Status = Prepared | Promoted(key: Key) | VerifiedBoth

  datatype Journal = Journal(
    status: Status,
    dir: nat,
    before: map<Key, Option<Digest>>,
    candidates: map<Key, Digest>)

  /** A transaction directory: its backups and candidates folders. */
  datatype TxDir = TxDir(backups: map<Key, Content>, candidates: map<Key, Content>)

  datatype Error =
    | OsError
    | TransactionDirMissing
    | BeforeStateInvalid
    | BackupInvalid(key: Key)
    | RollbackVerifyFailed(key: Key)
    | BackupVerifyFailed(key: Key)
    | CandidateChanged(key: Key)
    | CommitVerifyFailed(key: Key)

  /** The directory that holds the targets, the journal and the transaction
      directories. Every method up to RemoveDir is one step of the file system. */
  class LockRoot {
    const keys: seq<Key>
    const fate: nat -> Fate
    var clock: nat
    var files: map<Key, Content>
    var dirs: map<nat, TxDir>
    var nextDir: nat
    var journal: Option<Journal>

    constructor (keys: seq<Key>, files: map<Key, Content>, fate: nat -> Fate)
      requires NoRepeats(keys) && files.Keys <= Elements(keys)
      ensures this.keys == keys && this.files == files && this.fate == fate
      ensures Valid() && journal == None && Committed() == files
    {
      this.keys, this.files, this.fate := keys, files, fate;
      clock, dirs, nextDir, journal := 0, map[], 0, None;
    }

    method Tick() returns (f: Fate)
      modifies this`clock
      ensures f == fate(old(clock)) && clock == old(clock) + 1
    {
      f := fate(clock);
      clock := clock + 1;
    }

    /** Write a temporary file and rename it over the journal. */
    method WriteJournal(j: Journal) returns (o: Outcome<Error>)
      modifies this`clock, this`journal
      ensures o == Verdict(fate(old(clock)), OsError) && clock == old(clock) + 1
      ensures journal == if o.Done? then Some(j) else old(journal)
    {
      var f := Tick();
      if f == Works {
        journal := Some(j);
      }
      o := Verdict(f, OsError);
    }

    method UnlinkJournal() returns (o: Outcome<Error>)
      modifies this`clock, this`journal
      ensures o == Verdict(fate(old(clock)), OsError) && clock == old(clock) + 1
      ensures journal == if o.Done? then None else old(journal)
    {
      var f := Tick();
      if f == Works {
        journal := None;
      }
      o := Verdict(f, OsError);
    }

    /** Copy to a temporary file and rename it over the target. */
    method RestoreCopy(key: Key, content: Content) returns (o: Outcome<Error>)
      modifies this`clock, this`files
      ensures o == Verdict(fate(old(clock)), OsError) && clock == old(clock) + 1
      ensures files == if o.Done? then old(files)[key := content] else old(files)
    {
      var f := Tick();
      if f == Works {
        files := files[key := content];
      }
      o := Verdict(f, OsError);
    }

    method UnlinkTarget(key: Key) returns (o: Outcome<Error>)
      modifies this`clock, this`files
      ensures o == Verdict(fate(old(clock)), OsError) && clock == old(clock) + 1
      ensures files == if o.Done? then old(files) - {key} else old(files)
    {
      var f := Tick();
      if f == Works {
        files := files - {key};
      }
      o := Verdict(f, OsError);
    }

    /** Rename a candidate over its target. */
    method PromoteFile(dir: nat, key: Key) returns (o: Outcome<Error>)
      requires dir in dirs && key in dirs[dir].candidates
      modifies this`clock, this`files, this`dirs
      ensures o == Verdict(fate(old(clock)), OsError) && clock == old(clock) + 1
      ensures files == if o.Done? then old(files)[key := old(dirs)[dir].candidates[key]] else old(files)
      ensures dirs == if o.Done?
                      then old(dirs)[dir := old(dirs)[dir].(candidates := old(dirs)[dir].candidates - {key})]
                      else old(dirs)
    {
      var f := Tick();
      if f == Works {
        var d := dirs[dir];
        files := files[key := d.candidates[key]];
        dirs := dirs[dir := d.(candidates := d.candidates - {key})];
      }
      o := Verdict(f, OsError);
    }

    method MakeDir() returns (o: Outcome<Error>, dir: nat)
      modifies this`clock, this`dirs, this`nextDir
      ensures o == Verdict(fate(old(clock)), OsError) && clock == old(clock) + 1
      ensures dir == old(nextDir) && nextDir == old(nextDir) + 1
      ensures dirs == if o.Done? then old(dirs)[dir := TxDir(map[], map[])] else old(dirs)
    {
      dir := nextDir;
      nextDir := nextDir + 1;
      var f := Tick();
      if f == Works {
        dirs := dirs[dir := TxDir(map[], map[])];
      }
      o := Verdict(f, OsError);
    }

    /** Copying is not atomic: a failure leaves any content behind. */
    method CopyBackup(dir: nat, key: Key) returns (o: Outcome<Error>)
      requires dir in dirs && key in files
      modifies this`clock, this`dirs
      ensures o == Verdict(fate(old(clock)), OsError) && clock == old(clock) + 1
      ensures dirs.Keys == old(dirs).Keys && forall d :: d in dirs && d != dir ==> dirs[d] == old(dirs)[d]
      ensures o.Done? ==>
                dirs[dir] == old(dirs)[dir].(backups := old(dirs)[dir].backups[key := files[key]])
    {
      var f := Tick();
      var copied: Content := files[key];
      if f != Works {
        copied := *;
      }
      dirs := dirs[dir := dirs[dir].(backups := dirs[dir].backups[key := copied])];
      o := Verdict(f, OsError);
    }

    method CopyCandidate(dir: nat, key: Key, content: Content) returns (o: Outcome<Error>)
      requires dir in dirs
      modifies this`clock, this`dirs
      ensures o == Verdict(fate(old(clock)), OsError) && clock == old(clock) + 1
      ensures dirs.Keys == old(dirs).Keys && forall d :: d in dirs && d != dir ==> dirs[d] == old(dirs)[d]
      ensures o.Done? ==>
                dirs[dir] == old(dirs)[dir].(candidates := old(dirs)[dir].candidates[key := content])
    {
      var f := Tick();
      var copied := content;
      if f != Works {
        copied := *;
      }
      dirs := dirs[dir := dirs[dir].(candidates := dirs[dir].candidates[key := copied])];
      o := Verdict(f, OsError);
    }

    /** rmtree with ignored errors: it never raises, but may leave anything of
        the directory behind. */
    method RemoveDir(dir: nat) returns (o: Outcome<Error>)
      modifies this`clock, this`dirs
      ensures o == (if fate(old(clock)) == Dies then Crashed else Done) && clock == old(clock) + 1
      ensures dirs.Keys <= old(dirs).Keys && dirs.Keys + {dir} == old(dirs).Keys + {dir}
      ensures forall d :: d in dirs && d != dir ==> dirs[d] == old(dirs)[d]
    {
      var f := Tick();
      if f == Works {
        dirs := dirs - {dir};
      } else if dir in dirs {
        var left: TxDir := *;
        dirs := dirs[dir := left];
      }
      o := if f == Dies then Crashed else Done;
    }

    // ---- what the state means ----

    ghost predicate Intact(j: Journal)
      reads this
    {
      && j.dir in dirs
      && j.before.Keys == Elements(keys)
      && forall k :: k in j.before && j.before[k].Some? ==>
           k in dirs[j.dir].backups && j.before[k].value == Sha256(dirs[j.dir].backups[k])
    }

    /** The journal, when there is one, comes with verified backups of every
        file that existed before. */
    ghost predicate Valid()
      reads this
    {
      && NoRepeats(keys)
      && files.Keys <= Elements(keys)
      && (forall d :: d in dirs ==> d < nextDir)
      && (journal.Some? ==> Intact(journal.value))
    }

    ghost function Before(j: Journal): map<Key, Content>
    {
      map k | k in j.before && j.before[k].Some? :: j.before[k].value.content
    }

    /** The lock files as last committed: the files themselves, or, while a
        journal is present, what it records of them. */
    ghost function Committed(): map<Key, Content>
      reads this
    {
      if journal.None? then files else Before(journal.value)
    }

    // ---- the protocol ----

    /** Put back one target: copy the verified backup in, or remove the file. */
    method RestoreTarget(dir: nat, key: Key, row: Option<Digest>) returns (o: Outcome<Error>)
      modifies this`clock, this`files
      ensures o.Done? ==> files == match row
                          case Some(expected) => old(files)[key := expected.content]
                          case None => old(files) - {key}
      ensures !o.Done? ==> files == old(files)
      ensures o.Raised? ==> o.error == OsError || o.error == BackupInvalid(key)
      ensures o == Raised(BackupInvalid(key)) <==>
              row.Some? && !(dir in dirs && key in dirs[dir].backups && Sha256(dirs[dir].backups[key]) == row.value)
      ensures clock >= old(clock) && (AllWork(fate, old(clock)) ==> o.Done? || o == Raised(BackupInvalid(key)))
    {
      match row {
        case Some(expected) =>
          if dir !in dirs || key !in dirs[dir].backups || Sha256(dirs[dir].backups[key]) != expected {
            return Raised(BackupInvalid(key));
          }
          o := RestoreCopy(key, dirs[dir].backups[key]);
        case None =>
          o := UnlinkTarget(key);
      }
    }

    method VerifyRestored(j: Journal) returns (o: Outcome<Error>)
      requires j.before.Keys == Elements(keys)
      ensures o.Done? <==> forall k :: k in keys ==> Same(files, Before(j), k)
      ensures o.Done? || (o.Raised? && o.error.RollbackVerifyFailed?)
    {
      var i := 0;
      while i < |keys|
        invariant 0 <= i <= |keys|
        invariant forall k :: k in keys[..i] ==> Same(files, Before(j), k)
      {
        var key := keys[i];
        assert key in Elements(keys) && key in keys;
        assert keys[..i + 1] == keys[..i] + [key];
        var row := j.before[key];
        if (row.Some? && (key !in files || Sha256(files[key]) != row.value)) || (row.None? && key in files) {
          assert !Same(files, Before(j), key);
          return Raised(RollbackVerifyFailed(key));
        }
        i := i + 1;
      }
      assert keys[..i] == keys;
      o := Done;
    }

    /** One round of the restoring loop. */
    method RestoreNext(dir: nat, j: Journal, i: nat) returns (o: Outcome<Error>)
      requires NoRepeats(keys) && i < |keys| && Intact(j) && j.dir == dir && files.Keys <= Elements(keys)
      requires forall k :: k in keys[..i] ==> Same(files, Before(j), k)
      modifies this`clock, this`files
      ensures files.Keys <= Elements(keys) && clock >= old(clock)
      ensures o.Done? ==> forall k :: k in keys[..i + 1] ==> Same(files, Before(j), k)
      ensures o.Raised? ==> o.error == OsError
      ensures AllWork(fate, old(clock)) ==> o.Done?
    {
      var key := keys[i];
      assert key in Elements(keys);
      Rounds(keys, i);
      o := RestoreTarget(dir, key, j.before[key]);
    }

    method RestorePreTransactionState(dir: nat, j: Journal) returns (o: Outcome<Error>)
      requires Valid() && journal.Some? && Intact(j) && j.dir == dir && Before(j) == Before(journal.value)
      modifies this`clock, this`files
      ensures Valid() && Committed() == old(Committed())
      ensures o.Done? ==> files == Committed()
      ensures o.Raised? ==> o.error == OsError
      ensures clock >= old(clock) && (AllWork(fate, old(clock)) ==> o.Done?)
    {
      if j.before.Keys != set k | k in keys {
        return Raised(BeforeStateInvalid);
      }
      var i := 0;
      while i < |keys|
        invariant 0 <= i <= |keys| && clock >= old(clock)
        invariant files.Keys <= Elements(keys)
        invariant forall k :: k in keys[..i] ==> Same(files, Before(j), k)
      {
        o := RestoreNext(dir, j, i);
        if !o.Done? {
          return;
        }
        i := i + 1;
      }
      assert keys[..i] == keys;
      SameEverywhere(files, Before(j), keys);
      o := VerifyRestored(j);
    }

    /** A recovery that runs to its end restores every file, absence included;
        the protocol itself never makes it fail. */
    method RecoverIncompleteTransaction() returns (o: Outcome<Error>, recovered: bool)
      requires Valid()
      modifies this`clock, this`files, this`dirs, this`journal
      ensures Valid() && Committed() == old(Committed())
      ensures o.Done? ==> journal == None && files == old(Committed()) && recovered == old(journal.Some?)
      ensures o.Raised? ==> o.error == OsError
      ensures clock >= old(clock) && (AllWork(fate, old(clock)) ==> o.Done?)
    {
      recovered := false;
      if journal.None? {
        return Done, false;
      }
      var j := journal.value;
      if j.dir !in dirs {
        return Raised(TransactionDirMissing), false;
      }
      :- RestorePreTransactionState(j.dir, j);
      :- UnlinkJournal();
      :- RemoveDir(j.dir);
      return Done, true;
    }

    /** One round of the preparation: a verified backup and a stable candidate. */
    method StageTarget(dir: nat, key: Key, before: Option<Digest>, candidate: Content) returns (o: Outcome<Error>, row: Digest)
      requires dir in dirs && before == if key in files then Some(Sha256(files[key])) else None
      modifies this`clock, this`dirs
      ensures dirs.Keys == old(dirs).Keys && forall d :: d in dirs && d != dir ==> dirs[d] == old(dirs)[d]
      ensures o.Done? ==>
                && row == Sha256(candidate)
                && dirs[dir].candidates == old(dirs)[dir].candidates[key := candidate]
                && dirs[dir].backups ==
                   if key in files then old(dirs)[dir].backups[key := files[key]] else old(dirs)[dir].backups
      ensures o.Raised? ==> o.error == OsError
      ensures clock >= old(clock) && (AllWork(fate, old(clock)) ==> o.Done?)
    {
      row := Sha256(candidate);
      if before.Some? {
        o := CopyBackup(dir, key);
        if o.IsFailure() {
          return;
        }
        if Sha256(dirs[dir].backups[key]) != before.value {
          return Raised(BackupVerifyFailed(key)), row;
        }
      }
      o := CopyCandidate(dir, key, candidate);
      if o.Done? {
        row := Sha256(dirs[dir].candidates[key]);
      }
    }

    /** The loop of the preparation over all targets. */
    method StageAll(dir: nat, before: map<Key, Option<Digest>>, candidates: map<Key, Content>)
      returns (o: Outcome<Error>, rows: map<Key, Digest>)
      requires dir in dirs && before == Digests() && candidates.Keys == Elements(keys)
      modifies this`clock, this`dirs
      ensures dirs.Keys == old(dirs).Keys
      ensures o.Done? ==> BackedUp(dirs[dir].backups, files, keys) && Staged(dirs[dir].candidates, rows, candidates, keys)
      ensures o.Raised? ==> o.error == OsError
      ensures clock >= old(clock) && (AllWork(fate, old(clock)) ==> o.Done?)
    {
      rows := map[];
      var i := 0;
      while i < |keys|
        invariant 0 <= i <= |keys| && clock >= old(clock) && dirs.Keys == old(dirs).Keys
        invariant BackedUp(dirs[dir].backups, files, keys[..i])
        invariant Staged(dirs[dir].candidates, rows, candidates, keys[..i])
      {
        var key := keys[i];
        assert key in Elements(keys);
        assert keys[..i + 1] == keys[..i] + [key];
        var staged, row := StageTarget(dir, key, before[key], candidates[key]);
        if !staged.Done? {
          return staged, rows;
        }
        rows := rows[key := row];
        i := i + 1;
      }
      assert keys[..i] == keys;
      o := Done;
    }

    method PrepareTransaction(dir: nat, before: map<Key, Option<Digest>>, candidates: map<Key, Content>)
      returns (o: Outcome<Error>, j: Journal)
      requires Valid() && journal.None? && dir in dirs && dirs[dir] == TxDir(map[], map[])
      requires before == Digests() && candidates.Keys == Elements(keys)
      modifies this`clock, this`dirs, this`journal
      ensures Valid() && Committed() == files && dirs.Keys == old(dirs).Keys
      ensures o.Done? ==> journal == Some(j) && j.dir == dir && ReadyToCommit(j, keys, candidates)
      ensures !o.Done? ==> journal.None?
      ensures o.Raised? ==> o.error == OsError
      ensures clock >= old(clock) && (AllWork(fate, old(clock)) ==> o.Done?)
    {
      var rows;
      o, rows := StageAll(dir, before, candidates);
      j := Journal(Prepared, dir, before, rows);
      if o.Done? {
        RecordsFiles(j);
        o := WriteJournal(j);
      }
    }

    /** A journal with the digests of the files records these files. */
    lemma RecordsFiles(j: Journal)
      requires files.Keys <= Elements(keys) && j.before == Digests()
      ensures Before(j) == files && forall k :: k in keys ==> k in j.before
    {
      forall k | k in keys ensures k in j.before {
        assert k in Elements(keys);
      }
    }

    ghost function Digests(): map<Key, Option<Digest>>
      reads this
    {
      map k | k in Elements(keys) :: if k in files then Some(Sha256(files[k])) else None
    }

    /** The listed targets still have their candidate waiting in the transaction directory. */
    ghost predicate ReadyToCommit(j: Journal, waiting: seq<Key>, candidates: map<Key, Content>)
      reads this
    {
      && Intact(j)
      && (forall k :: k in keys ==> k in candidates && k in j.candidates && j.candidates[k] == Sha256(candidates[k]))
      && Staged(dirs[j.dir].candidates, j.candidates, candidates, waiting)
    }

    /** The first n targets hold their candidates; those of the others still wait. */
    ghost predicate HalfPromoted(j: Journal, n: nat, candidates: map<Key, Content>)
      requires n <= |keys|
      reads this
    {
      && j.dir in dirs && files.Keys <= Elements(keys)
      && InPlace(files, candidates, keys[..n])
      && Staged(dirs[j.dir].candidates, j.candidates, candidates, keys[n..])
    }

    /** One round of the promoting loop. */
    method PromoteNext(j: Journal, current: Journal, n: nat, ghost candidates: map<Key, Content>)
      returns (o: Outcome<Error>, next: Journal)
      requires NoRepeats(keys) && n < |keys| && HalfPromoted(j, n, candidates)
      requires journal == Some(current) && current == j.(status := current.status)
      modifies this`clock, this`files, this`dirs, this`journal
      ensures dirs.Keys == old(dirs).Keys && dirs[j.dir].backups == old(dirs[j.dir].backups)
      ensures files.Keys <= Elements(keys)
      ensures o.Done? ==> HalfPromoted(j, n + 1, candidates)
      ensures journal == Some(next) && next == j.(status := next.status)
      ensures o.Raised? ==> o.error == OsError
      ensures clock >= old(clock) && (AllWork(fate, old(clock)) ==> o.Done?)
    {
      next := current;
      var key := keys[n];
      assert key in Elements(keys);
      Rounds(keys, n);
      if key !in dirs[j.dir].candidates || Sha256(dirs[j.dir].candidates[key]) != j.candidates[key] {
        return Raised(CandidateChanged(key)), current;
      }
      o := PromoteFile(j.dir, key);
      if o.Done? {
        o := WriteJournal(current.(status := Promoted(key)));
      }
      if o.Done? {
        next := current.(status := Promoted(key));
      }
    }

    /** The promoting loop: rename each candidate in and note it in the journal. */
    method PromoteAll(dir: nat, j: Journal, ghost candidates: map<Key, Content>) returns (o: Outcome<Error>, current: Journal)
      requires Valid() && journal == Some(j) && j.dir == dir && ReadyToCommit(j, keys, candidates)
      modifies this`clock, this`files, this`dirs, this`journal
      ensures dirs.Keys == old(dirs).Keys && dirs[dir].backups == old(dirs[dir].backups)
      ensures files.Keys <= Elements(keys)
      ensures journal.Some? && journal.value == j.(status := journal.value.status) && current == j.(status := current.status)
      ensures o.Done? ==> InPlace(files, candidates, keys)
      ensures o.Raised? ==> o.error == OsError
      ensures clock >= old(clock) && (AllWork(fate, old(clock)) ==> o.Done?)
    {
      current := j;
      var n := 0;
      while n < |keys|
        invariant 0 <= n <= |keys| && clock >= old(clock) && dirs.Keys == old(dirs).Keys
        invariant dirs[dir].backups == old(dirs[dir].backups)
        invariant HalfPromoted(j, n, candidates) && journal == Some(current) && current == j.(status := current.status)
      {
        o, current := PromoteNext(j, current, n, candidates);
        if !o.Done? {
          return;
        }
        n := n + 1;
      }
      assert keys[..n] == keys;
      o := Done;
    }

    method VerifyPromoted(j: Journal) returns (o: Outcome<Error>)
      requires forall k :: k in keys ==> k in j.candidates
      ensures o.Done? <==> forall k :: k in keys ==> k in files && Sha256(files[k]) == j.candidates[k]
      ensures o.Done? || (o.Raised? && o.error.CommitVerifyFailed?)
    {
      var i := 0;
      while i < |keys|
        invariant 0 <= i <= |keys|
        invariant forall k :: k in keys[..i] ==> k in files && Sha256(files[k]) == j.candidates[k]
      {
        var key := keys[i];
        assert key in keys;
        assert keys[..i + 1] == keys[..i] + [key];
        if key !in files || Sha256(files[key]) != j.candidates[key] {
          return Raised(CommitVerifyFailed(key));
        }
        i := i + 1;
      }
      assert keys[..i] == keys;
      o := Done;
    }

    /** The journal unlink is the commit: until it happens the committed files
        are the old ones, and when it has happened they are all candidates. */
    method CommitTransaction(dir: nat, j: Journal, ghost candidates: map<Key, Content>) returns (o: Outcome<Error>)
      requires Valid() && journal == Some(j) && j.dir == dir && ReadyToCommit(j, keys, candidates)
      requires candidates.Keys == Elements(keys)
      modifies this`clock, this`files, this`dirs, this`journal
      ensures Valid() && dirs.Keys == old(dirs).Keys
      ensures o.Done? ==> journal == None && files == candidates
      ensures !o.Done? ==> journal.Some? && Intact(j) && Before(journal.value) == Before(j)
      ensures o.Raised? ==> o.error == OsError
      ensures clock >= old(clock) && (AllWork(fate, old(clock)) ==> o.Done?)
    {
      var current;
      o, current := PromoteAll(dir, j, candidates);
      if o.Done? {
        o := VerifyPromoted(j);
      }
      if o.Done? {
        assert files.Keys == Elements(keys);
        o := WriteJournal(current.(status := VerifiedBoth));
      }
      if o.Done? {
        o := UnlinkJournal();
      }
    }

    /** The prepared part of bootstrap: commit, and on an exception restore the
        old files; a failed restore leaves the journal for the next recovery. */
    method Promote(dir: nat, before: map<Key, Option<Digest>>, candidates: map<Key, Content>)
      returns (o: Outcome<Error>, committed: bool)
      requires Valid() && journal.None? && dir in dirs && dirs[dir] == TxDir(map[], map[])
      requires before == Digests() && candidates.Keys == Elements(keys)
      modifies this`clock, this`files, this`dirs, this`journal
      ensures Valid() && committed == o.Done?
      ensures o.Done? ==> journal == None && files == candidates
      ensures !o.Done? ==> Committed() == old(files)
      ensures o.Raised? ==> o.error == OsError
      ensures clock >= old(clock) && (AllWork(fate, old(clock)) ==> o.Done?)
    {
      committed := false;
      var prepared, j := PrepareTransaction(dir, before, candidates);
      if !prepared.Done? {
        return prepared, false;
      }
      o := CommitTransaction(dir, j, candidates);
      if o.Raised? {
        var restored := RestorePreTransactionState(dir, j);
        if restored.Done? {
          restored := UnlinkJournal();
        }
        if restored.Crashed? {
          return Crashed, false;
        }
      }
      committed := o.Done?;
    }

    /** One call of bootstrap. `candidates` is what the two resolvers left, or
        None when one of them failed. */
    method Bootstrap(candidates: Option<map<Key, Content>>) returns (o: Outcome<Error>, committed: bool)
      requires Valid() && (candidates.Some? ==> candidates.value.Keys == Elements(keys))
      modifies this`clock, this`files, this`dirs, this`nextDir, this`journal
      ensures Valid()
      ensures o.Done? ==> journal == None && committed == candidates.Some?
                          && files == if committed then candidates.value else old(Committed())
      ensures o.Raised? ==> o.error == OsError && Committed() == old(Committed())
      ensures o.Crashed? ==> Committed() == old(Committed())
                             || (candidates.Some? && journal == None && files == candidates.value)
      ensures clock >= old(clock) && (AllWork(fate, old(clock)) ==> o.Done?)
    {
      committed := false;
      var recovery, recovered := RecoverIncompleteTransaction();
      if !recovery.Done? {
        return recovery, false;
      }
      var before := map k | k in keys :: if k in files then Some(Sha256(files[k])) else None;
      assert before == Digests();
      var made, dir := MakeDir();
      if !made.Done? {
        return made, false;
      }
      var attempt := Done;
      if candidates.Some? {
        attempt, committed := Promote(dir, before, candidates.value);
        if attempt.Crashed? {
          return Crashed, committed;
        }
      }
      if journal.None? {
        :- RemoveDir(dir);
      }
      o := attempt;
    }
  }

  /** One invocation of the script: a promotion attempt or --recover-only. */
  datatype Call = BootstrapCall(candidates: Option<map<Key, Content>>) | RecoverCall

  /** Any sequence of invocations, each of which may raise or die at any step,
      refines one atomic multi-file write per call: the committed files go
      through `history`, each change being all candidates of that call, and
      whenever no journal is left the files on disk are the committed ones. */
  method Run(root: LockRoot, calls: seq<Call>) returns (ghost history: seq<map<Key, Content>>)
    requires root.Valid()
    requires forall c :: c in calls && c.BootstrapCall? && c.candidates.Some? ==>
               c.candidates.value.Keys == Elements(root.keys)
    modifies root
    ensures root.Valid()
    ensures |history| == |calls| + 1 && history[0] == old(root.Committed()) && history[|calls|] == root.Committed()
    ensures forall i :: 0 <= i < |calls| ==>
              history[i + 1] == history[i] || calls[i] == BootstrapCall(Some(history[i + 1]))
    ensures root.journal.None? ==> root.files == history[|calls|]
  {
    history := [root.Committed()];
    var i := 0;
    while i < |calls|
      invariant 0 <= i <= |calls| && root.Valid()
      invariant |history| == i + 1 && history[0] == old(root.Committed()) && history[i] == root.Committed()
      invariant forall n :: 0 <= n < i ==>
                  history[n + 1] == history[n] || calls[n] == BootstrapCall(Some(history[n + 1]))
    {
      match calls[i] {
        case BootstrapCall(candidates) =>
          var o, committed := root.Bootstrap(candidates);
        case RecoverCall =>
          var o, recovered := root.RecoverIncompleteTransaction();
      }
      history := history + [root.Committed()];
      i := i + 1;
    }
  }

  ghost predicate BackedUp(backups: map<Key, Content>, files: map<Key, Content>, done: seq<Key>) {
    forall k :: k in done && k in files ==> k in backups && backups[k] == files[k]
  }

  ghost predicate Staged(staged: map<Key, Content>, rows: map<Key, Digest>, candidates: map<Key, Content>, done: seq<Key>) {
    forall k :: k in done ==>
      && k in candidates && k in staged && staged[k] == candidates[k]
      && k in rows && rows[k] == Sha256(candidates[k])
  }

  ghost predicate InPlace(files: map<Key, Content>, candidates: map<Key, Content>, done: seq<Key>) {
    forall k :: k in done ==> k in files && k in candidates && files[k] == candidates[k]
  }

  lemma Rounds(keys: seq<Key>, i: nat)
    requires NoRepeats(keys) && i < |keys|
    ensures keys[..i + 1] == keys[..i] + [keys[i]] && keys[i..] == [keys[i]] + keys[i + 1..]
    ensures keys[i] !in keys[..i] && keys[i] !in keys[i + 1..]
  {
  }

  predicate Same(a: map<Key, Content>, b: map<Key, Content>, k: Key) {
    (k in a <==> k in b) && (k in a && k in b ==> a[k] == b[k])
  }

  lemma SameEverywhere(a: map<Key, Content>, b: map<Key, Content>, keys: seq<Key>)
    requires a.Keys <= Elements(keys) && b.Keys <= Elements(keys)
    requires forall k :: k in keys ==> Same(a, b, k)
    ensures a == b
  {
    forall k | k in a || k in b ensures Same(a, b, k) {
      assert k in Elements(keys);
    }
    assert a.Keys == b.Keys;
  }
}
