/** The directory beside the active release, with the database it serves, and
    the check that no other mutation is journaled
    (scripts/deployment_transaction_state.py). Each method of Host up to
    RunMigrationCommand is one step of the file system, of the database or of
    the audit log. */
module DeploymentState {
  import opened Base
  import Lineage

  /** A source tree: its contents, and what the verifiers find in it. */
  datatype Tree = Tree(
    contents: string,
    commit: Option<string>,
    schema: Lineage.Schema,
    identityVerified: bool,
    bindingAccepted: bool)

  /** The tree hash, taken to be injective. */
  datatype Digest = Sha256(tree: Tree)

  /** The names under the parent directory that can hold a tree. */
  datatype Place = Active | Candidate(token: nat) | Backup(token: nat) | Failed(token: nat)

  datatype UpdateStatus = Prepared | ActiveMovedToBackup | CandidatePromoted

  /** Candidate and backup are named by the transaction's token. */
  datatype UpdateJournal = UpdateJournal(status: UpdateStatus, token: nat)

  datatype MigrationStatus = MigrationPrepared | CommandCompleted

  datatype MigrationJournal = MigrationJournal(
    status: MigrationStatus,
    transaction: nat,
    fromHead: Lineage.Revision,
    toHead: Lineage.Revision,
    pending: seq<Lineage.Revision>,
    activeTree: Digest,
    candidateTree: Digest,
    candidateCommit: Option<string>)

  datatype MigrationReceipt = MigrationReceipt(
    transaction: nat,
    fromHead: Lineage.Revision,
    toHead: Lineage.Revision,
    observedHead: Lineage.Revision,
    activeTree: Digest,
    candidateTree: Digest,
    candidateCommit: Option<string>,
    pending: seq<Lineage.Revision>)

  datatype AcceptanceReceipt = AcceptanceReceipt(
    transaction: nat,
    preTree: Digest,
    postTree: Digest,
    migration: Option<MigrationReceipt>)

  /** The digest of the acceptance receipt is represented by the receipt. */
  datatype RollbackReceipt = RollbackReceipt(
    backup: nat,
    backupTree: Digest,
    acceptance: AcceptanceReceipt)

  datatype AuditEvent =
    | ReleaseUpdateAccepted(acceptance: AcceptanceReceipt, postTree: Digest)
    | DatabaseMigrationCommitted(receipt: MigrationReceipt)
    | ReleaseRollbackAccepted(activeTree: Digest)

  datatype JournalKind = ReleaseUpdate | DatabaseMigration | DependencyLocks

  datatype CommandResult = Succeeded | ExitCode(code: int) | TimedOut

  datatype Error =
    | OsError
    | TransactionConflict(kinds: set<JournalKind>)
    | TransactionStateInvalid
    | JournalNotAnObject
    | ActiveDirectoryUnsafe
    | UpdateBackupMissing
    | SourcePackageInvalid
    | CandidateIdentityInvalid
    | MigrationPlanRefused(reason: Lineage.Error)
    | MigrationReceiptRequired
    | MigrationReceiptUnexpected
    | MigrationReceiptMissing
    | MigrationReceiptMismatch
    | PostCutoverIdentityInvalid
    | PostCutoverAcceptanceFailed
    | AcceptanceCommandInvalid
    | RollbackDirectoryUnsafe
    | RollbackReceiptMissing
    | RollbackReceiptMismatch
    | RollbackProbeRequired
    | RollbackDatabaseHeadAmbiguous
    | RollbackSchemaRefused(reason: Lineage.Error)
    | RollbackRetryRequired
    | RollbackAcceptanceFailed
    | BackupReceiptInvalid
    | PreHeadMismatch
    | CommandFailed
    | CommandTimeout
    | PostHeadMismatch
    | StateAmbiguous(head: Lineage.Revision)

  ghost predicate Below(tokens: set<nat>, next: nat) {
    forall t :: t in tokens ==> t < next
  }

  ghost predicate PlacesBelow(places: set<Place>, next: nat) {
    forall p :: p in places && !p.Active? ==> p.token < next
  }

  // ---- what the journals and the lock look like as files ----

  datatype FileEntry = Missing | SymbolicLink | NotAFile | NotJson | NotAnObject | Object

  /** The files that inspect looks at. */
  datatype Directory = Directory(update: FileEntry, migration: FileEntry, locks: FileEntry, operationLock: FileEntry)

  datatype Problem =
    | JournalSymlink(kind: JournalKind)
    | JournalUnsafe(kind: JournalKind)
    | JournalInvalid(kind: JournalKind)
    | LockSymlink
    | LockInvalid

  function JournalOf(d: Directory, kind: JournalKind): FileEntry {
    match kind
    case ReleaseUpdate => d.update
    case DatabaseMigration => d.migration
    case DependencyLocks => d.locks
  }

  const KINDS: seq<JournalKind> := [ReleaseUpdate, DatabaseMigration, DependencyLocks]

  function Position(kind: JournalKind): (i: nat)
    ensures i < |KINDS| && KINDS[i] == kind
  {
    match kind
    case ReleaseUpdate => 0
    case DatabaseMigration => 1
    case DependencyLocks => 2
  }

  lemma EveryKind()
    ensures forall kind: JournalKind :: kind in KINDS
  {
    forall kind: JournalKind ensures kind in KINDS {
      assert KINDS[Position(kind)] == kind;
    }
  }

  function ProblemOf(kind: JournalKind, entry: FileEntry): seq<Problem> {
    match entry
    case SymbolicLink => [JournalSymlink(kind)]
    case NotAFile => [JournalUnsafe(kind)]
    case NotJson => [JournalInvalid(kind)]
    case _ => []
  }

  function LockProblem(entry: FileEntry): seq<Problem> {
    match entry
    case SymbolicLink => [LockSymlink]
    case NotJson => [LockInvalid]
    case NotAnObject => [LockInvalid]
    case _ => []
  }

  ghost function Present(d: Directory): set<JournalKind> {
    set kind | kind in KINDS && JournalOf(d, kind).Object?
  }

  /** inspect: the journals that are present, and what is wrong with the others or
      with the lock. A journal that is JSON but no object makes it raise. Two
      present journals are a problem of their own, which the caller below ignores. */
  method Inspect(d: Directory) returns (r: Result<(set<JournalKind>, seq<Problem>), Error>)
    ensures r.Err? <==> exists kind :: JournalOf(d, kind).NotAnObject?
    ensures r.Ok? ==> r.value.0 == Present(d)
    ensures r.Ok? ==>
              (r.value.1 == [] <==> (forall kind :: ProblemOf(kind, JournalOf(d, kind)) == []) && LockProblem(d.operationLock) == [])
    ensures r.Err? ==> r.error == JournalNotAnObject
  {
    var active: set<JournalKind>, problems: seq<Problem> := {}, [];
    for i := 0 to |KINDS|
      invariant active == set kind | kind in KINDS[..i] && JournalOf(d, kind).Object?
      invariant problems == [] <==> forall j :: 0 <= j < i ==> ProblemOf(KINDS[j], JournalOf(d, KINDS[j])) == []
      invariant forall j :: 0 <= j < i ==> !JournalOf(d, KINDS[j]).NotAnObject?
    {
      assert KINDS[..i + 1] == KINDS[..i] + [KINDS[i]];
      var entry := JournalOf(d, KINDS[i]);
      if entry.NotAnObject? {
        return Err(JournalNotAnObject);
      }
      problems := problems + ProblemOf(KINDS[i], entry);
      if entry.Object? {
        active := active + {KINDS[i]};
      }
    }
    assert KINDS[..|KINDS|] == KINDS;
    forall kind ensures !JournalOf(d, kind).NotAnObject? && (problems == [] ==> ProblemOf(kind, JournalOf(d, kind)) == []) {
      assert KINDS[Position(kind)] == kind;
    }
    r := Ok((active, problems + LockProblem(d.operationLock)));
  }

  /** Every journal is absent, or whole and allowed, and the lock is not broken. */
  ghost predicate NoConflict(d: Directory, allowed: set<JournalKind>) {
    && (forall kind :: JournalOf(d, kind).Missing? || (JournalOf(d, kind).Object? && kind in allowed))
    && LockProblem(d.operationLock) == []
  }

  /** assert_no_conflicting_journals: journals of a kind that is not allowed are
      named, all of them; else any damaged journal or lock is refused. */
  method AssertNoConflicts(d: Directory, allowed: set<JournalKind>) returns (o: Outcome<Error>)
    ensures o.Done? <==> NoConflict(d, allowed)
    ensures !o.Crashed?
    ensures o.Raised? ==>
              o.error == if exists kind :: JournalOf(d, kind).NotAnObject? then JournalNotAnObject
                         else if Present(d) <= allowed then TransactionStateInvalid
                         else TransactionConflict(Present(d) - allowed)
  {
    var r := Inspect(d);
    if r.Err? {
      return Raised(r.error);
    }
    var conflicts := r.value.0 - allowed;
    if conflicts != {} {
      var kind :| kind in conflicts;
      assert kind in Present(d) && kind !in allowed;
      return Raised(TransactionConflict(conflicts));
    }
    assert Present(d) <= allowed by {
      assert forall kind :: kind in Present(d) ==> kind in conflicts || kind in allowed;
    }
    EveryKind();
    o := if r.value.1 == [] then Done else Raised(TransactionStateInvalid);
  }

  class Host {
    const fate: nat -> Fate
    var clock: nat
    /** Tokens below this one have been handed out. */
    var nextToken: nat
    var trees: map<Place, Tree>
    var updateJournal: Option<UpdateJournal>
    var migrationJournal: Option<MigrationJournal>
    var dependencyLocksJournal: bool
    var acceptances: map<nat, AcceptanceReceipt>
    var rollbackReceipts: map<nat, RollbackReceipt>
    var migrationReceipts: map<nat, MigrationReceipt>
    var rollbackAcceptances: seq<Digest>
    var audit: seq<AuditEvent>
    var databaseHead: Lineage.Revision

    constructor (active: Tree, databaseHead: Lineage.Revision, fate: nat -> Fate)
      ensures Valid() && trees == map[Active := active] && this.databaseHead == databaseHead
      ensures updateJournal == None && migrationJournal == None && !dependencyLocksJournal && nextToken == 0
      ensures this.fate == fate && clock == 0
      ensures migrationReceipts == map[] && rollbackReceipts == map[]
    {
      this.fate, this.databaseHead := fate, databaseHead;
      clock, nextToken := 0, 0;
      trees := map[Active := active];
      updateJournal, migrationJournal, dependencyLocksJournal := None, None, false;
      acceptances, rollbackReceipts, migrationReceipts := map[], map[], map[];
      rollbackAcceptances, audit := [], [];
    }

    /** Every token in use has been handed out. */
    ghost predicate Valid()
      reads this
    {
      && PlacesBelow(trees.Keys, nextToken)
      && Below(rollbackReceipts.Keys, nextToken)
      && Below(acceptances.Keys, nextToken)
      && Below(migrationReceipts.Keys, nextToken)
      && (updateJournal.Some? ==> updateJournal.value.token < nextToken)
      && (migrationJournal.Some? ==> migrationJournal.value.transaction < nextToken)
    }

    /** uuid4: a token never seen before. */
    method FreshToken() returns (token: nat)
      modifies this`nextToken
      ensures token == old(nextToken) && nextToken == old(nextToken) + 1
    {
      token := nextToken;
      nextToken := nextToken + 1;
    }

    method Tick() returns (f: Fate)
      modifies this`clock
      ensures f == fate(old(clock)) && clock == old(clock) + 1
    {
      f := fate(clock);
      clock := clock + 1;
    }

    /** A step that changes nothing modelled here: extraction and its cleanup. */
    method OtherStep() returns (o: Outcome<Error>)
      modifies this`clock
      ensures o == Verdict(fate(old(clock)), OsError) && clock == old(clock) + 1
    {
      var f := Tick();
      o := Verdict(f, OsError);
    }

    /** os.replace of one directory name by another. */
    method Rename(source: Place, target: Place) returns (o: Outcome<Error>)
      modifies this`clock, this`trees
      ensures clock == old(clock) + 1
      ensures o == if fate(old(clock)) == Works && (source !in old(trees) || target in old(trees))
                   then Raised(OsError) else Verdict(fate(old(clock)), OsError)
      ensures o.Done? ==> source in old(trees) && target !in old(trees)
                          && trees == old(trees)[target := old(trees)[source]] - {source}
      ensures !o.Done? ==> trees == old(trees)
    {
      var f := Tick();
      if f == Works {
        if source !in trees || target in trees {
          return Raised(OsError);
        }
        trees := trees[target := trees[source]] - {source};
      }
      o := Verdict(f, OsError);
    }

    /** The extracted project appears under the candidate's name. */
    method PlaceCandidate(token: nat, tree: Tree) returns (o: Outcome<Error>)
      modifies this`clock, this`trees
      ensures o == Verdict(fate(old(clock)), OsError) && clock == old(clock) + 1
      ensures trees == if o.Done? then old(trees)[Candidate(token) := tree] else old(trees)
    {
      var f := Tick();
      if f == Works {
        trees := trees[Candidate(token) := tree];
      }
      o := Verdict(f, OsError);
    }

    /** rmtree with ignored errors: it never raises, but may leave anything of
        the tree behind. */
    method RemoveTree(place: Place) returns (o: Outcome<Error>)
      modifies this`clock, this`trees
      ensures o == (if fate(old(clock)) == Dies then Crashed else Done) && clock == old(clock) + 1
      ensures trees.Keys <= old(trees).Keys && SameBut(old(trees), trees, {place})
    {
      var f := Tick();
      if f == Works {
        trees := trees - {place};
      } else if place in trees {
        var left: Tree := *;
        trees := trees[place := left];
      }
      o := if f == Dies then Crashed else Done;
    }

    method WriteUpdateJournal(j: UpdateJournal) returns (o: Outcome<Error>)
      modifies this`clock, this`updateJournal
      ensures o == Verdict(fate(old(clock)), OsError) && clock == old(clock) + 1
      ensures updateJournal == if o.Done? then Some(j) else old(updateJournal)
    {
      var f := Tick();
      if f == Works {
        updateJournal := Some(j);
      }
      o := Verdict(f, OsError);
    }

    method UnlinkUpdateJournal() returns (o: Outcome<Error>)
      modifies this`clock, this`updateJournal
      ensures o == Verdict(fate(old(clock)), OsError) && clock == old(clock) + 1
      ensures updateJournal == if o.Done? then None else old(updateJournal)
    {
      var f := Tick();
      if f == Works {
        updateJournal := None;
      }
      o := Verdict(f, OsError);
    }

    method WriteMigrationJournal(j: MigrationJournal) returns (o: Outcome<Error>)
      modifies this`clock, this`migrationJournal
      ensures o == Verdict(fate(old(clock)), OsError) && clock == old(clock) + 1
      ensures migrationJournal == if o.Done? then Some(j) else old(migrationJournal)
    {
      var f := Tick();
      if f == Works {
        migrationJournal := Some(j);
      }
      o := Verdict(f, OsError);
    }

    method UnlinkMigrationJournal() returns (o: Outcome<Error>)
      modifies this`clock, this`migrationJournal
      ensures o == Verdict(fate(old(clock)), OsError) && clock == old(clock) + 1
      ensures migrationJournal == if o.Done? then None else old(migrationJournal)
    {
      var f := Tick();
      if f == Works {
        migrationJournal := None;
      }
      o := Verdict(f, OsError);
    }

    method WriteMigrationReceipt(r: MigrationReceipt) returns (o: Outcome<Error>)
      modifies this`clock, this`migrationReceipts
      ensures o == Verdict(fate(old(clock)), OsError) && clock == old(clock) + 1
      ensures migrationReceipts ==
              if o.Done? then old(migrationReceipts)[r.transaction := r] else old(migrationReceipts)
    {
      var f := Tick();
      if f == Works {
        migrationReceipts := migrationReceipts[r.transaction := r];
      }
      o := Verdict(f, OsError);
    }

    method WriteAcceptance(r: AcceptanceReceipt) returns (o: Outcome<Error>)
      modifies this`clock, this`acceptances
      ensures o == Verdict(fate(old(clock)), OsError) && clock == old(clock) + 1
      ensures acceptances == if o.Done? then old(acceptances)[r.transaction := r] else old(acceptances)
    {
      var f := Tick();
      if f == Works {
        acceptances := acceptances[r.transaction := r];
      }
      o := Verdict(f, OsError);
    }

    method UnlinkAcceptance(token: nat) returns (o: Outcome<Error>)
      modifies this`clock, this`acceptances
      ensures o == Verdict(fate(old(clock)), OsError) && clock == old(clock) + 1
      ensures acceptances == if o.Done? then old(acceptances) - {token} else old(acceptances)
    {
      var f := Tick();
      if f == Works {
        acceptances := acceptances - {token};
      }
      o := Verdict(f, OsError);
    }

    method WriteRollbackReceipt(r: RollbackReceipt) returns (o: Outcome<Error>)
      modifies this`clock, this`rollbackReceipts
      ensures o == Verdict(fate(old(clock)), OsError) && clock == old(clock) + 1
      ensures rollbackReceipts == if o.Done? then old(rollbackReceipts)[r.backup := r] else old(rollbackReceipts)
    {
      var f := Tick();
      if f == Works {
        rollbackReceipts := rollbackReceipts[r.backup := r];
      }
      o := Verdict(f, OsError);
    }

    method UnlinkRollbackReceipt(token: nat) returns (o: Outcome<Error>)
      modifies this`clock, this`rollbackReceipts
      ensures o == Verdict(fate(old(clock)), OsError) && clock == old(clock) + 1
      ensures rollbackReceipts == if o.Done? then old(rollbackReceipts) - {token} else old(rollbackReceipts)
    {
      var f := Tick();
      if f == Works {
        rollbackReceipts := rollbackReceipts - {token};
      }
      o := Verdict(f, OsError);
    }

    method WriteRollbackAcceptance(active: Digest) returns (o: Outcome<Error>)
      modifies this`clock, this`rollbackAcceptances
      ensures o == Verdict(fate(old(clock)), OsError) && clock == old(clock) + 1
      ensures rollbackAcceptances == if o.Done? then old(rollbackAcceptances) + [active] else old(rollbackAcceptances)
    {
      var f := Tick();
      if f == Works {
        rollbackAcceptances := rollbackAcceptances + [active];
      }
      o := Verdict(f, OsError);
    }

    method AppendAudit(e: AuditEvent) returns (o: Outcome<Error>)
      modifies this`clock, this`audit
      ensures o == Verdict(fate(old(clock)), OsError) && clock == old(clock) + 1
      ensures audit == if o.Done? then old(audit) + [e] else old(audit)
    {
      var f := Tick();
      if f == Works {
        audit := audit + [e];
      }
      o := Verdict(f, OsError);
    }

    method ProbeDatabaseHead() returns (o: Outcome<Error>, head: Lineage.Revision)
      modifies this`clock
      ensures o == Verdict(fate(old(clock)), OsError) && clock == old(clock) + 1
      ensures o.Done? ==> head == databaseHead
    {
      var f := Tick();
      head := databaseHead;
      o := Verdict(f, OsError);
    }

    /** The migration command may leave any head behind, however it ends; it has
        stopped when this step is over. */
    method RunMigrationCommand(effect: Lineage.Revision, result: CommandResult) returns (o: Outcome<Error>)
      modifies this`clock, this`databaseHead
      ensures clock == old(clock) + 1 && databaseHead == effect
      ensures o == if fate(old(clock)) != Works then Verdict(fate(old(clock)), OsError)
                   else match result
                        case Succeeded => Done
                        case ExitCode(_) => Raised(CommandFailed)
                        case TimedOut => Raised(CommandTimeout)
    {
      var f := Tick();
      databaseHead := effect;
      if f != Works {
        return Verdict(f, OsError);
      }
      match result {
        case Succeeded => o := Done;
        case ExitCode(_) => o := Raised(CommandFailed);
        case TimedOut => o := Raised(CommandTimeout);
      }
    }

    function Journaled(kind: JournalKind): bool
      reads this
    {
      match kind
      case ReleaseUpdate => updateJournal.Some?
      case DatabaseMigration => migrationJournal.Some?
      case DependencyLocks => dependencyLocksJournal
    }

    /** The kinds of journal that are present. */
    ghost function JournalKinds(): set<JournalKind>
      reads this
    {
      set k | k in {ReleaseUpdate, DatabaseMigration, DependencyLocks} && Journaled(k)
    }

    /** The files, as the tools themselves leave them; the lock is held. */
    function Files(): Directory
      reads this
    {
      Directory(
        if updateJournal.Some? then Object else Missing,
        if migrationJournal.Some? then Object else Missing,
        if dependencyLocksJournal then Object else Missing,
        Object)
    }

    /** The check on the files of the host: it raises exactly when a journal of a
        kind that is not allowed is present, and names them all. */
    method AssertNoConflictingJournals(allowed: set<JournalKind>) returns (o: Outcome<Error>)
      ensures o == if JournalKinds() <= allowed then Done else Raised(TransactionConflict(JournalKinds() - allowed))
    {
      EveryKind();
      assert Present(Files()) == JournalKinds();
      o := AssertNoConflicts(Files(), allowed);
    }

    /** Never two mutation journals of the release and the database at once. */
    ghost predicate AtMostOneJournal()
      reads this
    {
      !(updateJournal.Some? && migrationJournal.Some?)
    }
  }
}
