/** The release cutover and its rollback by directory renames
    (scripts/transactional_release_update.py). */
module ReleaseUpdate {
  import opened Base
  import opened DeploymentState
  import Lineage

  /** How the optional acceptance command ends. */
  datatype Acceptance = NoCommand | CommandPasses | CommandFails | CommandInvalid

  // ---- what the directory means ----

  type Trees = map<Place, Tree>

  /** While a journal is present some copy of the pre-update tree is in reach:
      as the backup, or still (or again) as the active tree. */
  ghost predicate RecoverableFrom(trees: Trees, journal: Option<UpdateJournal>) {
    journal.Some? ==>
      && (Active in trees || Backup(journal.value.token) in trees)
      && (journal.value.status == Prepared ==> !(Active in trees && Backup(journal.value.token) in trees))
  }

  ghost predicate Recoverable(h: Host)
    reads h
  {
    RecoverableFrom(h.trees, h.updateJournal)
  }

  /** The journal says that active was moved away, but no backup is left: the
      recovery refuses to touch this. */
  ghost predicate Wedged(h: Host)
    reads h
  {
    && h.updateJournal.Some?
    && h.updateJournal.value.status != Prepared
    && Backup(h.updateJournal.value.token) !in h.trees
  }

  /** The release in force: the active tree, or, while a journal is present and
      its backup exists, the backup. None: there is no active tree and no journal. */
  ghost function ReleaseOf(trees: Trees, journal: Option<UpdateJournal>): Option<Tree> {
    if journal.Some? && Backup(journal.value.token) in trees then Some(trees[Backup(journal.value.token)])
    else if Active in trees then Some(trees[Active])
    else None
  }

  ghost function InForce(h: Host): Option<Tree>
    reads h
  {
    ReleaseOf(h.trees, h.updateJournal)
  }

  /** Nothing but the active tree, the journaled backup and candidate, and
      trees parked as failed differs. */
  ghost predicate OtherTreesKept(before: Trees, after: Trees, token: nat) {
    forall p: Place :: p != Active && p != Backup(token) && p != Candidate(token) && !p.Failed? ==>
      (p in before <==> p in after) && (p in before && p in after ==> before[p] == after[p])
  }

  type Rollbacks = map<nat, RollbackReceipt>

  /** No rollback receipt is new or changed, except that new ones vouch for the
      given tree. */
  ghost predicate VouchFor(before: Rollbacks, after: Rollbacks, tree: Option<Tree>) {
    forall t :: t in after ==> (t in before && before[t] == after[t]) || Some(after[t].backupTree.tree) == tree
  }

  lemma OthersStayKept(a: Trees, b: Trees, c: Trees, token: nat)
    requires OtherTreesKept(a, b, token) && OtherTreesKept(b, c, token)
    ensures OtherTreesKept(a, c, token)
  {
  }

  /** The active tree has been moved to the backup, and the journal says so. */
  ghost predicate MovedAway(h: Host)
    reads h
  {
    && h.updateJournal.Some? && h.updateJournal.value.status == ActiveMovedToBackup
    && Active !in h.trees && Backup(h.updateJournal.value.token) in h.trees
  }

  /** Killed at the rename that would promote the candidate, n steps after c. */
  ghost predicate KilledAtPromotion(fate: nat -> Fate, c: nat, n: nat) {
    WorksUntil(fate, c, c + n) && fate(c + n) == Dies
  }

  // ---- recovery ----

  /** The backup is renamed home: one rename, and one before it that parks the active
      tree if there is one. */
  ghost predicate ComesHome(fate: nat -> Fate, c: nat, active: bool) {
    fate(c) == Works && (active ==> fate(c + 1) == Works)
  }

  /** A parked tree is removed after that. */
  function RestoreSteps(active: bool): nat {
    if active then 3 else 1
  }

  /** The candidate's removal, if there is one, does not kill, and both unlinks work. */
  ghost predicate Discards(fate: nat -> Fate, c: nat, candidate: bool) {
    if candidate then fate(c) != Dies && fate(c + 1) == Works && fate(c + 2) == Works
    else fate(c) == Works && fate(c + 1) == Works
  }

  /** The backup comes home, and what should follow it does not come to its end. */
  ghost predicate LeavesWedge(fate: nat -> Fate, c: nat, active: bool, candidate: bool) {
    && ComesHome(fate, c, active)
    && ((active && fate(c + 2) == Dies) || !Discards(fate, c + RestoreSteps(active), candidate))
  }

  /** There is a backup to restore, and the journal says that active was moved away. */
  ghost predicate MayWedge(h: Host)
    reads h
  {
    && h.updateJournal.Some? && h.updateJournal.value.status != Prepared
    && Backup(h.updateJournal.value.token) in h.trees
  }

  /** Park the active tree and rename the backup in; if that second rename
      raises, the parked tree goes back. */
  method SwapInBackup(h: Host, token: nat, failed: nat) returns (o: Outcome<Error>)
    requires h.Valid() && failed < h.nextToken && Failed(failed) !in h.trees
    requires Active in h.trees && Backup(token) in h.trees
    modifies h`clock, h`trees
    ensures h.Valid() && SameBut(old(h.trees), h.trees, {Active, Backup(token), Failed(failed)})
    ensures OtherTreesKept(old(h.trees), h.trees, token) && KeptAt(old(h.trees), h.trees, Candidate(token))
    ensures if o.Done? then Active in h.trees && h.trees[Active] == old(h.trees)[Backup(token)] && Backup(token) !in h.trees
            else Backup(token) in h.trees && h.trees[Backup(token)] == old(h.trees)[Backup(token)]
    ensures o.Raised? ==> o.error == OsError
    ensures h.clock >= old(h.clock) && (o.Done? <==> ComesHome(h.fate, old(h.clock), true))
    ensures o.Done? ==> h.clock == old(h.clock) + 2
  {
    o := h.Rename(Active, Failed(failed));
    if o.Done? {
      o := h.Rename(Backup(token), Active);
      if o.Raised? {
        var back := h.Rename(Failed(failed), Active);
        if !back.Done? {
          o := back;
        }
      }
    }
  }

  /** Put the backup in place of whatever is active. */
  method RestoreBackup(h: Host, token: nat) returns (o: Outcome<Error>)
    requires h.Valid() && Recoverable(h) && h.updateJournal.Some? && h.updateJournal.value.token == token
    requires Backup(token) in h.trees
    modifies h`clock, h`nextToken, h`trees
    ensures h.Valid() && Recoverable(h) && InForce(h) == old(InForce(h))
    ensures OtherTreesKept(old(h.trees), h.trees, token) && KeptAt(old(h.trees), h.trees, Candidate(token))
    ensures o.Done? ==> Active in h.trees && Backup(token) !in h.trees
    ensures o.Raised? ==> o.error == OsError && Backup(token) in h.trees
    ensures h.clock >= old(h.clock) && (o.Done? ==> h.clock == old(h.clock) + RestoreSteps(old(Active in h.trees)))
    ensures Backup(token) !in h.trees <==> ComesHome(h.fate, old(h.clock), old(Active in h.trees))
    ensures o.Done? <==>
              ComesHome(h.fate, old(h.clock), old(Active in h.trees)) && (old(Active in h.trees) ==> h.fate(old(h.clock) + 2) != Dies)
  {
    if Active in h.trees {
      o := ReplaceActive(h, token);
    } else {
      o := h.Rename(Backup(token), Active);
    }
  }

  /** The active tree is parked, and removed once the backup is home. */
  method ReplaceActive(h: Host, token: nat) returns (o: Outcome<Error>)
    requires h.Valid() && Active in h.trees && Backup(token) in h.trees
    modifies h`clock, h`nextToken, h`trees
    ensures h.Valid() && OtherTreesKept(old(h.trees), h.trees, token) && KeptAt(old(h.trees), h.trees, Candidate(token))
    ensures if ComesHome(h.fate, old(h.clock), true)
            then Active in h.trees && h.trees[Active] == old(h.trees)[Backup(token)] && Backup(token) !in h.trees
            else !o.Done? && Backup(token) in h.trees && h.trees[Backup(token)] == old(h.trees)[Backup(token)]
    ensures o.Raised? ==> o.error == OsError && Backup(token) in h.trees
    ensures h.clock >= old(h.clock) && (o.Done? ==> h.clock == old(h.clock) + 3)
    ensures ComesHome(h.fate, old(h.clock), true) ==> (o.Done? <==> h.fate(old(h.clock) + 2) != Dies)
  {
    ghost var before := h.trees;
    var failed := h.FreshToken();
    o := SwapInBackup(h, token, failed);
    ghost var swapped := h.trees;
    if o.Done? {
      o := RemoveParked(h, token, failed);
    }
    OthersStayKept(before, swapped, h.trees, token);
  }

  /** rmtree of the parked tree. */
  method RemoveParked(h: Host, token: nat, failed: nat) returns (o: Outcome<Error>)
    requires h.Valid()
    modifies h`clock, h`trees
    ensures h.Valid() && OtherTreesKept(old(h.trees), h.trees, token)
    ensures KeptAt(old(h.trees), h.trees, Active) && KeptAt(old(h.trees), h.trees, Backup(token))
    ensures KeptAt(old(h.trees), h.trees, Candidate(token))
    ensures o == (if h.fate(old(h.clock)) == Dies then Crashed else Done) && h.clock == old(h.clock) + 1
  {
    o := h.RemoveTree(Failed(failed));
  }

  /** recover_incomplete_update. A recovery that runs to its end leaves the
      release in force active; apart from failing system calls it refuses
      exactly the wedged states, in which that release is active already. */
  method RecoverIncompleteUpdate(h: Host) returns (o: Outcome<Error>)
    requires h.Valid() && Recoverable(h)
    modifies h`clock, h`nextToken, h`trees, h`updateJournal, h`rollbackReceipts
    ensures h.Valid() && Recoverable(h) && InForce(h) == old(InForce(h))
    ensures o.Done? ==> h.updateJournal.None?
    ensures h.updateJournal.None? || h.updateJournal == old(h.updateJournal)
    ensures old(h.updateJournal.None?) ==> o.Done? && h.trees == old(h.trees) && h.rollbackReceipts == old(h.rollbackReceipts)
    ensures old(h.updateJournal.Some?) && o.Done? ==> Active in h.trees && InForce(h) == Some(h.trees[Active])
    ensures old(h.updateJournal.Some?) ==> OtherTreesKept(old(h.trees), h.trees, old(h.updateJournal).value.token)
    ensures VouchFor(old(h.rollbackReceipts), h.rollbackReceipts, None)
    ensures o == Raised(UpdateBackupMissing) <==> old(Wedged(h))
    ensures old(Wedged(h)) ==> Wedged(h) && h.trees == old(h.trees) && Active in h.trees && InForce(h) == Some(h.trees[Active])
    ensures o.Raised? ==> o.error == OsError || o.error == UpdateBackupMissing
    ensures h.clock >= old(h.clock) && (AllWork(h.fate, old(h.clock)) ==> (o.Done? <==> !old(Wedged(h))))
    ensures old(h.updateJournal.None?) ==> h.clock == old(h.clock)
    ensures Wedged(h) <==>
              || old(Wedged(h))
              || (old(MayWedge(h)) &&
                  LeavesWedge(h.fate, old(h.clock), old(Active in h.trees), old(Candidate(h.updateJournal.value.token) in h.trees)))
    // killed when the backup is home
    ensures old(MovedAway(h)) && h.fate(old(h.clock)) == Works && h.fate(old(h.clock) + 1) == Dies ==>
              o.Crashed? && Wedged(h) && h.clock == old(h.clock) + 2
  {
    if h.updateJournal.None? {
      return Done;
    }
    var j := h.updateJournal.value;
    if Backup(j.token) !in h.trees && j.status != Prepared {
      return Raised(UpdateBackupMissing);
    }
    o := Done;
    if Backup(j.token) in h.trees {
      o := RestoreBackup(h, j.token);
    }
    if o.Done? {
      o := DiscardTransaction(h, j.token);
      if o.Done? && Active !in h.trees {
        o := Raised(ActiveDirectoryUnsafe);
      }
    }
  }

  /** The end of the recovery: candidate, rollback receipt and journal go. */
  method DiscardTransaction(h: Host, token: nat) returns (o: Outcome<Error>)
    requires h.Valid() && Recoverable(h) && h.updateJournal.Some? && h.updateJournal.value.token == token
    requires Active in h.trees && Backup(token) !in h.trees
    modifies h`clock, h`trees, h`updateJournal, h`rollbackReceipts
    ensures h.Valid() && SameBut(old(h.trees), h.trees, {Candidate(token)})
    ensures h.trees.Keys <= old(h.trees).Keys
    ensures h.updateJournal == if o.Done? then None else old(h.updateJournal)
    ensures VouchFor(old(h.rollbackReceipts), h.rollbackReceipts, None)
    ensures o.Raised? ==> o.error == OsError
    ensures h.clock >= old(h.clock) && (o.Done? <==> Discards(h.fate, old(h.clock), old(Candidate(token) in h.trees)))
    ensures h.fate(old(h.clock)) == Dies ==> o.Crashed? && h.clock == old(h.clock) + 1
  {
    if Candidate(token) in h.trees {
      o := h.RemoveTree(Candidate(token));
      if !o.Done? {
        return;
      }
    }
    o := h.UnlinkRollbackReceipt(token);
    if o.Done? {
      o := h.UnlinkUpdateJournal();
    }
  }

  // ---- update ----

  /** Everything that must hold of a package for its tree to be cut over. */
  ghost predicate Acceptable(
    receipts: map<nat, MigrationReceipt>, before: Tree, candidate: Tree, receipt: Option<nat>, acceptance: Acceptance)
  {
    && candidate.identityVerified && Judge(candidate, acceptance) == Ok(true)
    && Authorized(receipts, before, candidate, receipt).Ok?
  }

  /** The migration part: the verified receipt that an update with a new head
      needs, and that any other update must not bring. */
  function Authorized(receipts: map<nat, MigrationReceipt>, active: Tree, candidate: Tree, receipt: Option<nat>)
    : Result<Option<MigrationReceipt>, Error>
  {
    var plan := Lineage.CompareReleaseMigrations(active.schema, candidate.schema);
    if plan.Err? then Err(MigrationPlanRefused(plan.error))
    else if plan.value.required then
      if receipt.None? then Err(MigrationReceiptRequired)
      else if receipt.value !in receipts then Err(MigrationReceiptMissing)
      else
        var r := receipts[receipt.value];
        if r.activeTree != Sha256(active) || r.candidateTree != Sha256(candidate)
           || r.fromHead != plan.value.fromHead || r.toHead != plan.value.toHead || r.observedHead != plan.value.toHead
           || (candidate.commit.Some? && r.candidateCommit != candidate.commit)
        then Err(MigrationReceiptMismatch)
        else Ok(Some(r))
    else if receipt.Some? then Err(MigrationReceiptUnexpected)
    else Ok(None)
  }

  /** run_post_cutover_acceptance on the active tree. */
  function Judge(tree: Tree, acceptance: Acceptance): Result<bool, Error> {
    if !tree.bindingAccepted then Ok(false)
    else match acceptance
      case NoCommand => Ok(true)
      case CommandPasses => Ok(true)
      case CommandFails => Ok(false)
      case CommandInvalid => Err(AcceptanceCommandInvalid)
  }

  /** The first journaled rename: active becomes the backup. */
  method MoveActiveAway(h: Host, token: nat) returns (o: Outcome<Error>)
    requires h.Valid() && h.updateJournal.None? && token < h.nextToken
    requires Active in h.trees && Backup(token) !in h.trees
    modifies h`clock, h`trees, h`updateJournal
    ensures h.Valid() && Recoverable(h) && InForce(h) == old(InForce(h))
    ensures h.updateJournal.Some? ==> h.updateJournal.value.token == token
    ensures h.updateJournal.None? ==> !o.Done? && h.trees == old(h.trees)
    ensures o.Done? ==>
              && h.updateJournal == Some(UpdateJournal(ActiveMovedToBackup, token))
              && h.trees == old(h.trees)[Backup(token) := old(h.trees)[Active]] - {Active}
    ensures h.clock >= old(h.clock) && (o.Done? ==> h.clock == old(h.clock) + 3)
    ensures WorksUntil(h.fate, old(h.clock), old(h.clock) + 3) ==> o.Done?
  {
    o := h.WriteUpdateJournal(UpdateJournal(Prepared, token));
    if o.Done? {
      o := h.Rename(Active, Backup(token));
    }
    if o.Done? {
      o := h.WriteUpdateJournal(UpdateJournal(ActiveMovedToBackup, token));
    }
  }

  /** The journaled renames of the two trees. */
  method SwapTrees(h: Host, token: nat) returns (o: Outcome<Error>)
    requires h.Valid() && h.updateJournal.None? && token < h.nextToken
    requires Active in h.trees && Backup(token) !in h.trees && Candidate(token) in h.trees
    modifies h`clock, h`trees, h`updateJournal
    ensures h.Valid() && Recoverable(h) && InForce(h) == old(InForce(h))
    ensures h.updateJournal.Some? ==> h.updateJournal.value.token == token
    ensures h.updateJournal.None? ==> !o.Done? && h.trees == old(h.trees)
    ensures o.Done? ==>
              && h.updateJournal == Some(UpdateJournal(CandidatePromoted, token))
              && h.trees == old(h.trees)[Backup(token) := old(h.trees)[Active]][Active := old(h.trees)[Candidate(token)]]
                            - {Candidate(token)}
    ensures h.clock >= old(h.clock) && (o.Done? ==> h.clock == old(h.clock) + 5)
    ensures WorksUntil(h.fate, old(h.clock), old(h.clock) + 5) ==> o.Done?
    ensures KilledAtPromotion(h.fate, old(h.clock), 3) ==> o.Crashed? && MovedAway(h) && h.clock == old(h.clock) + 4
  {
    o := MoveActiveAway(h, token);
    if o.Done? {
      o := h.Rename(Candidate(token), Active);
    }
    if o.Done? {
      o := h.WriteUpdateJournal(UpdateJournal(CandidatePromoted, token));
    }
  }

  /** From the staged candidate to the journal unlink, which commits. */
  method Cutover(h: Host, token: nat, candidate: Tree, migration: Option<MigrationReceipt>, acceptance: Acceptance)
    returns (o: Outcome<Error>)
    requires h.Valid() && h.updateJournal.None? && token < h.nextToken
    requires Active in h.trees && Backup(token) !in h.trees
    requires Candidate(token) in h.trees && h.trees[Candidate(token)] == candidate
    modifies h`clock, h`trees, h`updateJournal, h`acceptances, h`rollbackReceipts, h`audit
    ensures h.Valid() && Recoverable(h)
    ensures h.updateJournal.Some? ==> h.updateJournal.value.token == token && !o.Done?
    ensures h.updateJournal.None? && !o.Done? ==> h.trees == old(h.trees)
    ensures !o.Done? ==> InForce(h) == old(InForce(h))
    ensures VouchFor(old(h.rollbackReceipts), h.rollbackReceipts, old(InForce(h)))
    ensures o.Done? ==>
              && candidate.identityVerified && Judge(candidate, acceptance) == Ok(true)
              && h.trees == old(h.trees)[Backup(token) := old(h.trees)[Active]][Active := candidate] - {Candidate(token)}
              && Recorded(h.acceptances, h.rollbackReceipts, token, old(h.trees)[Active], candidate, migration)
              && h.audit == old(h.audit) + [ReleaseUpdateAccepted(h.acceptances[token], Sha256(candidate))]
    ensures h.clock >= old(h.clock) && (o.Done? ==> h.clock == old(h.clock) + 9)
    ensures WorksUntil(h.fate, old(h.clock), old(h.clock) + 9) ==>
              (o.Done? <==> candidate.identityVerified && Judge(candidate, acceptance) == Ok(true))
    ensures KilledAtPromotion(h.fate, old(h.clock), 3) ==> o.Crashed? && MovedAway(h) && h.clock == old(h.clock) + 4
  {
    ghost var before := h.trees[Active];
    o := SwapTrees(h, token);
    if o.Done? {
      o := Accept(h, token, before, candidate, migration, acceptance);
    }
    if o.Done? {
      o := h.UnlinkUpdateJournal();
    }
  }

  /** The receipts of an accepted update name its two trees. */
  ghost predicate Recorded(
    acceptances: map<nat, AcceptanceReceipt>, rollbacks: map<nat, RollbackReceipt>,
    token: nat, before: Tree, after: Tree, migration: Option<MigrationReceipt>)
  {
    && token in acceptances
    && acceptances[token] == AcceptanceReceipt(token, Sha256(before), Sha256(after), migration)
    && token in rollbacks
    && rollbacks[token] == RollbackReceipt(token, Sha256(before), acceptances[token])
  }

  /** The checks on the promoted tree, its two receipts and the audit event. */
  method Accept(h: Host, token: nat, ghost before: Tree, candidate: Tree, migration: Option<MigrationReceipt>, acceptance: Acceptance)
    returns (o: Outcome<Error>)
    requires h.Valid() && token < h.nextToken
    requires Active in h.trees && h.trees[Active] == candidate && Backup(token) in h.trees && h.trees[Backup(token)] == before
    modifies h`clock, h`acceptances, h`rollbackReceipts, h`audit
    ensures h.Valid() && VouchFor(old(h.rollbackReceipts), h.rollbackReceipts, Some(before))
    ensures o.Done? ==>
              && candidate.identityVerified && Judge(candidate, acceptance) == Ok(true)
              && Recorded(h.acceptances, h.rollbackReceipts, token, before, candidate, migration)
              && h.audit == old(h.audit) + [ReleaseUpdateAccepted(h.acceptances[token], Sha256(candidate))]
    ensures h.clock >= old(h.clock) && (o.Done? ==> h.clock == old(h.clock) + 3)
    ensures WorksUntil(h.fate, old(h.clock), old(h.clock) + 3) ==>
              (o.Done? <==> candidate.identityVerified && Judge(candidate, acceptance) == Ok(true))
  {
    if !h.trees[Active].identityVerified {
      return Raised(PostCutoverIdentityInvalid);
    }
    var judged := Judge(h.trees[Active], acceptance);
    if judged.Err? {
      return Raised(judged.error);
    }
    if !judged.value {
      return Raised(PostCutoverAcceptanceFailed);
    }
    var before' := h.trees[Backup(token)];
    var receipt := AcceptanceReceipt(token, Sha256(before'), Sha256(h.trees[Active]), migration);
    o := h.WriteAcceptance(receipt);
    if !o.Done? {
      return;
    }
    o := h.WriteRollbackReceipt(RollbackReceipt(token, Sha256(before'), receipt));
    if !o.Done? {
      return;
    }
    o := h.AppendAudit(ReleaseUpdateAccepted(receipt, Sha256(h.trees[Active])));
  }

  /** The steps of an update that succeeds: two of the staging, five of the renames
      and their journal, three of the records, the journal unlink and the cleanup. */
  const UPDATE_STEPS: nat := 12

  /** The verdict of the checks on a package, with the migration receipt if the
      update needs one. */
  type Admission = Result<Option<MigrationReceipt>, Error>

  function Admit(receipts: map<nat, MigrationReceipt>, active: Tree, package: Option<Tree>, receipt: Option<nat>): Admission {
    if package.None? then Err(SourcePackageInvalid)
    else if !package.value.identityVerified then Err(CandidateIdentityInvalid)
    else Authorized(receipts, active, package.value, receipt)
  }

  ghost predicate IsVerdictOn(admission: Admission, package: Option<Tree>) {
    (package.None? <==> admission == Err(SourcePackageInvalid)) && (admission.Ok? ==> package.value.identityVerified)
  }

  /** Extract the package to the candidate's place and check it. */
  method Stage(h: Host, token: nat, package: Option<Tree>, admission: Admission)
    returns (o: Outcome<Error>, migration: Option<MigrationReceipt>)
    requires h.Valid() && token < h.nextToken && Active in h.trees && Candidate(token) !in h.trees
    requires IsVerdictOn(admission, package)
    modifies h`clock, h`trees
    ensures h.Valid() && SameBut(old(h.trees), h.trees, {Candidate(token)})
    ensures h.clock >= old(h.clock)
    ensures o.Done? ==> admission == Ok(migration) && h.trees == old(h.trees)[Candidate(token) := package.value]
    ensures WorksUntil(h.fate, old(h.clock), old(h.clock) + 2) ==> (o.Done? <==> admission.Ok?)
    ensures o.Done? ==> h.clock == old(h.clock) + 2
  {
    migration := None;
    o := h.OtherStep();
    if o.Done? && package.Some? {
      o := h.PlaceCandidate(token, package.value);
    }
    if o.Done? {
      if admission.Err? {
        return Raised(admission.error), None;
      }
      migration := admission.value;
    }
  }

  /** What a committed update leaves behind: the two trees, and the grounds, with the
      migration receipts that it went by, and receipts for the exchange. */
  ghost predicate Updated(
    h: Host, receipts: map<nat, MigrationReceipt>, token: nat, before: Tree, package: Option<Tree>, receipt: Option<nat>,
    acceptance: Acceptance)
    reads h
  {
    && package.Some?
    && CutOver(h.trees, h.updateJournal, token, before, package.value)
    && Justified(receipts, h.acceptances, h.rollbackReceipts, token, before, package.value, receipt, acceptance)
  }

  ghost predicate Justified(
    receipts: map<nat, MigrationReceipt>, acceptances: map<nat, AcceptanceReceipt>, rollbacks: map<nat, RollbackReceipt>,
    token: nat, before: Tree, after: Tree, receipt: Option<nat>, acceptance: Acceptance)
  {
    && Acceptable(receipts, before, after, receipt, acceptance)
    && Recorded(acceptances, rollbacks, token, before, after, Authorized(receipts, before, after, receipt).value)
  }

  ghost predicate CutOver(trees: Trees, journal: Option<UpdateJournal>, token: nat, before: Tree, after: Tree) {
    && journal.None?
    && Active in trees && trees[Active] == after
    && Backup(token) in trees && trees[Backup(token)] == before
  }

  /** The same, for an update whose package was admitted with the given verdict. */
  ghost predicate UpdatedAs(
    h: Host, token: nat, before: Tree, package: Option<Tree>, admission: Admission, acceptance: Acceptance)
    reads h
  {
    && Passes(package, admission, acceptance)
    && CutOver(h.trees, h.updateJournal, token, before, package.value)
    && Recorded(h.acceptances, h.rollbackReceipts, token, before, package.value, admission.value)
  }

  ghost predicate Passes(package: Option<Tree>, admission: Admission, acceptance: Acceptance) {
    package.Some? && admission.Ok? && Judge(package.value, acceptance) == Ok(true)
  }

  /** The body of the try block: stage the package, cut over. */
  method StageAndCutover(h: Host, token: nat, package: Option<Tree>, admission: Admission, acceptance: Acceptance)
    returns (o: Outcome<Error>)
    requires h.Valid() && h.updateJournal.None? && token < h.nextToken && IsVerdictOn(admission, package)
    requires Active in h.trees && Backup(token) !in h.trees && Candidate(token) !in h.trees
    modifies h`clock, h`trees, h`updateJournal, h`acceptances, h`rollbackReceipts, h`audit
    ensures h.Valid() && Recoverable(h)
    ensures !o.Done? ==> InForce(h) == old(InForce(h))
    ensures VouchFor(old(h.rollbackReceipts), h.rollbackReceipts, old(InForce(h)))
    ensures o.Done? ==>
              && UpdatedAs(h, token, old(h.trees)[Active], package, admission, acceptance) && Candidate(token) !in h.trees
              && h.audit == old(h.audit) + [ReleaseUpdateAccepted(h.acceptances[token], Sha256(package.value))]
    ensures h.clock >= old(h.clock) && (o.Done? ==> h.clock == old(h.clock) + 11)
    ensures WorksUntil(h.fate, old(h.clock), old(h.clock) + 11) && Passes(package, admission, acceptance) ==> o.Done?
    ensures KilledAtPromotion(h.fate, old(h.clock), 5) && Passes(package, admission, acceptance) ==>
              o.Crashed? && MovedAway(h) && h.clock == old(h.clock) + 6
  {
    var migration;
    o, migration := Stage(h, token, package, admission);
    if o.Done? {
      o := Cutover(h, token, package.value, migration, acceptance);
    }
  }

  /** The whole try statement, on a directory without a journal. */
  method TryUpdate(h: Host, token: nat, package: Option<Tree>, admission: Admission, acceptance: Acceptance)
    returns (o: Outcome<Error>)
    requires h.Valid() && h.updateJournal.None? && token < h.nextToken && IsVerdictOn(admission, package)
    requires Active in h.trees && Backup(token) !in h.trees && Candidate(token) !in h.trees
    modifies h`clock, h`nextToken, h`trees, h`updateJournal, h`acceptances, h`rollbackReceipts, h`audit
    ensures h.Valid() && Recoverable(h)
    ensures VouchFor(old(h.rollbackReceipts), h.rollbackReceipts, old(InForce(h))) && h.clock >= old(h.clock)
    ensures o.Done? ==>
              && UpdatedAs(h, token, old(h.trees)[Active], package, admission, acceptance)
              && h.audit == old(h.audit) + [ReleaseUpdateAccepted(h.acceptances[token], Sha256(package.value))]
    ensures o.Raised? ==> InForce(h) == old(InForce(h))
    ensures o.Crashed? ==> InForce(h) == old(InForce(h))
                           || UpdatedAs(h, token, old(h.trees)[Active], package, admission, acceptance)
    ensures WorksUntil(h.fate, old(h.clock), old(h.clock) + UPDATE_STEPS) && Passes(package, admission, acceptance) ==>
              o.Done? && h.clock == old(h.clock) + UPDATE_STEPS
    ensures KilledAtPromotion(h.fate, old(h.clock), 5) && Passes(package, admission, acceptance) ==>
              o.Crashed? && MovedAway(h) && InForce(h) == old(InForce(h)) && h.clock == old(h.clock) + 6
  {
    o := StageAndCutover(h, token, package, admission, acceptance);
    if o.Raised? {
      o := HandleException(h, o);
    }
    if !o.Crashed? {
      var cleanup := CleanUp(h, token);
      if cleanup.Crashed? {
        o := cleanup;
      }
    }
  }

  /** The except block: recover if there is a journal; an exception of the
      recovery replaces the first one. */
  method HandleException(h: Host, raised: Outcome<Error>) returns (o: Outcome<Error>)
    requires h.Valid() && Recoverable(h) && raised.Raised?
    modifies h`clock, h`nextToken, h`trees, h`updateJournal, h`rollbackReceipts
    ensures h.Valid() && Recoverable(h) && InForce(h) == old(InForce(h)) && !o.Done?
    ensures VouchFor(old(h.rollbackReceipts), h.rollbackReceipts, None) && h.clock >= old(h.clock)
  {
    o := raised;
    if h.updateJournal.Some? {
      var recovery := RecoverIncompleteUpdate(h);
      if !recovery.Done? {
        o := recovery;
      }
    }
  }

  /** The release that was in force has been replaced by an update. */
  ghost predicate Replaced(
    h: Host, receipts: map<nat, MigrationReceipt>, token: nat, before: Option<Tree>, package: Option<Tree>, receipt: Option<nat>, acceptance: Acceptance)
    reads h
  {
    before.Some? && Updated(h, receipts, token, before.value, package, receipt, acceptance)
  }

  /** The directory admits an update: there is an active tree, no other journal,
      and no wedge. */
  ghost predicate Ready(h: Host)
    reads h
  {
    Active in h.trees && h.JournalKinds() <= {ReleaseUpdate} && !Wedged(h)
  }

  ghost predicate Admissible(
    receipts: map<nat, MigrationReceipt>, before: Option<Tree>, package: Option<Tree>, receipt: Option<nat>, acceptance: Acceptance)
  {
    before.Some? && package.Some? && Acceptable(receipts, before.value, package.value, receipt, acceptance)
  }

  /** What apply_update does before it takes a token. */
  method Preflight(h: Host) returns (o: Outcome<Error>)
    requires h.Valid() && Recoverable(h) && h.AtMostOneJournal()
    modifies h`clock, h`nextToken, h`trees, h`updateJournal, h`rollbackReceipts
    ensures h.Valid() && Recoverable(h) && h.AtMostOneJournal() && InForce(h) == old(InForce(h))
    ensures VouchFor(old(h.rollbackReceipts), h.rollbackReceipts, None)
    ensures o.Done? ==>
              && h.updateJournal.None? && h.migrationJournal.None? && Active in h.trees
              && InForce(h) == Some(h.trees[Active])
    ensures old(Active !in h.trees) ==> o == Raised(ActiveDirectoryUnsafe) && h.trees == old(h.trees)
    ensures old(Wedged(h)) ==> !o.Done? && Wedged(h) && h.trees == old(h.trees)
    ensures h.clock >= old(h.clock)
    ensures AllWork(h.fate, old(h.clock)) ==>
              (o.Done? <==> old(Ready(h)))
    ensures old(Ready(h)) && old(h.updateJournal.None?) ==> o.Done? && h.clock == old(h.clock)
  {
    if Active !in h.trees {
      return Raised(ActiveDirectoryUnsafe);
    }
    o := h.AssertNoConflictingJournals({ReleaseUpdate});
    if o.Done? {
      assert DatabaseMigration in h.JournalKinds() <==> h.migrationJournal.Some?;
      o := RecoverIncompleteUpdate(h);
    }
  }

  /** From the fresh token on. */
  method Transact(h: Host, package: Option<Tree>, receipt: Option<nat>, acceptance: Acceptance)
    returns (o: Outcome<Error>, token: nat)
    requires h.Valid() && h.updateJournal.None? && Active in h.trees
    modifies h`clock, h`nextToken, h`trees, h`updateJournal, h`acceptances, h`rollbackReceipts, h`audit
    ensures h.Valid() && Recoverable(h)
    ensures VouchFor(old(h.rollbackReceipts), h.rollbackReceipts, old(InForce(h))) && h.clock >= old(h.clock)
    ensures var receipts, before := old(h.migrationReceipts), old(InForce(h));
            && (o.Done? ==>
                  && Replaced(h, receipts, token, before, package, receipt, acceptance)
                  && h.audit == old(h.audit) + [ReleaseUpdateAccepted(h.acceptances[token], Sha256(package.value))])
            && (o.Raised? ==> InForce(h) == before)
            && (o.Crashed? ==> InForce(h) == before || Replaced(h, receipts, token, before, package, receipt, acceptance))
            && (Admissible(receipts, before, package, receipt, acceptance) ==>
                  && (WorksUntil(h.fate, old(h.clock), old(h.clock) + UPDATE_STEPS) ==> o.Done? && h.clock == old(h.clock) + UPDATE_STEPS)
                  && (KilledAtPromotion(h.fate, old(h.clock), 5) ==>
                        o.Crashed? && MovedAway(h) && InForce(h) == before && h.clock == old(h.clock) + 6))
  {
    token := h.FreshToken();
    // the receipts and the active tree stay the same until the package is checked
    var admission := Admit(h.migrationReceipts, h.trees[Active], package, receipt);
    o := TryUpdate(h, token, package, admission, acceptance);
  }

  /** apply_update under the operation lock. Whatever happens, the release in
      force stays the one before the call, or becomes the accepted candidate;
      it changes only together with the removal of the journal. */
  method ApplyUpdate(h: Host, package: Option<Tree>, receipt: Option<nat>, acceptance: Acceptance)
    returns (o: Outcome<Error>, token: nat)
    requires h.Valid() && Recoverable(h) && h.AtMostOneJournal()
    modifies h`clock, h`nextToken, h`trees, h`updateJournal, h`acceptances, h`rollbackReceipts, h`audit
    ensures h.Valid() && Recoverable(h) && h.AtMostOneJournal()
    ensures VouchFor(old(h.rollbackReceipts), h.rollbackReceipts, old(InForce(h))) && h.clock >= old(h.clock)
    ensures var receipts, before := old(h.migrationReceipts), old(InForce(h));
            && (o.Done? ==>
                  && Replaced(h, receipts, token, before, package, receipt, acceptance)
                  && h.audit == old(h.audit) + [ReleaseUpdateAccepted(h.acceptances[token], Sha256(package.value))])
            && (o.Raised? ==> InForce(h) == before)
            && (o.Crashed? ==> InForce(h) == before || Replaced(h, receipts, token, before, package, receipt, acceptance))
            && (old(Ready(h)) && AllWork(h.fate, old(h.clock)) ==>
                  (o.Done? <==> Admissible(receipts, before, package, receipt, acceptance)))
            && (old(Ready(h) && h.updateJournal.None?) && Admissible(receipts, before, package, receipt, acceptance) ==>
                  && (WorksUntil(h.fate, old(h.clock), old(h.clock) + UPDATE_STEPS) ==> o.Done? && h.clock == old(h.clock) + UPDATE_STEPS)
                  && (KilledAtPromotion(h.fate, old(h.clock), 5) ==>
                        o.Crashed? && MovedAway(h) && InForce(h) == before && h.clock == old(h.clock) + 6))
    ensures old(Active !in h.trees) ==> o == Raised(ActiveDirectoryUnsafe) && h.trees == old(h.trees)
    ensures old(Wedged(h)) ==> !o.Done? && Wedged(h) && h.trees == old(h.trees)
  {
    token := 0;
    o := Preflight(h);
    if o.Done? {
      o, token := Transact(h, package, receipt, acceptance);
    }
  }

  /** The finally block. */
  method CleanUp(h: Host, token: nat) returns (o: Outcome<Error>)
    requires h.Valid()
    modifies h`clock, h`trees
    ensures h.Valid() && InForce(h) == old(InForce(h)) && (old(Recoverable(h)) ==> Recoverable(h))
    ensures KeptAt(old(h.trees), h.trees, Active) && KeptAt(old(h.trees), h.trees, Backup(token))
    ensures !o.Raised? && h.clock >= old(h.clock) && (AllWork(h.fate, old(h.clock)) ==> o.Done?)
    ensures old(Candidate(token) !in h.trees) && h.fate(old(h.clock)) == Works ==> o.Done? && h.clock == old(h.clock) + 1
  {
    ghost var before := h.trees;
    o := h.OtherStep();
    if o.Raised? {
      o := Done;
    }
    if o.Done? && Candidate(token) in h.trees && h.updateJournal.None? {
      o := h.RemoveTree(Candidate(token));
    }
    assert SameBut(before, h.trees, {Candidate(token)});
  }

  ghost predicate KeptAt(a: Trees, b: Trees, p: Place) {
    (p in a <==> p in b) && (p in a && p in b ==> a[p] == b[p])
  }
}
