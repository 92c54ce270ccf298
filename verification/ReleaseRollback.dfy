/** Rolling the last update back to its retained tree
    (scripts/transactional_release_update.py). No journal is written here. */
module ReleaseRollback {
  import opened Base
  import opened DeploymentState
  import opened ReleaseUpdate
  import Lineage

  /** _alembic_head: the one unreferenced revision of a tree. */
  function AlembicHead(tree: Tree): Result<Lineage.Revision, Lineage.Error> {
    var heads := Lineage.Heads(tree.schema.revisions);
    if tree.schema.revisions == map[] then Err(Lineage.RevisionsMissing)
    else if !Lineage.Single(heads) then Err(Lineage.HeadAmbiguous(heads))
    else Ok(Lineage.TheOnly(heads))
  }

  /** _verify_rollback_receipt */
  function VerifiedReceipt(
    rollbacks: map<nat, RollbackReceipt>, acceptances: map<nat, AcceptanceReceipt>, backup: nat, tree: Tree)
    : Result<RollbackReceipt, Error>
  {
    if backup !in rollbacks then Err(RollbackReceiptMissing)
    else
      var r := rollbacks[backup];
      var acceptance := r.acceptance.transaction;
      if r.backup != backup || r.backupTree != Sha256(tree) then Err(RollbackReceiptMismatch)
      else if acceptance !in acceptances || acceptances[acceptance] != r.acceptance then Err(RollbackReceiptMismatch)
      else Ok(r)
  }

  /** The old code can run on the database: it is at the old head, or at the new
      head and every revision in between is marked compatible with the previous
      release. */
  ghost predicate DatabaseAllows(head: Lineage.Revision, active: Tree, rollback: Tree) {
    var oldHead, newHead := AlembicHead(rollback), AlembicHead(active);
    && oldHead.Ok? && newHead.Ok?
    && (head == oldHead.value ||
        (head == newHead.value &&
         Lineage.CompatiblePath(active.schema, oldHead.value, newHead.value)))
  }

  /** A plan from the old tree to the new one is what DatabaseAllows asks for. */
  lemma PlanAllows(active: Tree, rollback: Tree)
    requires AlembicHead(rollback).Ok? && AlembicHead(active).Ok?
    requires Lineage.CompareReleaseMigrations(rollback.schema, active.schema).Ok?
    ensures DatabaseAllows(AlembicHead(active).value, active, rollback)
  {
    var plan := Lineage.CompareReleaseMigrations(rollback.schema, active.schema).value;
    Lineage.PlanMeaning(rollback.schema, active.schema, plan);
    HeadOfSchema(active);
    HeadOfSchema(rollback);
  }

  /** For well-formed trees it can be checked by the two heads and the plan. */
  lemma DatabaseAllowsExactly(head: Lineage.Revision, active: Tree, rollback: Tree)
    requires Lineage.SchemaHead(active.schema).Ok? && Lineage.SchemaHead(rollback.schema).Ok?
    ensures DatabaseAllows(head, active, rollback) <==>
              || AlembicHead(rollback) == Ok(head)
              || (AlembicHead(active) == Ok(head) && Lineage.CompareReleaseMigrations(rollback.schema, active.schema).Ok?)
  {
    HeadOfSchema(active);
    HeadOfSchema(rollback);
    Lineage.PlanIffCompatiblePath(rollback.schema, active.schema);
  }

  lemma HeadOfSchema(tree: Tree)
    requires Lineage.SchemaHead(tree.schema).Ok?
    ensures AlembicHead(tree) == Ok(Lineage.SchemaHead(tree.schema).value)
  {
  }

  /** After an update without a migration it comes down to the head alone; the
      rollback does not look at it. */
  lemma UnboundUpdateAllows(
    receipts: map<nat, MigrationReceipt>, before: Tree, after: Tree, acceptance: Acceptance, head: Lineage.Revision)
    requires Acceptable(receipts, before, after, None, acceptance)
    ensures DatabaseAllows(head, after, before) <==> AlembicHead(after) == Ok(head)
  {
    var plan := Lineage.CompareReleaseMigrations(before.schema, after.schema).value;
    PlannedHeads(before, after, plan);
    Lineage.PlanMeaning(before.schema, after.schema, plan);
    DatabaseAllowsExactly(head, after, before);
  }

  /** An older backup is safe to return to when only one update with a migration
      came after its own, and the database is where that update left it. */
  lemma OlderBackupAllowed(
    receipts: map<nat, MigrationReceipt>, a: Tree, b: Tree, c: Tree, receipt: Option<nat>, first: Acceptance, second: Acceptance)
    requires Acceptable(receipts, a, b, None, first) && Acceptable(receipts, b, c, receipt, second)
    ensures AlembicHead(c).Ok? && DatabaseAllows(AlembicHead(c).value, c, a)
  {
    var ab := Lineage.CompareReleaseMigrations(a.schema, b.schema).value;
    var bc := Lineage.CompareReleaseMigrations(b.schema, c.schema).value;
    PlannedHeads(a, b, ab);
    PlannedHeads(b, c, bc);
    Lineage.PlanMeaning(a.schema, b.schema, ab);
    Lineage.PlanMeaning(b.schema, c.schema, bc);
    DatabaseAllowsExactly(bc.toHead, c, a);
    assert Lineage.CompareReleaseMigrations(a.schema, c.schema).Ok?;
  }

  /** The compatibility check passes. */
  ghost predicate ProbeAccepts(receipt: RollbackReceipt, head: Lineage.Revision, active: Tree, rollback: Tree, probeGiven: bool) {
    || receipt.acceptance.migration.None?
    || (AlembicHead(rollback).Ok? && AlembicHead(active).Ok? && probeGiven
        && (head == AlembicHead(rollback).value
            || (head == AlembicHead(active).value
                && Lineage.CompareReleaseMigrations(rollback.schema, active.schema).Ok?)))
  }

  /** The step after the check: with a bound migration it takes one, the probe. */
  function RenameAt(unbound: bool, c: nat): nat {
    if unbound then c else c + 1
  }

  /** _verify_rollback_database_compatibility */
  method VerifyDatabaseCompatibility(h: Host, active: Tree, rollback: Tree, receipt: RollbackReceipt, probeGiven: bool)
    returns (o: Outcome<Error>)
    modifies h`clock
    ensures o.Done? <==>
              && ProbeAccepts(receipt, h.databaseHead, active, rollback, probeGiven)
              && (receipt.acceptance.migration.None? || h.fate(old(h.clock)) == Works)
    ensures o.Done? ==> h.clock == RenameAt(receipt.acceptance.migration.None?, old(h.clock))
    ensures o != Raised(RollbackAcceptanceFailed)
    ensures h.clock >= old(h.clock)
  {
    if receipt.acceptance.migration.None? {
      return Done;
    }
    var oldHead, newHead := AlembicHead(rollback), AlembicHead(active);
    if oldHead.Err? {
      return Raised(RollbackSchemaRefused(oldHead.error));
    }
    if newHead.Err? {
      return Raised(RollbackSchemaRefused(newHead.error));
    }
    if !probeGiven {
      return Raised(RollbackProbeRequired);
    }
    var observed;
    o, observed := h.ProbeDatabaseHead();
    if !o.Done? || observed == oldHead.value {
      return;
    }
    if observed != newHead.value {
      return Raised(RollbackDatabaseHeadAmbiguous);
    }
    var plan := Lineage.CompareReleaseMigrations(rollback.schema, active.schema);
    if plan.Err? {
      return Raised(RollbackSchemaRefused(plan.error));
    }
  }

  /** Both trees are still there, under two different names. */
  ghost predicate BothKept(trees: Trees, active: Tree, rollback: Tree) {
    exists p, q :: p in trees && q in trees && p != q && trees[p] == active && trees[q] == rollback
  }

  /** Of the two trees one is active, or none. */
  ghost predicate ActiveIsEither(trees: Trees, active: Tree, rollback: Tree) {
    Active in trees ==> trees[Active] == active || trees[Active] == rollback
  }

  lemma BothKeptInPlace(trees: Trees, backup: nat)
    ensures Active in trees && Backup(backup) in trees ==> BothKept(trees, trees[Active], trees[Backup(backup)])
  {
    var p, q := Active, Backup(backup);
    if p in trees && q in trees {
      assert p != q && trees[p] == trees[Active] && trees[q] == trees[Backup(backup)];
    }
  }

  /** Between the first rename, at step c, and the second one: killed, or the second
      one raises and the undo of the first does not work. */
  ghost predicate LostInExchange(fate: nat -> Fate, c: nat) {
    fate(c) == Works && (fate(c + 1) == Dies || (fate(c + 1) == Raises && fate(c + 2) != Works))
  }

  /** Undoing a rejected exchange stops after its first rename. */
  ghost predicate LostInRevert(fate: nat -> Fate, c: nat) {
    fate(c) == Works && fate(c + 1) != Works
  }

  /** An exchange whose first rename is step c leaves no active tree. */
  ghost predicate LosesActive(fate: nat -> Fate, c: nat, rejected: bool) {
    LostInExchange(fate, c) || (WorksUntil(fate, c, c + 2) && rejected && LostInRevert(fate, c + 2))
  }

  /** Killed at the second of two steps. */
  ghost predicate KilledBetween(fate: nat -> Fate, c: nat) {
    fate(c) == Works && fate(c + 1) == Dies
  }

  /** The two renames; if the second one raises, the first is undone. */
  method ExchangeTrees(h: Host, backup: nat, failed: nat) returns (o: Outcome<Error>)
    requires h.Valid() && failed < h.nextToken && Failed(failed) !in h.trees
    requires Active in h.trees && Backup(backup) in h.trees
    modifies h`clock, h`trees
    ensures h.Valid()
    ensures o.Done? ==> h.trees == old(h.trees)[Failed(failed) := old(h.trees)[Active]][Active := old(h.trees)[Backup(backup)]]
                                   - {Backup(backup)}
    ensures !o.Done? ==> h.trees == old(h.trees) || h.trees == MovedAside(old(h.trees), failed)
    ensures o.Raised? ==> o.error == OsError
    ensures h.clock >= old(h.clock)
    ensures o.Done? <==> WorksUntil(h.fate, old(h.clock), old(h.clock) + 2)
    ensures o.Done? ==> h.clock == old(h.clock) + 2
    ensures Active !in h.trees <==> LostInExchange(h.fate, old(h.clock))
    ensures KilledBetween(h.fate, old(h.clock)) ==> o.Crashed?
  {
    o := h.Rename(Active, Failed(failed));
    if o.Done? {
      o := BringHome(h, backup, failed, old(h.trees));
    }
  }

  /** The second rename, with the undo of the first. */
  method BringHome(h: Host, backup: nat, failed: nat, ghost before: Trees) returns (o: Outcome<Error>)
    requires h.Valid() && failed < h.nextToken && Failed(failed) !in before && Active in before && Backup(backup) in before
    requires h.trees == MovedAside(before, failed)
    modifies h`clock, h`trees
    ensures h.Valid() && h.clock > old(h.clock)
    ensures o.Done? <==> h.fate(old(h.clock)) == Works
    ensures if o.Done? then h.clock == old(h.clock) + 1 && h.trees == MovedAside(before, failed)[Active := before[Backup(backup)]] - {Backup(backup)}
            else h.trees == before || h.trees == MovedAside(before, failed)
    ensures Active !in h.trees <==>
              h.fate(old(h.clock)) == Dies || (h.fate(old(h.clock)) == Raises && h.fate(old(h.clock) + 1) != Works)
    ensures o.Raised? ==> o.error == OsError
    ensures h.fate(old(h.clock)) == Dies ==> o.Crashed?
  {
    o := h.Rename(Backup(backup), Active);
    if o.Raised? {
      var back := h.Rename(Failed(failed), Active);
      if !back.Done? {
        o := back;
      }
    }
  }

  function MovedAside(trees: Trees, failed: nat): Trees
    requires Active in trees
  {
    trees[Failed(failed) := trees[Active]] - {Active}
  }

  /** Both trees are there, and if there is an active tree it is one of them. */
  ghost predicate EitherOf(trees: Trees, active: Tree, rollback: Tree) {
    BothKept(trees, active, rollback) && ActiveIsEither(trees, active, rollback)
  }

  lemma MovedAsideKeepsBoth(trees: Trees, backup: nat, failed: nat)
    requires Active in trees && Backup(backup) in trees && Failed(failed) !in trees
    ensures EitherOf(trees, trees[Active], trees[Backup(backup)])
    ensures EitherOf(MovedAside(trees, failed), trees[Active], trees[Backup(backup)])
  {
    BothKeptInPlace(trees, backup);
    var moved := MovedAside(trees, failed);
    assert moved[Failed(failed)] == trees[Active] && moved[Backup(backup)] == trees[Backup(backup)];
  }

  /** Undo an exchange that was not accepted. */
  method RevertExchange(h: Host, backup: nat, failed: nat) returns (o: Outcome<Error>)
    requires h.Valid() && backup < h.nextToken && Failed(failed) in h.trees && Active in h.trees && Backup(backup) !in h.trees
    modifies h`clock, h`trees
    ensures h.Valid() && !o.Done?
    ensures o == Raised(RollbackAcceptanceFailed) ==>
              h.trees == old(h.trees)[Backup(backup) := old(h.trees)[Active]][Active := old(h.trees)[Failed(failed)]]
                         - {Failed(failed)}
    ensures o != Raised(RollbackAcceptanceFailed) ==>
              h.trees == old(h.trees) || h.trees == old(h.trees)[Backup(backup) := old(h.trees)[Active]] - {Active}
    ensures h.clock >= old(h.clock) && (AllWork(h.fate, old(h.clock)) ==> o == Raised(RollbackAcceptanceFailed))
    ensures Active !in h.trees <==> LostInRevert(h.fate, old(h.clock))
  {
    o := h.Rename(Active, Backup(backup));
    if o.Done? {
      o := h.Rename(Failed(failed), Active);
    }
    if o.Done? {
      o := Raised(RollbackAcceptanceFailed);
    }
  }

  /** The receipt and the audit event; with the event the rollback is on record. */
  method RecordRollback(h: Host) returns (o: Outcome<Error>)
    requires Active in h.trees
    modifies h`clock, h`rollbackAcceptances, h`audit
    ensures h.audit == if o.Done? then old(h.audit) + [ReleaseRollbackAccepted(Sha256(h.trees[Active]))] else old(h.audit)
    ensures o.Raised? ==> o.error == OsError
    ensures h.clock >= old(h.clock) && (AllWork(h.fate, old(h.clock)) ==> o.Done?)
  {
    var digest := Sha256(h.trees[Active]);
    o := h.WriteRollbackAcceptance(digest);
    if o.Done? {
      o := h.AppendAudit(ReleaseRollbackAccepted(digest));
    }
  }

  /** The replaced tree and the receipts of the undone update go. */
  method DropSuperseded(h: Host, receipt: RollbackReceipt, failed: nat) returns (o: Outcome<Error>)
    requires h.Valid()
    modifies h`clock, h`trees, h`acceptances, h`rollbackReceipts
    ensures h.Valid() && KeptAt(old(h.trees), h.trees, Active) && KeptAt(old(h.trees), h.trees, Backup(receipt.backup))
    ensures VouchFor(old(h.rollbackReceipts), h.rollbackReceipts, None)
    ensures o.Done? ==> receipt.backup !in h.rollbackReceipts
    ensures o.Raised? ==> o.error == OsError
    ensures AllWork(h.fate, old(h.clock)) ==> o.Done?
  {
    o := h.RemoveTree(Failed(failed));
    if o.Done? {
      o := h.UnlinkRollbackReceipt(receipt.backup);
    }
    if o.Done? {
      o := h.UnlinkAcceptance(receipt.acceptance.transaction);
    }
  }

  /** If the update came with a migration, the database allows the old code. */
  ghost predicate DatabaseChecked(receipt: RollbackReceipt, head: Lineage.Revision, active: Tree, rollback: Tree) {
    receipt.acceptance.migration.Some? ==> DatabaseAllows(head, active, rollback)
  }

  /** A check of the database for a receipt, a head, and the two trees. */
  type Check = (RollbackReceipt, Lineage.Revision, Tree, Tree) -> bool

  ghost function CheckOf(probeGiven: bool): Check {
    (receipt, head, active, rollback) => ProbeAccepts(receipt, head, active, rollback, probeGiven)
  }

  ghost predicate Decides(check: Check, probeGiven: bool) {
    forall receipt, head, active, rollback {:trigger ProbeAccepts(receipt, head, active, rollback, probeGiven)} ::
      check(receipt, head, active, rollback) <==> ProbeAccepts(receipt, head, active, rollback, probeGiven)
  }

  /** Everything that is checked before any tree is moved is in order. */
  ghost predicate ReadyFor(h: Host, backup: nat, check: Check)
    reads h
  {
    && Active in h.trees && Backup(backup) in h.trees && h.JournalKinds() <= {ReleaseUpdate}
    && var verified := VerifiedReceipt(h.rollbackReceipts, h.acceptances, backup, h.trees[Backup(backup)]);
       verified.Ok? && check(verified.value, h.databaseHead, h.trees[Active], h.trees[Backup(backup)])
  }

  ghost predicate RollbackReady(h: Host, backup: nat, probeGiven: bool)
    reads h
  {
    ReadyFor(h, backup, CheckOf(probeGiven))
  }

  /** The update of this backup came without a migration. */
  ghost predicate Unbound(h: Host, backup: nat)
    reads h
  {
    backup in h.rollbackReceipts && h.rollbackReceipts[backup].acceptance.migration.None?
  }

  /** What a ready rollback means for the database. */
  lemma ReadyIsChecked(receipt: RollbackReceipt, head: Lineage.Revision, active: Tree, rollback: Tree, probeGiven: bool)
    requires ProbeAccepts(receipt, head, active, rollback, probeGiven)
    ensures DatabaseChecked(receipt, head, active, rollback)
  {
    if receipt.acceptance.migration.Some? && head != AlembicHead(rollback).value {
      PlanAllows(active, rollback);
    }
  }

  /** What is checked before any tree is moved. */
  method Precheck(h: Host, backup: nat, probeGiven: bool, ghost check: Check)
    returns (o: Outcome<Error>, receipt: Option<RollbackReceipt>)
    requires h.Valid() && Decides(check, probeGiven)
    modifies h`clock
    ensures o.Done? ==>
              && Active in h.trees && Backup(backup) in h.trees && h.migrationJournal.None? && !h.dependencyLocksJournal
              && receipt.Some? && receipt.value.backup == backup
              && VerifiedReceipt(h.rollbackReceipts, h.acceptances, backup, h.trees[Backup(backup)]) == Ok(receipt.value)
    ensures Active !in h.trees ==> o == Raised(ActiveDirectoryUnsafe)
    ensures o != Raised(RollbackAcceptanceFailed)
    ensures h.clock >= old(h.clock)
    ensures var ready := ReadyFor(h, backup, check);
            && (o.Done? <==> ready && (Unbound(h, backup) || h.fate(old(h.clock)) == Works))
            && (o.Done? ==> h.clock == RenameAt(Unbound(h, backup), old(h.clock)))
  {
    receipt := None;
    if Active !in h.trees {
      return Raised(ActiveDirectoryUnsafe), None;
    }
    o := h.AssertNoConflictingJournals({ReleaseUpdate});
    if !o.Done? {
      return;
    }
    assert h.migrationJournal.None? && !h.dependencyLocksJournal by {
      assert DatabaseMigration !in h.JournalKinds() && DependencyLocks !in h.JournalKinds();
    }
    if Backup(backup) !in h.trees {
      return Raised(RollbackDirectoryUnsafe), None;
    }
    var verified := VerifiedReceipt(h.rollbackReceipts, h.acceptances, backup, h.trees[Backup(backup)]);
    if verified.Err? {
      return Raised(verified.error), None;
    }
    receipt := Some(verified.value);
    o := VerifyDatabaseCompatibility(h, h.trees[Active], h.trees[Backup(backup)], verified.value, probeGiven);
  }

  /** The rollback's own acceptance command, if there is one, accepts the tree. */
  ghost predicate Tolerable(tree: Tree, acceptance: Acceptance) {
    acceptance == NoCommand || Judge(tree, acceptance) == Ok(true)
  }

  /** It rejects the tree. */
  ghost predicate Rejected(tree: Tree, acceptance: Acceptance) {
    acceptance != NoCommand && Judge(tree, acceptance) == Ok(false)
  }

  /** The acceptance of the exchanged tree; a rejection undoes the exchange. */
  method JudgeExchange(h: Host, backup: nat, failed: nat, acceptance: Acceptance, ghost before: Trees) returns (o: Outcome<Error>)
    requires h.Valid() && backup < h.nextToken && Active in before && Backup(backup) in before && Failed(failed) !in before
    requires h.trees == before[Failed(failed) := before[Active]][Active := before[Backup(backup)]] - {Backup(backup)}
    modifies h`clock, h`trees
    ensures h.Valid()
    ensures o.Done? ==> h.trees == old(h.trees)
    ensures o == Raised(RollbackAcceptanceFailed) ==> h.trees == before
    ensures ActiveIsEither(h.trees, before[Active], before[Backup(backup)])
    ensures h.clock >= old(h.clock) && (o.Done? <==> Tolerable(before[Backup(backup)], acceptance))
    ensures Active !in h.trees <==> Rejected(before[Backup(backup)], acceptance) && LostInRevert(h.fate, old(h.clock))
    ensures BothKept(h.trees, before[Active], before[Backup(backup)])
  {
    assert h.trees[Failed(failed)] == before[Active] && h.trees[Active] == before[Backup(backup)];
    o := Done;
    if acceptance != NoCommand {
      var judged := Judge(h.trees[Active], acceptance);
      if judged.Err? {
        return Raised(judged.error);
      }
      if !judged.value {
        o := RevertExchange(h, backup, failed);
        if Backup(backup) in h.trees {
          assert h.trees[if Active in h.trees then Active else Failed(failed)] == before[Active];
          assert h.trees[Backup(backup)] == before[Backup(backup)];
        }
        assert o == Raised(RollbackAcceptanceFailed) ==> h.trees == before;
      }
    }
  }

  /** The exchange of the trees, its acceptance and its record. */
  method Exchange(h: Host, receipt: RollbackReceipt, acceptance: Acceptance) returns (o: Outcome<Error>)
    requires h.Valid() && Active in h.trees && Backup(receipt.backup) in h.trees
    modifies h`clock, h`nextToken, h`trees, h`acceptances, h`rollbackReceipts, h`rollbackAcceptances, h`audit
    ensures h.Valid()
    ensures o.Done? ==>
              && Active in h.trees && h.trees[Active] == old(h.trees)[Backup(receipt.backup)]
              && Backup(receipt.backup) !in h.trees && receipt.backup !in h.rollbackReceipts
              && h.audit == old(h.audit) + [ReleaseRollbackAccepted(Sha256(h.trees[Active]))]
    ensures o == Raised(RollbackAcceptanceFailed) ==> h.trees == old(h.trees) && h.audit == old(h.audit)
    ensures VouchFor(old(h.rollbackReceipts), h.rollbackReceipts, None)
    ensures o.Done? ==> Tolerable(old(h.trees)[Backup(receipt.backup)], acceptance)
    ensures AllWork(h.fate, old(h.clock)) && Tolerable(old(h.trees)[Backup(receipt.backup)], acceptance) ==> o.Done?
    ensures Active !in h.trees <==>
              LosesActive(h.fate, old(h.clock), Rejected(old(h.trees)[Backup(receipt.backup)], acceptance))
    ensures KilledBetween(h.fate, old(h.clock)) ==> o.Crashed?
    ensures ActiveIsEither(h.trees, old(h.trees)[Active], old(h.trees)[Backup(receipt.backup)])
    ensures BothKept(h.trees, old(h.trees)[Active], old(h.trees)[Backup(receipt.backup)])
            || RolledBack(h.trees, h.audit, old(h.trees)[Backup(receipt.backup)], old(h.audit))
  {
    ghost var before := h.trees;
    var failed := h.FreshToken();
    MovedAsideKeepsBoth(before, receipt.backup, failed);
    o := ExchangeTrees(h, receipt.backup, failed);
    if o.Done? {
      o := JudgeExchange(h, receipt.backup, failed, acceptance, before);
      if o.Done? {
        o := Conclude(h, receipt, failed);
      }
    }
  }

  /** The record, then the cleaning up. */
  method Conclude(h: Host, receipt: RollbackReceipt, failed: nat) returns (o: Outcome<Error>)
    requires h.Valid() && Active in h.trees && Backup(receipt.backup) !in h.trees
    modifies h`clock, h`trees, h`acceptances, h`rollbackReceipts, h`rollbackAcceptances, h`audit
    ensures h.Valid() && Active in h.trees && h.trees[Active] == old(h.trees)[Active] && Backup(receipt.backup) !in h.trees
    ensures o.Done? ==> receipt.backup !in h.rollbackReceipts
    ensures VouchFor(old(h.rollbackReceipts), h.rollbackReceipts, None)
    ensures if h.audit == old(h.audit) then !o.Done? && h.trees == old(h.trees)
            else h.audit == old(h.audit) + [ReleaseRollbackAccepted(Sha256(h.trees[Active]))]
    ensures o.Raised? ==> o.error == OsError
    ensures AllWork(h.fate, old(h.clock)) ==> o.Done?
  {
    o := RecordRollback(h);
    if o.Done? {
      o := DropSuperseded(h, receipt, failed);
    }
  }

  /** The old tree is active and the audit log says so. */
  ghost predicate RolledBack(trees: Trees, audit: seq<AuditEvent>, rollback: Tree, earlier: seq<AuditEvent>) {
    Active in trees && trees[Active] == rollback && audit == earlier + [ReleaseRollbackAccepted(Sha256(rollback))]
  }

  /** A rollback that finds an update journal only recovers the update. */
  method RecoverInstead(h: Host) returns (o: Outcome<Error>)
    requires h.Valid() && Recoverable(h) && h.updateJournal.Some?
    modifies h`clock, h`nextToken, h`trees, h`updateJournal, h`rollbackReceipts
    ensures h.Valid() && Recoverable(h) && InForce(h) == old(InForce(h))
    ensures !o.Done? && o != Raised(RollbackAcceptanceFailed)
    ensures VouchFor(old(h.rollbackReceipts), h.rollbackReceipts, None)
  {
    o := RecoverIncompleteUpdate(h);
    if o.Done? {
      o := Raised(RollbackRetryRequired);
    }
  }

  /** The release in force becomes the one that the receipt vouches for; it is
      lost only if the rollback does not return. */
  ghost predicate RestoresReceipt(
    after: Option<Tree>, before: Option<Tree>, receipts: Rollbacks, backup: nat, o: Outcome<Error>)
  {
    && before.Some?
    && (after.None? ==> !o.Done?)
    && (after.Some? ==> backup in receipts && after.value == receipts[backup].backupTree.tree)
  }

  /** What a rollback of the given tree over the given one has done. */
  ghost predicate Restored(trees: Trees, audit: seq<AuditEvent>, backup: nat, rollback: Tree, earlier: seq<AuditEvent>) {
    RolledBack(trees, audit, rollback, earlier) && Backup(backup) !in trees
  }

  /** After the checks: the exchange, or the recovery of a pending update. */
  method ExchangeOrRecover(h: Host, receipt: RollbackReceipt, acceptance: Acceptance) returns (o: Outcome<Error>)
    requires h.Valid() && Recoverable(h) && h.migrationJournal.None?
    requires Active in h.trees && Backup(receipt.backup) in h.trees && receipt.backup in h.rollbackReceipts
    requires h.rollbackReceipts[receipt.backup].backupTree.tree == h.trees[Backup(receipt.backup)]
    modifies h`clock, h`nextToken, h`trees, h`updateJournal, h`acceptances, h`rollbackReceipts, h`rollbackAcceptances, h`audit
    ensures h.Valid() && Recoverable(h)
    ensures var rollback := old(h.trees)[Backup(receipt.backup)];
            && (o.Done? ==>
                  old(h.updateJournal.None?) && Restored(h.trees, h.audit, receipt.backup, rollback, old(h.audit)) && Tolerable(rollback, acceptance))
            && (AllWork(h.fate, old(h.clock)) && old(h.updateJournal.None?) && Tolerable(rollback, acceptance) ==> o.Done?)
            && (old(h.updateJournal.None?) ==>
                  || BothKept(h.trees, old(h.trees)[Active], rollback)
                  || RolledBack(h.trees, h.audit, rollback, old(h.audit)))
    ensures old(h.updateJournal.None?) ==>
              && (Active !in h.trees <==>
                  LosesActive(h.fate, old(h.clock), Rejected(old(h.trees)[Backup(receipt.backup)], acceptance)))
              && (KilledBetween(h.fate, old(h.clock)) ==> o.Crashed?)
    ensures o == Raised(RollbackAcceptanceFailed) ==> h.trees == old(h.trees) && h.audit == old(h.audit)
    ensures if old(h.updateJournal.Some?) then !o.Done? && InForce(h) == old(InForce(h)) else h.updateJournal.None?
    ensures VouchFor(old(h.rollbackReceipts), h.rollbackReceipts, None)
    ensures InForce(h) == old(InForce(h)) || RestoresReceipt(InForce(h), old(InForce(h)), old(h.rollbackReceipts), receipt.backup, o)
  {
    if h.updateJournal.Some? {
      o := RecoverInstead(h);
    } else {
      o := Exchange(h, receipt, acceptance);
    }
  }

  /** When a rollback leaves no active tree: there was none, or everything was ready
      and the database answered, and the exchange loses it. */
  ghost predicate LosesTree(before: Option<Tree>, exchanges: bool, fate: nat -> Fate, c: nat, rejected: bool) {
    before.None? || (exchanges && LosesActive(fate, c, rejected))
  }

  /** The rollback, for any way to say when the database check passes. */
  method RollbackIf(h: Host, backup: nat, probeGiven: bool, acceptance: Acceptance, ghost check: Check) returns (o: Outcome<Error>)
    requires h.Valid() && Recoverable(h) && h.AtMostOneJournal() && Decides(check, probeGiven)
    modifies h`clock, h`nextToken, h`trees, h`updateJournal, h`acceptances, h`rollbackReceipts, h`rollbackAcceptances, h`audit
    ensures h.Valid() && Recoverable(h) && h.AtMostOneJournal()
    ensures o.Done? ==>
              && old(Active in h.trees && Backup(backup) in h.trees && h.updateJournal.None? && backup in h.rollbackReceipts)
              && Restored(h.trees, h.audit, backup, old(h.trees)[Backup(backup)], old(h.audit))
              && Tolerable(old(h.trees)[Backup(backup)], acceptance)
    ensures var ready := old(ReadyFor(h, backup, check));
            && (o.Done? ==> ready)
            && (ready && old(h.updateJournal.None?) && AllWork(h.fate, old(h.clock)) ==>
                  (Tolerable(old(h.trees)[Backup(backup)], acceptance) ==> o.Done?))
            && var c := RenameAt(old(Unbound(h, backup)), old(h.clock));
               var exchanges := ready && old(h.updateJournal.None?) && (old(Unbound(h, backup)) || h.fate(old(h.clock)) == Works);
               && (InForce(h).None? <==>
                   LosesTree(old(InForce(h)), exchanges, h.fate, c, exchanges && Rejected(old(h.trees)[Backup(backup)], acceptance)))
               && (exchanges && KilledBetween(h.fate, c) ==> o.Crashed?)
    ensures o == Raised(RollbackAcceptanceFailed) ==> h.trees == old(h.trees) && h.audit == old(h.audit)
    ensures old(h.updateJournal.Some?) ==> !o.Done? && InForce(h) == old(InForce(h))
    ensures old(h.updateJournal.None?) ==> h.updateJournal.None?
    ensures VouchFor(old(h.rollbackReceipts), h.rollbackReceipts, None)
    ensures InForce(h) == old(InForce(h)) || RestoresReceipt(InForce(h), old(InForce(h)), old(h.rollbackReceipts), backup, o)
    ensures old(h.updateJournal.None? && Active in h.trees && Backup(backup) in h.trees) ==>
              || BothKept(h.trees, old(h.trees)[Active], old(h.trees)[Backup(backup)])
              || RolledBack(h.trees, h.audit, old(h.trees)[Backup(backup)], old(h.audit))
  {
    var receipt;
    BothKeptInPlace(h.trees, backup);
    o, receipt := Precheck(h, backup, probeGiven, check);
    if o.Done? {
      o := ExchangeOrRecover(h, receipt.value, acceptance);
    }
  }

  /** rollback_last_update under the operation lock. */
  method RollbackLastUpdate(h: Host, backup: nat, probeGiven: bool, acceptance: Acceptance) returns (o: Outcome<Error>)
    requires h.Valid() && Recoverable(h) && h.AtMostOneJournal()
    modifies h`clock, h`nextToken, h`trees, h`updateJournal, h`acceptances, h`rollbackReceipts, h`rollbackAcceptances, h`audit
    ensures h.Valid() && Recoverable(h) && h.AtMostOneJournal()
    ensures o.Done? ==>
              && old(Active in h.trees && Backup(backup) in h.trees && h.updateJournal.None? && backup in h.rollbackReceipts)
              && Restored(h.trees, h.audit, backup, old(h.trees)[Backup(backup)], old(h.audit))
              && Tolerable(old(h.trees)[Backup(backup)], acceptance)
    ensures var ready := old(RollbackReady(h, backup, probeGiven));
            && (o.Done? ==> ready)
            && (ready && old(h.updateJournal.None?) && AllWork(h.fate, old(h.clock)) ==>
                  (Tolerable(old(h.trees)[Backup(backup)], acceptance) ==> o.Done?))
            && var c := RenameAt(old(Unbound(h, backup)), old(h.clock));
               var exchanges := ready && old(h.updateJournal.None?) && (old(Unbound(h, backup)) || h.fate(old(h.clock)) == Works);
               && (InForce(h).None? <==>
                   LosesTree(old(InForce(h)), exchanges, h.fate, c, exchanges && Rejected(old(h.trees)[Backup(backup)], acceptance)))
               && (exchanges && KilledBetween(h.fate, c) ==> o.Crashed?)
    ensures o == Raised(RollbackAcceptanceFailed) ==> h.trees == old(h.trees) && h.audit == old(h.audit)
    ensures old(h.updateJournal.Some?) ==> !o.Done? && InForce(h) == old(InForce(h))
    ensures old(h.updateJournal.None?) ==> h.updateJournal.None?
    ensures VouchFor(old(h.rollbackReceipts), h.rollbackReceipts, None)
    ensures InForce(h) == old(InForce(h)) || RestoresReceipt(InForce(h), old(InForce(h)), old(h.rollbackReceipts), backup, o)
    ensures old(h.updateJournal.None? && Active in h.trees && Backup(backup) in h.trees) ==>
              || BothKept(h.trees, old(h.trees)[Active], old(h.trees)[Backup(backup)])
              || RolledBack(h.trees, h.audit, old(h.trees)[Backup(backup)], old(h.audit))
  {
    o := RollbackIf(h, backup, probeGiven, acceptance, CheckOf(probeGiven));
  }

  /** An update followed by the rollback of its backup is the identity on the
      active tree. */
  method UpdateThenRollback(h: Host, package: Option<Tree>, receipt: Option<nat>, acceptance: Acceptance,
                            probeGiven: bool, rollbackAcceptance: Acceptance)
    returns (updated: Outcome<Error>, rolledBack: Outcome<Error>)
    requires h.Valid() && Recoverable(h) && h.AtMostOneJournal()
    modifies h`clock, h`nextToken, h`trees, h`updateJournal, h`acceptances, h`rollbackReceipts, h`rollbackAcceptances, h`audit
    ensures updated.Done? && rolledBack.Done? ==> InForce(h) == old(InForce(h)) && h.updateJournal.None?
    ensures updated.Done? && rolledBack == Raised(RollbackAcceptanceFailed) ==>
              package.Some? && InForce(h) == Some(package.value)
    ensures updated.Done? && rolledBack.Done? && receipt.Some? ==>
              package.Some? && old(InForce(h)).Some? && DatabaseAllows(h.databaseHead, package.value, old(InForce(h)).value)
  {
    var token;
    ghost var bound;
    updated, token, bound := UpdateWithReceipt(h, package, receipt, acceptance);
    rolledBack := updated;
    if updated.Done? {
      ghost var head := h.databaseHead;
      rolledBack := RollbackLastUpdate(h, token, probeGiven, rollbackAcceptance);
      if rolledBack.Done? {
        ReadyIsChecked(bound.value, head, package.value, old(InForce(h)).value, probeGiven);
      }
    }
  }

  /** An update, with the receipt that vouches for its backup. */
  method UpdateWithReceipt(h: Host, package: Option<Tree>, receipt: Option<nat>, acceptance: Acceptance)
    returns (updated: Outcome<Error>, token: nat, ghost bound: Option<RollbackReceipt>)
    requires h.Valid() && Recoverable(h) && h.AtMostOneJournal()
    modifies h`clock, h`nextToken, h`trees, h`updateJournal, h`acceptances, h`rollbackReceipts, h`audit
    ensures h.Valid() && Recoverable(h) && h.AtMostOneJournal()
    ensures updated.Done? ==>
              && package.Some? && old(InForce(h)).Some?
              && CutOver(h.trees, h.updateJournal, token, old(InForce(h)).value, package.value)
              && token in h.rollbackReceipts && bound == Some(h.rollbackReceipts[token])
              && (bound.value.acceptance.migration.Some? <==> receipt.Some?)
  {
    updated, token := ApplyUpdate(h, package, receipt, acceptance);
    bound := if updated.Done? then Some(h.rollbackReceipts[token]) else None;
    if updated.Done? {
      ReceiptIsBound(h.migrationReceipts, old(InForce(h)).value, package.value, receipt);
    }
  }

  /** An update brings a migration receipt exactly if it is given one. */
  lemma ReceiptIsBound(receipts: map<nat, MigrationReceipt>, before: Tree, after: Tree, receipt: Option<nat>)
    ensures var authorized := Authorized(receipts, before, after, receipt);
            authorized.Ok? ==> (authorized.value.Some? <==> receipt.Some?)
  {
  }

  /** The two heads that the plan between two trees names. */
  ghost predicate AtEitherHead(head: Lineage.Revision, before: Tree, after: Tree) {
    var plan := Lineage.CompareReleaseMigrations(before.schema, after.schema);
    plan.Ok? && (head == plan.value.fromHead || head == plan.value.toHead)
  }

  /** Without system errors an admissible update succeeds, and its rollback
      succeeds exactly if its own acceptance command tolerates the old tree and,
      for an update with a migration, a probe is given and finds the database at
      one of the two heads of the plan. */
  method UpdateThenRollbackSucceeds(
    h: Host, package: Option<Tree>, receipt: Option<nat>, acceptance: Acceptance, probeGiven: bool, rollbackAcceptance: Acceptance)
    returns (updated: Outcome<Error>, rolledBack: Outcome<Error>)
    requires h.Valid() && Recoverable(h) && h.AtMostOneJournal() && Ready(h) && AllWork(h.fate, h.clock)
    requires Admissible(h.migrationReceipts, InForce(h), package, receipt, acceptance)
    modifies h`clock, h`nextToken, h`trees, h`updateJournal, h`acceptances, h`rollbackReceipts, h`rollbackAcceptances, h`audit
    ensures updated.Done?
    ensures var before := old(InForce(h)).value;
            rolledBack.Done? <==>
              && Tolerable(before, rollbackAcceptance)
              && (receipt.Some? ==> probeGiven && AtEitherHead(h.databaseHead, before, package.value))
    ensures rolledBack.Done? ==> InForce(h) == old(InForce(h))
  {
    var token;
    updated, token := UpdateQuietly(h, package, receipt, acceptance, probeGiven);
    rolledBack := RollbackLastUpdate(h, token, probeGiven, rollbackAcceptance);
  }

  /** An admissible update without system errors, and when it can be rolled back. */
  method UpdateQuietly(h: Host, package: Option<Tree>, receipt: Option<nat>, acceptance: Acceptance, ghost probeGiven: bool)
    returns (updated: Outcome<Error>, token: nat)
    requires h.Valid() && Recoverable(h) && h.AtMostOneJournal() && Ready(h) && AllWork(h.fate, h.clock)
    requires Admissible(h.migrationReceipts, InForce(h), package, receipt, acceptance)
    modifies h`clock, h`nextToken, h`trees, h`updateJournal, h`acceptances, h`rollbackReceipts, h`audit
    ensures h.Valid() && Recoverable(h) && h.AtMostOneJournal() && AllWork(h.fate, h.clock)
    ensures updated.Done? && CutOver(h.trees, h.updateJournal, token, old(InForce(h)).value, package.value)
    ensures RollbackReady(h, token, probeGiven) <==>
              receipt.Some? ==> probeGiven && AtEitherHead(h.databaseHead, old(InForce(h)).value, package.value)
  {
    updated, token := UpdateAdmissible(h, package, receipt, acceptance);
    UpdatedIsReady(h, token, old(InForce(h)), package, receipt, acceptance, probeGiven);
  }

  method UpdateAdmissible(h: Host, package: Option<Tree>, receipt: Option<nat>, acceptance: Acceptance)
    returns (updated: Outcome<Error>, token: nat)
    requires h.Valid() && Recoverable(h) && h.AtMostOneJournal() && Ready(h) && AllWork(h.fate, h.clock)
    requires Admissible(h.migrationReceipts, InForce(h), package, receipt, acceptance)
    modifies h`clock, h`nextToken, h`trees, h`updateJournal, h`acceptances, h`rollbackReceipts, h`audit
    ensures h.Valid() && Recoverable(h) && h.AtMostOneJournal() && AllWork(h.fate, h.clock)
    ensures updated.Done? && Replaced(h, old(h.migrationReceipts), token, old(InForce(h)), package, receipt, acceptance)
    ensures h.JournalKinds() <= {ReleaseUpdate}
  {
    updated, token := ApplyUpdate(h, package, receipt, acceptance);
  }

  /** When what an update leaves behind can be rolled back. */
  lemma UpdatedIsReady(
    h: Host, token: nat, before: Option<Tree>, package: Option<Tree>, receipt: Option<nat>, acceptance: Acceptance, probeGiven: bool)
    requires Replaced(h, h.migrationReceipts, token, before, package, receipt, acceptance) && h.JournalKinds() <= {ReleaseUpdate}
    ensures RollbackReady(h, token, probeGiven) <==>
              receipt.Some? ==> probeGiven && AtEitherHead(h.databaseHead, before.value, package.value)
  {
    var migration := Authorized(h.migrationReceipts, before.value, package.value, receipt).value;
    ReceiptIsBound(h.migrationReceipts, before.value, package.value, receipt);
    AuthorizedIsPlanned(h.migrationReceipts, before.value, package.value, receipt);
    var acceptance' := AcceptanceReceipt(token, Sha256(before.value), Sha256(package.value), migration);
    ProbeOfPlan(RollbackReceipt(token, Sha256(before.value), acceptance'), h.databaseHead, before.value, package.value, probeGiven);
  }

  lemma AuthorizedIsPlanned(receipts: map<nat, MigrationReceipt>, before: Tree, after: Tree, receipt: Option<nat>)
    requires Authorized(receipts, before, after, receipt).Ok?
    ensures Lineage.CompareReleaseMigrations(before.schema, after.schema).Ok?
  {
  }

  /** The check of a rollback that goes back over one plan. */
  lemma ProbeOfPlan(receipt: RollbackReceipt, head: Lineage.Revision, before: Tree, after: Tree, probeGiven: bool)
    requires Lineage.CompareReleaseMigrations(before.schema, after.schema).Ok?
    ensures ProbeAccepts(receipt, head, after, before, probeGiven) <==>
              receipt.acceptance.migration.Some? ==> probeGiven && AtEitherHead(head, before, after)
  {
    PlannedHeads(before, after, Lineage.CompareReleaseMigrations(before.schema, after.schema).value);
  }

  /** A plan names the heads that the compatibility check looks for. */
  lemma PlannedHeads(before: Tree, after: Tree, plan: Lineage.Plan)
    requires Lineage.CompareReleaseMigrations(before.schema, after.schema) == Ok(plan)
    ensures AlembicHead(before) == Ok(plan.fromHead) && AlembicHead(after) == Ok(plan.toHead)
  {
    Lineage.PlanMeaning(before.schema, after.schema, plan);
    HeadOfSchema(before);
    HeadOfSchema(after);
  }

  /** Without an active tree an update refuses to start. */
  method UpdateWithoutActive(h: Host, package: Option<Tree>, receipt: Option<nat>) returns (update: Outcome<Error>)
    requires h.Valid() && Recoverable(h) && h.AtMostOneJournal() && Active !in h.trees
    modifies h`clock, h`nextToken, h`trees, h`updateJournal, h`acceptances, h`rollbackReceipts, h`audit
    ensures update == Raised(ActiveDirectoryUnsafe) && h.trees == old(h.trees) && InForce(h) == old(InForce(h))
  {
    var token;
    update, token := ApplyUpdate(h, package, receipt, NoCommand);
  }
}
