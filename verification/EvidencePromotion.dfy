/** The promotion of an evidence bundle: the canonical directory is swapped
    under a journal, and the append to the import ledger is the commit
    (scripts/external/acceptance_return_promotion.py). */
module EvidencePromotion {
  import opened Base
  import opened ImportLedger

  /** A directory: relative path -> file contents. */
  type Dir = map<string, string>

  /** Replacement and backup carry a prefix of the bundle's hash in their name. */
  datatype Place = Canonical | Replacement(prefix: string) | Backup(prefix: string)

  type Places = map<Place, Dir>

  datatype Status = Prepared | CanonicalSwapped | PostVerified | LedgerCommitted | Committed | RolledBack

  datatype JournalFile = NoJournal | InvalidJournal | Journal(status: Status, bundle: string)

  datatype Error = OsError | JournalInvalid | LedgerProblems | VerificationFailed

  function Prefix(bundle: string): string {
    if |bundle| <= 16 then bundle else bundle[..16]
  }

  function At(places: Places, place: Place): Option<Dir> {
    if place in places then Some(places[place]) else None
  }

  /** What stands in a place after its removal. */
  function Removal(places: Places, place: Place, f: Fate, left: Dir): Option<Dir> {
    if place !in places || f == Works then None else Some(left)
  }

  class Repository {
    const fate: nat -> Fate
    /** What a removal leaves behind when it fails at that step. */
    const remains: nat -> Dir
    var clock: nat
    var places: Places
    var journal: JournalFile
    var ledger: LedgerFile

    constructor (places: Places, ledger: LedgerFile, fate: nat -> Fate, remains: nat -> Dir)
      ensures this.places == places && journal == NoJournal && this.ledger == ledger && clock == 0
      ensures this.fate == fate && this.remains == remains
    {
      this.places, this.journal, this.ledger, clock := places, NoJournal, ledger, 0;
      this.fate, this.remains := fate, remains;
    }

    method Tick() returns (f: Fate)
      modifies this`clock
      ensures f == fate(old(clock)) && clock == old(clock) + 1
    {
      f := fate(clock);
      clock := clock + 1;
    }

    /** A step that changes nothing modelled here: the lock candidates. */
    method OtherStep() returns (o: Outcome<Error>)
      modifies this`clock
      ensures o == Verdict(fate(old(clock)), OsError) && clock == old(clock) + 1
    {
      var f := Tick();
      o := Verdict(f, OsError);
    }

    /** os.replace of a directory; it does not replace one that has contents. */
    method Rename(source: Place, target: Place) returns (o: Outcome<Error>)
      modifies this`clock, this`places
      ensures clock == old(clock) + 1
      ensures o == if fate(old(clock)) == Works && (source !in old(places) || target in old(places))
                   then Raised(OsError) else Verdict(fate(old(clock)), OsError)
      ensures o.Done? ==> source in old(places) && target !in old(places)
                          && places == old(places)[target := old(places)[source]] - {source}
      ensures !o.Done? ==> places == old(places)
    {
      var f := Tick();
      if f == Works {
        if source !in places || target in places {
          return Raised(OsError);
        }
        places := places[target := places[source]] - {source};
      }
      o := Verdict(f, OsError);
    }

    /** rmtree with ignored errors: it never raises, but may leave something of
        the directory behind. */
    method RemoveTree(place: Place) returns (o: Outcome<Error>)
      modifies this`clock, this`places
      ensures o == (if fate(old(clock)) == Dies then Crashed else Done) && clock == old(clock) + 1
      ensures SameBut(old(places), places, {place})
      ensures At(places, place) == Removal(old(places), place, fate(old(clock)), remains(old(clock)))
    {
      var left := remains(clock);
      var f := Tick();
      if f == Works {
        places := places - {place};
      } else if place in places {
        places := places[place := left];
      }
      o := if f == Dies then Crashed else Done;
    }

    /** Building the replacement; it may stop half-way. */
    method BuildReplacement(prefix: string, content: Dir) returns (o: Outcome<Error>)
      modifies this`clock, this`places
      ensures clock == old(clock) + 1 && SameBut(old(places), places, {Replacement(prefix)})
      ensures o.Done? ==> At(places, Replacement(prefix)) == Some(content)
      ensures o == if fate(old(clock)) == Works && At(old(places), Replacement(prefix)).Some?
                   then Raised(OsError) else Verdict(fate(old(clock)), OsError)
    {
      var f := Tick();
      if f == Works {
        if Replacement(prefix) in places {
          return Raised(OsError);
        }
        places := places[Replacement(prefix) := content];
      } else {
        var part: Dir := *;
        places := places[Replacement(prefix) := part];
      }
      o := Verdict(f, OsError);
    }

    method WriteJournal(status: Status, bundle: string) returns (o: Outcome<Error>)
      modifies this`clock, this`journal
      ensures o == Verdict(fate(old(clock)), OsError) && clock == old(clock) + 1
      ensures journal == if o.Done? then Journal(status, bundle) else old(journal)
    {
      var f := Tick();
      if f == Works {
        journal := Journal(status, bundle);
      }
      o := Verdict(f, OsError);
    }

    method UnlinkJournal() returns (o: Outcome<Error>)
      modifies this`clock, this`journal
      ensures o == Verdict(fate(old(clock)), OsError) && clock == old(clock) + 1
      ensures journal == if o.Done? then NoJournal else old(journal)
    {
      var f := Tick();
      if f == Works {
        journal := NoJournal;
      }
      o := Verdict(f, OsError);
    }

    method WriteLedger(file: LedgerFile) returns (o: Outcome<Error>)
      modifies this`clock, this`ledger
      ensures o == Verdict(fate(old(clock)), OsError) && clock == old(clock) + 1
      ensures ledger == if o.Done? then file else old(ledger)
    {
      var f := Tick();
      if f == Works {
        ledger := file;
      }
      o := Verdict(f, OsError);
    }
  }

  // ---- what a directory with a journal means ----

  predicate Pending(journal: JournalFile) {
    journal.Journal? && journal.status != Committed && journal.status != RolledBack
  }

  /** _ledger_contains_bundle */
  ghost predicate Imported(ledger: LedgerFile, bundle: string) {
    Valid(ledger) && Contains(EventsOf(ledger), bundle)
  }

  /** A pending transaction that recovery will roll back. */
  ghost predicate ToRollBack(journal: JournalFile, ledger: LedgerFile) {
    Pending(journal) && !Imported(ledger, journal.bundle)
  }

  /** What a recovery that runs to its end will leave as the canonical directory:
      the backup, or nothing, if it rolls back; else what is there. */
  ghost function Outlook(places: Places, journal: JournalFile, ledger: LedgerFile): Option<Dir> {
    if ToRollBack(journal, ledger) then At(places, Backup(Prefix(journal.bundle)))
    else At(places, Canonical)
  }

  /** The canonical directory is the given one, but a rollback is still pending
      and there is no backup: the next recovery deletes it. */
  ghost predicate Exposed(places: Places, journal: JournalFile, ledger: LedgerFile, canonical: Option<Dir>) {
    && ToRollBack(journal, ledger) && canonical.Some?
    && Backup(Prefix(journal.bundle)) !in places && At(places, Canonical) == canonical
  }

  /** The outlook is the given one, or it is exposed. */
  ghost predicate Holds(places: Places, journal: JournalFile, ledger: LedgerFile, canonical: Option<Dir>) {
    Outlook(places, journal, ledger) == canonical || Exposed(places, journal, ledger, canonical)
  }

  /** What a rollback leaves as the canonical directory: the backup, if there is
      one, or what the removal of the canonical directory leaves. */
  ghost function RolledBackTo(places: Places, bundle: string, removed: Option<Dir>): Option<Dir> {
    if Backup(Prefix(bundle)) in places then At(places, Backup(Prefix(bundle))) else removed
  }

  /** What a recovery that ends leaves as the canonical directory. */
  ghost function Recovered(places: Places, journal: JournalFile, ledger: LedgerFile, removed: Option<Dir>): Option<Dir> {
    if ToRollBack(journal, ledger) then RolledBackTo(places, journal.bundle, removed) else At(places, Canonical)
  }

  // ---- recovery ----

  /** What the next removal of the canonical directory will leave. */
  ghost function NextRemoval(r: Repository): Option<Dir>
    reads r
  {
    Removal(r.places, Canonical, r.fate(r.clock), r.remains(r.clock))
  }

  /** The branch of the recovery for a bundle that the ledger contains. */
  method FinalizeCommit(r: Repository) returns (o: Outcome<Error>)
    requires Pending(r.journal) && Imported(r.ledger, r.journal.bundle)
    modifies r`clock, r`places, r`journal
    ensures At(r.places, Canonical) == old(At(r.places, Canonical))
    ensures Outlook(r.places, r.journal, r.ledger) == old(At(r.places, Canonical))
    ensures if o.Done? then r.journal == NoJournal else r.journal.Journal? && r.journal.bundle == old(r.journal).bundle
    ensures r.clock >= old(r.clock)
    ensures AllWork(r.fate, old(r.clock)) ==> o.Done? && At(r.places, Backup(Prefix(old(r.journal).bundle))) == None
  {
    var bundle := r.journal.bundle;
    o := r.RemoveTree(Backup(Prefix(bundle)));
    if o.Done? {
      o := r.RemoveTree(Replacement(Prefix(bundle)));
    }
    if o.Done? {
      o := r.WriteJournal(Committed, bundle);
    }
    if o.Done? {
      o := r.UnlinkJournal();
    }
  }

  /** Deleting canonical and moving the backup home. */
  method RestoreCanonical(r: Repository, prefix: string, restore: bool) returns (o: Outcome<Error>)
    modifies r`clock, r`places
    ensures SameBut(old(r.places), r.places, {Canonical, Backup(prefix)})
    ensures var backup := old(At(r.places, Backup(prefix)));
            if restore && backup.Some? then
              if o.Done? then At(r.places, Canonical) == backup && At(r.places, Backup(prefix)) == None
              else At(r.places, Backup(prefix)) == backup
            else At(r.places, Backup(prefix)) == backup && (o.Done? ==> At(r.places, Canonical) == old(NextRemoval(r)))
    ensures r.clock >= old(r.clock) && (AllWork(r.fate, old(r.clock)) ==> o.Done?)
    ensures old(At(r.places, Canonical)).Some? ==>
              var c, moved := old(r.clock), restore && old(At(r.places, Backup(prefix))).Some?;
              && (r.fate(c) == Works ==> if moved then r.clock == c + 2 && o == Verdict(r.fate(c + 1), OsError) else r.clock == c + 1 && o.Done?)
              && (r.fate(c) == Works && !o.Done? ==> At(r.places, Canonical) == None)
              && (r.fate(c) == Raises && !moved ==> r.clock == c + 1 && o.Done?)
  {
    o := Done;
    if At(r.places, Canonical).Some? {
      o := r.RemoveTree(Canonical);
    }
    if o.Done? && restore && At(r.places, Backup(prefix)).Some? {
      o := r.Rename(Backup(prefix), Canonical);
    }
  }

  /** Accidents of a rollback that finds a canonical directory: killed when it is
      removed, killed when the backup is home, or failing to remove it unnoticed. */
  datatype RollbackAccident = KilledWhenRemoved | KilledWhenHome | NotRemoved

  ghost predicate RollbackFate(a: RollbackAccident, fate: nat -> Fate, c: nat) {
    match a
    case KilledWhenRemoved => fate(c) == Works && fate(c + 1) == Dies
    case KilledWhenHome => WorksUntil(fate, c, c + 2) && fate(c + 2) == Dies
    case NotRemoved => fate(c) == Raises && AllWork(fate, c + 1)
  }

  /** What such an accident leaves; `moved` says whether the backup was to be moved. */
  ghost predicate RollbackLeaves(
    a: RollbackAccident, moved: bool, backup: Option<Dir>, prefix: string, o: Outcome<Error>, places: Places,
    journalKept: bool, waited: nat)
  {
    match a
    case KilledWhenRemoved =>
      o.Crashed? && journalKept && waited == 2 && At(places, Canonical) == None && At(places, Backup(prefix)) == backup
    case KilledWhenHome =>
      moved ==> o.Crashed? && journalKept && waited == 3 && At(places, Canonical) == backup && At(places, Backup(prefix)) == None
    case NotRemoved => !moved ==> o.Done?
  }

  /** The rollback of a pending transaction, by the recovery and by the except
      block, which restores only if there was a canonical directory. */
  method RollBack(r: Repository, bundle: string, restore: bool) returns (o: Outcome<Error>)
    requires Pending(r.journal) && r.journal.bundle == bundle
    modifies r`clock, r`places, r`journal
    ensures var backup, end := old(At(r.places, Backup(Prefix(bundle)))), old(RollbackEnd(r, bundle, restore));
            && (o.Done? ==> r.journal == NoJournal && At(r.places, Canonical) == end)
            && (At(r.places, Backup(Prefix(bundle))) == backup || At(r.places, Backup(Prefix(bundle))) == None)
            && (!o.Done? ==>
                  || (r.journal == old(r.journal) && At(r.places, Backup(Prefix(bundle))) == backup)
                  || (r.journal == old(r.journal) && At(r.places, Backup(Prefix(bundle))) == None && At(r.places, Canonical) == end)
                  || (r.journal == Journal(RolledBack, bundle) && At(r.places, Canonical) == end))
    ensures r.clock >= old(r.clock) && (AllWork(r.fate, old(r.clock)) ==> o.Done?)
    ensures old(At(r.places, Canonical)).Some? ==>
              forall a :: RollbackFate(a, r.fate, old(r.clock)) ==>
                RollbackLeaves(a, restore && old(At(r.places, Backup(Prefix(bundle)))).Some?, old(At(r.places, Backup(Prefix(bundle)))),
                               Prefix(bundle), o, r.places, r.journal == old(r.journal), r.clock - old(r.clock))
  {
    o := RestoreCanonical(r, Prefix(bundle), restore);
    if o.Done? {
      o := FinishRollBack(r, bundle);
    }
  }

  /** After canonical is restored: the replacement and the journal go. */
  method FinishRollBack(r: Repository, bundle: string) returns (o: Outcome<Error>)
    modifies r`clock, r`places, r`journal
    ensures At(r.places, Canonical) == old(At(r.places, Canonical))
    ensures At(r.places, Backup(Prefix(bundle))) == old(At(r.places, Backup(Prefix(bundle))))
    ensures if o.Done? then r.journal == NoJournal else r.journal == old(r.journal) || r.journal == Journal(RolledBack, bundle)
    ensures r.clock > old(r.clock) && (AllWork(r.fate, old(r.clock)) ==> o.Done?)
    ensures r.fate(old(r.clock)) == Dies ==> o.Crashed? && r.clock == old(r.clock) + 1 && r.journal == old(r.journal)
  {
    o := r.RemoveTree(Replacement(Prefix(bundle)));
    if o.Done? {
      o := r.WriteJournal(RolledBack, bundle);
    }
    if o.Done? {
      o := r.UnlinkJournal();
    }
  }

  ghost function RollbackEnd(r: Repository, bundle: string, restore: bool): Option<Dir>
    reads r
  {
    if restore then RolledBackTo(r.places, bundle, NextRemoval(r)) else NextRemoval(r)
  }

  /** The journal is gone or still of the same transaction, whose backup, if the
      ledger lacks the bundle, is untouched or gone. */
  ghost predicate StillOf(before: Places, earlier: JournalFile, after: Places, journal: JournalFile, ledger: LedgerFile) {
    match earlier
    case NoJournal => journal == earlier && after == before
    case InvalidJournal => journal == earlier && after == before
    case Journal(_, bundle) =>
      && (journal.NoJournal? || (journal.Journal? && journal.bundle == bundle))
      && (!Imported(ledger, bundle) ==>
            At(after, Backup(Prefix(bundle))) == At(before, Backup(Prefix(bundle))) || At(after, Backup(Prefix(bundle))) == None)
  }

  /** recover_pending_transaction. What a recovery that ends leaves as the
      canonical directory is determined by the state before it; one that is killed
      or fails keeps the outlook, or leaves it exposed. */
  method RecoverPendingTransaction(r: Repository) returns (o: Outcome<Error>)
    modifies r`clock, r`places, r`journal
    ensures o.Done? ==>
              r.journal == NoJournal && At(r.places, Canonical) == old(Recovered(r.places, r.journal, r.ledger, NextRemoval(r)))
    ensures var outlook := old(Outlook(r.places, r.journal, r.ledger));
            outlook.Some? ==> Holds(r.places, r.journal, r.ledger, outlook)
    ensures old(r.journal).NoJournal? ==> o.Done? && r.places == old(r.places) && r.clock == old(r.clock)
    ensures AllWork(r.fate, old(r.clock)) ==> (o.Done? <==> old(r.journal) != InvalidJournal)
    ensures AllWork(r.fate, old(r.clock)) && Pending(old(r.journal)) && Imported(r.ledger, old(r.journal).bundle) ==>
              At(r.places, Backup(Prefix(old(r.journal).bundle))) == None
    ensures r.clock >= old(r.clock)
    ensures StillOf(old(r.places), old(r.journal), r.places, r.journal, r.ledger)
    ensures old(ToRollBack(r.journal, r.ledger) && At(r.places, Canonical).Some?) ==>
              var prefix := Prefix(old(r.journal).bundle);
              forall a :: RollbackFate(a, r.fate, old(r.clock)) ==>
                RollbackLeaves(a, old(At(r.places, Backup(prefix))).Some?, old(At(r.places, Backup(prefix))),
                               prefix, o, r.places, r.journal == old(r.journal), r.clock - old(r.clock))
  {
    if r.journal.NoJournal? {
      o := Done;
    } else if r.journal.InvalidJournal? {
      o := Raised(JournalInvalid);
    } else if !Pending(r.journal) {
      o := r.UnlinkJournal();
    } else {
      var events, problems := LoadImportLedger(r.ledger);
      if problems == [] && Contains(events, r.journal.bundle) {
        o := FinalizeCommit(r);
      } else {
        o := RollBack(r, r.journal.bundle, true);
      }
    }
  }

  // ---- promotion ----

  datatype Ending = Promoted | Undone | Refused | Escaped | Killed

  /** What a journaled promotion started from: the canonical directory before
      it, the directory to be promoted, and whether the backup's name was free. */
  datatype Transaction = Transaction(bundle: string, before: Option<Dir>, promoted: Dir, clean: bool)

  /** The state at some moment, and what the next removal of canonical leaves. */
  datatype Snapshot = Snapshot(places: Places, journal: JournalFile, removed: Option<Dir>)

  ghost function Observe(r: Repository): Snapshot
    reads r
  {
    Snapshot(r.places, r.journal, NextRemoval(r))
  }

  /** What canonical should be: the ledger decides. */
  ghost function Intended(t: Transaction, ledger: LedgerFile): Option<Dir> {
    if Imported(ledger, t.bundle) then Some(t.promoted) else t.before
  }

  /** The steps of the try block up to the journal entry of the swap. */
  function SwapSteps(hadCanonical: bool): nat {
    if hadCanonical then 3 else 2
  }

  /** The try block up to the journal entry of the swap. */
  method SwapIn(r: Repository, ghost t: Transaction, bundle: string, hadCanonical: bool) returns (o: Outcome<Error>)
    requires t.bundle == bundle && r.journal == Journal(Prepared, bundle) && !Imported(r.ledger, bundle)
    requires At(r.places, Canonical) == t.before && At(r.places, Replacement(Prefix(bundle))) == Some(t.promoted)
    requires hadCanonical == t.before.Some? && t.clean == (Backup(Prefix(bundle)) !in r.places)
    modifies r`clock, r`places, r`journal
    ensures Pending(r.journal) && r.journal.bundle == bundle
    ensures o.Done? ==> At(r.places, Canonical) == Some(t.promoted)
    ensures t.clean && o.Done? ==> At(r.places, Backup(Prefix(bundle))) == t.before
    ensures t.clean && !o.Done? ==>
              if t.before.Some? && r.fate(old(r.clock)) != Works
              then At(r.places, Canonical) == t.before && At(r.places, Backup(Prefix(bundle))) == None
              else At(r.places, Backup(Prefix(bundle))) == t.before
    ensures r.clock > old(r.clock) && (t.clean && AllWork(r.fate, old(r.clock)) ==> o.Done?)
    ensures hadCanonical && r.fate(old(r.clock)) != Works ==>
              o == Verdict(r.fate(old(r.clock)), OsError) && r.clock == old(r.clock) + 1
    ensures t.clean && WorksUntil(r.fate, old(r.clock), old(r.clock) + SwapSteps(hadCanonical)) ==>
              o.Done? && r.clock == old(r.clock) + SwapSteps(hadCanonical)
  {
    o := Done;
    if hadCanonical {
      o := r.Rename(Canonical, Backup(Prefix(bundle)));
    }
    if o.Done? {
      o := r.Rename(Replacement(Prefix(bundle)), Canonical);
    }
    if o.Done? {
      o := r.WriteJournal(CanonicalSwapped, bundle);
    }
  }

  /** _append_import_ledger */
  method AppendImportLedger(r: Repository, bundle: string, subjects: string) returns (o: Outcome<Error>)
    modifies r`clock, r`ledger
    ensures r.ledger == if o.Done? then Appended(EventsOf(old(r.ledger)), bundle, subjects) else old(r.ledger)
    ensures o == if old(Valid(r.ledger)) then Verdict(r.fate(old(r.clock)), OsError) else Raised(LedgerProblems)
    ensures r.clock == old(r.clock) + if old(Valid(r.ledger)) then 1 else 0
  {
    var events, problems := LoadImportLedger(r.ledger);
    if problems != [] {
      return Raised(LedgerProblems);
    }
    o := r.WriteLedger(Document(true, Some(events + [NewEvent(events, bundle, subjects)])));
  }

  /** The rest of the try block. */
  method VerifyAndCommit(r: Repository, bundle: string, subjects: string, postVerified: bool) returns (o: Outcome<Error>)
    requires Pending(r.journal) && r.journal.bundle == bundle && Valid(r.ledger)
    modifies r`clock, r`journal, r`ledger
    ensures Pending(r.journal) && r.journal.bundle == bundle
    ensures r.ledger == old(r.ledger) || (postVerified && r.ledger == Appended(EventsOf(old(r.ledger)), bundle, subjects))
    ensures o.Done? ==> r.ledger == Appended(EventsOf(old(r.ledger)), bundle, subjects) && postVerified
    ensures r.clock >= old(r.clock)
    ensures AllWork(r.fate, old(r.clock)) ==> !o.Crashed? && (o.Done? <==> postVerified)
    ensures r.fate(old(r.clock)) == Dies ==> o.Crashed? && r.ledger == old(r.ledger) && r.clock == old(r.clock) + 1
    ensures postVerified && WorksUntil(r.fate, old(r.clock), old(r.clock) + 4) && r.fate(old(r.clock) + 4) == Raises ==>
              && o.Raised? && r.clock == old(r.clock) + 5
              && r.ledger == Appended(EventsOf(old(r.ledger)), bundle, subjects)
  {
    o := r.OtherStep();
    if o.Done? && !postVerified {
      o := Raised(VerificationFailed);
    }
    if o.Done? {
      o := r.OtherStep();
    }
    if o.Done? {
      o := r.WriteJournal(PostVerified, bundle);
    }
    if o.Done? {
      o := AppendImportLedger(r, bundle, subjects);
    }
    if o.Done? {
      o := r.WriteJournal(LedgerCommitted, bundle);
    }
  }

  /** The old directory is the backup, or has not been moved yet; a bundle in the
      ledger is canonical. */
  ghost predicate InTransaction(t: Transaction, places: Places, journal: JournalFile, ledger: LedgerFile) {
    && Pending(journal) && journal.bundle == t.bundle
    && (At(places, Backup(Prefix(t.bundle))) == t.before
        || (At(places, Backup(Prefix(t.bundle))) == None && At(places, Canonical) == t.before && !Imported(ledger, t.bundle)))
    && (Imported(ledger, t.bundle) ==> At(places, Canonical) == Some(t.promoted))
  }

  /** The ledger is as before, or valid and longer by one event of the bundle. */
  ghost predicate AtMostImports(before: LedgerFile, after: LedgerFile, bundle: string) {
    after != before ==>
      && Valid(before) && Valid(after) && EventsOf(before) <= EventsOf(after)
      && !Contains(EventsOf(before), bundle)
      && forall b :: Contains(EventsOf(after), b) <==> Contains(EventsOf(before), b) || b == bundle
  }

  /** Accidents of the try statement: killed at the first rename; an exception
      from it, with or without a kill in the except block; killed after the swap;
      an exception from the journal write after the ledger append, with or without
      a kill in the except block. */
  datatype Accident =
    | KilledAtRename
    | RaisedAtRename(killed: bool)
    | KilledAfterSwap
    | RaisedAfterLedger(killed: bool)

  ghost predicate AccidentFate(a: Accident, fate: nat -> Fate, c: nat, hadCanonical: bool) {
    var n := c + SwapSteps(hadCanonical);
    match a
    case KilledAtRename => hadCanonical && fate(c) == Dies
    case RaisedAtRename(killed) =>
      hadCanonical && fate(c) == Raises && fate(c + 1) == Works && if killed then fate(c + 2) == Dies else AllWork(fate, c + 1)
    case KilledAfterSwap => WorksUntil(fate, c, n) && fate(n) == Dies
    case RaisedAfterLedger(killed) =>
      WorksUntil(fate, c, n + 4) && fate(n + 4) == Raises && fate(n + 5) == Works
      && if killed then fate(n + 6) == Dies else AllWork(fate, n + 5)
  }

  /** What such an accident leaves of a clean transaction, and after how many steps. */
  ghost predicate AccidentLeaves(
    a: Accident, t: Transaction, ending: Ending, places: Places, journal: JournalFile, ledger: LedgerFile, steps: nat)
  {
    var canonical, backup := At(places, Canonical), At(places, Backup(Prefix(t.bundle)));
    var n := SwapSteps(t.before.Some?);
    var interrupted := ending.Killed? && Pending(journal) && journal.bundle == t.bundle;
    match a
    case KilledAtRename =>
      interrupted && steps == 1 && !Imported(ledger, t.bundle) && canonical == t.before && backup == None
    case RaisedAtRename(killed) =>
      && (if killed then interrupted && steps == 3 else ending.Undone?)
      && !Imported(ledger, t.bundle) && canonical == None && backup == None
    case KilledAfterSwap =>
      interrupted && steps == n + 1 && !Imported(ledger, t.bundle) && canonical == Some(t.promoted) && backup == t.before
    case RaisedAfterLedger(killed) =>
      && Imported(ledger, t.bundle)
      && if killed then interrupted && steps == n + 7 && canonical == None && backup == t.before
         else ending.Undone? && steps >= n + 5 && canonical == t.before
  }

  /** Whichever of the accidents happens from step `c` on. */
  ghost predicate AccidentsLeave(
    fate: nat -> Fate, c: nat, t: Transaction, ending: Ending, places: Places, journal: JournalFile, ledger: LedgerFile, clock: nat)
  {
    clock >= c && forall a :: AccidentFate(a, fate, c, t.before.Some?) ==> AccidentLeaves(a, t, ending, places, journal, ledger, clock - c)
  }

  /** What the try block needs: a journaled transaction with its replacement. */
  ghost predicate Started(r: Repository, t: Transaction)
    reads r
  {
    && r.journal == Journal(Prepared, t.bundle) && |t.bundle| == DIGEST_LENGTH
    && Valid(r.ledger) && !Contains(EventsOf(r.ledger), t.bundle)
    && At(r.places, Canonical) == t.before && At(r.places, Replacement(Prefix(t.bundle))) == Some(t.promoted)
    && t.clean == (Backup(Prefix(t.bundle)) !in r.places)
  }

  method TryBlock(r: Repository, ghost t: Transaction, bundle: string, subjects: string, hadCanonical: bool, postVerified: bool)
    returns (o: Outcome<Error>)
    requires Started(r, t) && t.bundle == bundle && hadCanonical == t.before.Some?
    modifies r`clock, r`places, r`journal, r`ledger
    ensures Pending(r.journal) && r.journal.bundle == bundle && AtMostImports(old(r.ledger), r.ledger, bundle)
    ensures t.clean ==> InTransaction(t, r.places, r.journal, r.ledger)
    ensures Imported(r.ledger, bundle) ==> At(r.places, Canonical) == Some(t.promoted)
    ensures o.Done? ==> Imported(r.ledger, bundle)
    ensures r.clock >= old(r.clock)
    ensures t.clean && AllWork(r.fate, old(r.clock)) ==>
              !o.Crashed? && (o.Done? <==> postVerified) && At(r.places, Backup(Prefix(bundle))) == t.before
              && (Imported(r.ledger, bundle) <==> postVerified)
    ensures t.clean && postVerified ==>
              forall a :: AccidentFate(a, r.fate, old(r.clock), hadCanonical) ==>
                TryBlockLeaves(a, t, o, r.places, r.ledger, r.clock - old(r.clock))
  {
    AppendKeepsValid(r.ledger, bundle, subjects);
    o := SwapIn(r, t, bundle, hadCanonical);
    if o.Done? {
      o := VerifyAndCommit(r, bundle, subjects, postVerified);
    }
  }

  /** The state in which an accident leaves the try block itself. */
  ghost predicate TryBlockLeaves(a: Accident, t: Transaction, o: Outcome<Error>, places: Places, ledger: LedgerFile, steps: nat) {
    var canonical, backup, n := At(places, Canonical), At(places, Backup(Prefix(t.bundle))), SwapSteps(t.before.Some?);
    match a
    case KilledAtRename =>
      o.Crashed? && steps == 1 && !Imported(ledger, t.bundle) && canonical == t.before && backup == None
    case RaisedAtRename(_) =>
      o.Raised? && steps == 1 && !Imported(ledger, t.bundle) && canonical == t.before && t.before.Some? && backup == None
    case KilledAfterSwap =>
      o.Crashed? && steps == n + 1 && !Imported(ledger, t.bundle) && canonical == Some(t.promoted) && backup == t.before
    case RaisedAfterLedger(_) =>
      o.Raised? && steps == n + 5 && Imported(ledger, t.bundle) && canonical == Some(t.promoted) && backup == t.before
  }

  /** The else block. */
  method FinishCommit(r: Repository, bundle: string) returns (o: Outcome<Error>)
    requires Pending(r.journal) && Imported(r.ledger, bundle) && r.journal.bundle == bundle
    modifies r`clock, r`places, r`journal
    ensures At(r.places, Canonical) == old(At(r.places, Canonical))
    ensures if o.Done? then r.journal == NoJournal else r.journal.Journal? && r.journal.bundle == bundle
    ensures r.clock >= old(r.clock) && (AllWork(r.fate, old(r.clock)) ==> o.Done?)
  {
    o := r.RemoveTree(Backup(Prefix(bundle)));
    if o.Done? {
      o := r.WriteJournal(Committed, bundle);
    }
    if o.Done? {
      o := r.UnlinkJournal();
    }
  }

  function EndingOf(o: Outcome<Error>, done: Ending): Ending {
    match o
    case Done => done
    case Raised(_) => Escaped
    case Crashed => Killed
  }

  /** What undoing leaves as canonical: the backup, if there was a canonical
      directory and there is a backup, or what its removal leaves. */
  ghost function UndoneTo(t: Transaction, raised: Snapshot): Option<Dir> {
    if t.before.Some? then RolledBackTo(raised.places, t.bundle, raised.removed) else raised.removed
  }

  ghost predicate Interrupted(ending: Ending) {
    ending.Killed? || ending.Escaped?
  }

  /** How a journaled promotion ends; `raised` is the state in which the except
      block was entered, if it was. */
  ghost predicate Accountable(
    t: Transaction, places: Places, journal: JournalFile, ledger: LedgerFile, ending: Ending, raised: Option<Snapshot>)
  {
    var backup := At(places, Backup(Prefix(t.bundle)));
    && (t.clean && raised.Some? ==> InTransaction(t, raised.value.places, raised.value.journal, ledger))
    && (ending.Promoted? ==> journal == NoJournal && Imported(ledger, t.bundle) && At(places, Canonical) == Some(t.promoted))
    && (ending.Undone? ==> journal == NoJournal && raised.Some? && At(places, Canonical) == UndoneTo(t, raised.value))
    && (Interrupted(ending) ==>
          && journal.Journal? && journal.bundle == t.bundle
          && (raised.None? && Imported(ledger, t.bundle) ==> At(places, Canonical) == Some(t.promoted))
          && (t.clean && !Imported(ledger, t.bundle) ==> backup == None || backup == t.before)
          && (t.clean && !Imported(ledger, t.bundle) && raised.None? ==>
                Pending(journal) && (backup == t.before || At(places, Canonical) == t.before)))
    && (Interrupted(ending) && raised.Some? ==> HalfUndone(t, places, journal, raised.value))
  }

  /** Where the except block may stop: the backup is still as it was when the block
      was entered, or canonical has been undone. */
  ghost predicate HalfUndone(t: Transaction, places: Places, journal: JournalFile, raised: Snapshot) {
    || (Pending(journal) && At(places, Backup(Prefix(t.bundle))) == At(raised.places, Backup(Prefix(t.bundle))))
    || At(places, Canonical) == UndoneTo(t, raised)
  }

  /** What the except block leaves when nothing goes wrong in it, and when it is
      killed after the removal of canonical. */
  ghost predicate ExceptLeaves(
    fate: nat -> Fate, c: nat, raised: Snapshot, prefix: string, ending: Ending, places: Places, journal: JournalFile, clock: nat)
  {
    var backup := At(raised.places, Backup(prefix));
    && (At(places, Backup(prefix)) == None || At(places, Backup(prefix)) == backup)
    && (AllWork(fate, c) ==> ending.Undone? && raised.removed == None)
    && (At(raised.places, Canonical).Some? && fate(c) == Works && fate(c + 1) == Dies ==>
          && ending.Killed? && journal == raised.journal && clock == c + 2
          && At(places, Canonical) == None && At(places, Backup(prefix)) == backup)
  }

  /** An accident that raises, told for the whole try statement. */
  lemma AccidentHandled(
    a: Accident, t: Transaction, fate: nat -> Fate, c: nat, d: nat, raised: Snapshot,
    ending: Ending, places: Places, journal: JournalFile, ledger: LedgerFile, clock: nat)
    requires c <= d <= clock && AccidentFate(a, fate, c, t.before.Some?)
    requires TryBlockLeaves(a, t, Raised(OsError), raised.places, ledger, d - c)
    requires ExceptLeaves(fate, d, raised, Prefix(t.bundle), ending, places, journal, clock)
    requires Accountable(t, places, journal, ledger, ending, Some(raised)) && Pending(raised.journal) && raised.journal.bundle == t.bundle
    ensures AccidentLeaves(a, t, ending, places, journal, ledger, clock - c)
  {
  }

  /** The except block. If it ends, in a clean transaction whose canonical directory it
      removes, it restores what the ledger intends if and only if there is a backup or
      nothing to go back to; a bundle in the ledger is rolled back all the same. */
  method HandleException(r: Repository, ghost t: Transaction, bundle: string, hadCanonical: bool)
    returns (ending: Ending, ghost raised: Option<Snapshot>)
    requires Pending(r.journal) && r.journal.bundle == bundle == t.bundle && hadCanonical == t.before.Some?
    requires t.clean ==> InTransaction(t, r.places, r.journal, r.ledger)
    modifies r`clock, r`places, r`journal
    ensures raised == Some(old(Observe(r))) && (ending.Undone? || Interrupted(ending))
    ensures Accountable(t, r.places, r.journal, r.ledger, ending, raised)
    ensures r.clock >= old(r.clock)
    ensures ExceptLeaves(r.fate, old(r.clock), raised.value, Prefix(bundle), ending, r.places, r.journal, r.clock)
    ensures t.clean && ending.Undone? && old(NextRemoval(r)).None? ==>
              if Imported(r.ledger, bundle) then At(r.places, Canonical) == t.before
              else (At(r.places, Canonical) == Intended(t, r.ledger) <==>
                    t.before.None? || old(Backup(Prefix(bundle)) in r.places))
  {
    raised := Some(Observe(r));
    assert r.fate(r.clock) == Works && r.fate(r.clock + 1) == Dies ==> RollbackFate(KilledWhenRemoved, r.fate, r.clock);
    var o := RollBack(r, bundle, hadCanonical);
    ending := EndingOf(o, Undone);
  }

  /** The try statement, with every ending accounted for. */
  method Execute(r: Repository, ghost t: Transaction, bundle: string, subjects: string, hadCanonical: bool, postVerified: bool)
    returns (ending: Ending, ghost raised: Option<Snapshot>)
    requires Started(r, t) && t.bundle == bundle && hadCanonical == t.before.Some?
    modifies r`clock, r`places, r`journal, r`ledger
    ensures ending != Refused && AtMostImports(old(r.ledger), r.ledger, bundle)
    ensures Accountable(t, r.places, r.journal, r.ledger, ending, raised)
    ensures r.clock >= old(r.clock)
    ensures t.clean && AllWork(r.fate, old(r.clock)) ==>
              ending == (if postVerified then Promoted else Undone) && At(r.places, Canonical) == Intended(t, r.ledger)
    ensures t.clean && postVerified ==>
              AccidentsLeave(r.fate, old(r.clock), t, ending, r.places, r.journal, r.ledger, r.clock)
  {
    var o := TryBlock(r, t, bundle, subjects, hadCanonical, postVerified);
    raised := None;
    if o.Raised? {
      ghost var d := r.clock;
      ending, raised := HandleException(r, t, bundle, hadCanonical);
      forall a | t.clean && postVerified && AccidentFate(a, r.fate, old(r.clock), hadCanonical)
        ensures AccidentLeaves(a, t, ending, r.places, r.journal, r.ledger, r.clock - old(r.clock))
      {
        AccidentHandled(a, t, r.fate, old(r.clock), d, raised.value, ending, r.places, r.journal, r.ledger, r.clock);
      }
    } else {
      ending := Conclude(r, t, bundle, o);
    }
  }

  /** The end of a try block that raised nothing. */
  method Conclude(r: Repository, ghost t: Transaction, bundle: string, o: Outcome<Error>) returns (ending: Ending)
    requires Pending(r.journal) && r.journal.bundle == bundle == t.bundle && !o.Raised?
    requires o.Done? ==> Imported(r.ledger, bundle)
    requires t.clean ==> InTransaction(t, r.places, r.journal, r.ledger)
    requires Imported(r.ledger, bundle) ==> At(r.places, Canonical) == Some(t.promoted)
    modifies r`clock, r`places, r`journal
    ensures ending.Promoted? || Interrupted(ending)
    ensures Accountable(t, r.places, r.journal, r.ledger, ending, None)
    ensures r.clock >= old(r.clock) && (o.Done? && AllWork(r.fate, old(r.clock)) ==> ending.Promoted?)
    ensures o.Crashed? ==> ending.Killed? && r.clock == old(r.clock) && r.places == old(r.places) && r.journal == old(r.journal)
  {
    var finished := o;
    if o.Done? {
      finished := FinishCommit(r, bundle);
    }
    ending := EndingOf(finished, Promoted);
  }

  /** A returned bundle; its hash identifies it. */
  datatype Bundle = Bundle(sha: string, evidence: Dir, subjects: string, assessed: bool, postVerified: bool)

  /** A copy of the canonical directory with the bundle's evidence over it. */
  function Overlaid(canonical: Option<Dir>, evidence: Dir): Dir {
    (if canonical.Some? then canonical.value else map[]) + evidence
  }

  /** Stale names are removed, then the replacement is built. */
  method StageReplacement(r: Repository, b: Bundle) returns (o: Outcome<Error>)
    modifies r`clock, r`places
    ensures At(r.places, Canonical) == old(At(r.places, Canonical))
    ensures o.Done? ==> At(r.places, Replacement(Prefix(b.sha))) == Some(Overlaid(At(r.places, Canonical), b.evidence))
    ensures r.clock >= old(r.clock)
    ensures WorksUntil(r.fate, old(r.clock), old(r.clock) + 3) ==>
              o.Done? && r.clock == old(r.clock) + 3 && At(r.places, Backup(Prefix(b.sha))) == None
  {
    o := r.RemoveTree(Replacement(Prefix(b.sha)));
    if o.Done? {
      o := r.RemoveTree(Backup(Prefix(b.sha)));
    }
    if o.Done? {
      o := r.BuildReplacement(Prefix(b.sha), Overlaid(At(r.places, Canonical), b.evidence));
    }
  }

  /** The bundle is assessed, and the ledger is valid and does not contain it. */
  ghost predicate Admissible(ledger: LedgerFile, b: Bundle) {
    Valid(ledger) && !Contains(EventsOf(ledger), b.sha) && b.assessed
  }

  /** From the recovery to the finished replacement directory. */
  method PrepareReplacement(r: Repository, b: Bundle) returns (o: Outcome<Error>, admitted: bool)
    modifies r`clock, r`places, r`journal
    ensures o.Done? ==>
              && r.journal == NoJournal && (admitted <==> Admissible(r.ledger, b))
              && At(r.places, Canonical) == old(Recovered(r.places, r.journal, r.ledger, NextRemoval(r)))
    ensures o.Done? && admitted ==>
              At(r.places, Replacement(Prefix(b.sha))) == Some(Overlaid(At(r.places, Canonical), b.evidence))
    ensures var outlook := old(Outlook(r.places, r.journal, r.ledger));
            outlook.Some? ==> Holds(r.places, r.journal, r.ledger, outlook)
    ensures r.clock >= old(r.clock)
    ensures AllWork(r.fate, old(r.clock)) && old(r.journal) != InvalidJournal ==>
              o.Done? && (admitted ==> At(r.places, Backup(Prefix(b.sha))) == None)
    ensures old(r.journal).NoJournal? && Admissible(r.ledger, b) && WorksUntil(r.fate, old(r.clock), old(r.clock) + 3) ==>
              o.Done? && r.clock == old(r.clock) + 3 && At(r.places, Backup(Prefix(b.sha))) == None
    ensures old(r.journal).NoJournal? && !Admissible(r.ledger, b) ==> o.Done? && !admitted && r.places == old(r.places)
  {
    admitted := false;
    o := RecoverPendingTransaction(r);
    if o.Done? {
      var events, problems := LoadImportLedger(r.ledger);
      admitted := problems == [] && !Contains(events, b.sha) && b.assessed;
      if admitted {
        o := StageReplacement(r, b);
      }
    }
  }

  /** promote. The ledger gains the bundle at most once, and only when nothing
      was wrong with the ledger; what happens to the canonical directory is
      accounted for by the transaction that was journaled, if any. */
  method Promote(r: Repository, b: Bundle) returns (ending: Ending, ghost started: Option<Transaction>, ghost raised: Option<Snapshot>)
    requires |b.sha| == DIGEST_LENGTH
    modifies r`clock, r`places, r`journal, r`ledger
    ensures AtMostImports(old(r.ledger), r.ledger, b.sha)
    ensures ending.Promoted? ==> started.Some? && !Contains(EventsOf(old(r.ledger)), b.sha) && b.assessed
    ensures started.None? ==>
              && !ending.Promoted? && !ending.Undone? && r.ledger == old(r.ledger)
              && var outlook := old(Outlook(r.places, r.journal, r.ledger));
                 outlook.Some? ==> Holds(r.places, r.journal, r.ledger, outlook)
    ensures started.Some? ==>
              && IsStart(started.value, b, old(Recovered(r.places, r.journal, r.ledger, NextRemoval(r))))
              && Accountable(started.value, r.places, r.journal, r.ledger, ending, raised)
    ensures AllWork(r.fate, old(r.clock)) && old(r.journal) != InvalidJournal ==>
              if old(Admissible(r.ledger, b))
              then started.Some? && ending == (if b.postVerified then Promoted else Undone)
                   && At(r.places, Canonical) == Intended(started.value, r.ledger)
              else ending.Refused? && At(r.places, Canonical) == old(Recovered(r.places, r.journal, r.ledger, NextRemoval(r)))
    ensures r.clock >= old(r.clock)
    ensures old(r.journal.NoJournal? && !Admissible(r.ledger, b)) ==>
              ending.Refused? && r.places == old(r.places) && r.ledger == old(r.ledger)
    ensures old(r.journal.NoJournal? && Admissible(r.ledger, b)) && b.postVerified && WorksUntil(r.fate, old(r.clock), old(r.clock) + 4) ==>
              && started.Some? && started.value.clean
              && AccidentsLeave(r.fate, old(r.clock) + 4, started.value, ending, r.places, r.journal, r.ledger, r.clock)
  {
    started, raised := None, None;
    var o, admitted := PrepareReplacement(r, b);
    ending := EndingOf(o, Refused);
    if o.Done? && admitted {
      ending, started, raised := JournalAndExecute(r, b);
    }
  }

  ghost predicate IsStart(t: Transaction, b: Bundle, before: Option<Dir>) {
    t.bundle == b.sha && t.before == before && t.promoted == Overlaid(before, b.evidence)
  }

  /** The journal of the finished replacement, then the try statement. */
  method JournalAndExecute(r: Repository, b: Bundle)
    returns (ending: Ending, ghost started: Option<Transaction>, ghost raised: Option<Snapshot>)
    requires |b.sha| == DIGEST_LENGTH && r.journal == NoJournal && Admissible(r.ledger, b)
    requires At(r.places, Replacement(Prefix(b.sha))) == Some(Overlaid(At(r.places, Canonical), b.evidence))
    modifies r`clock, r`places, r`journal, r`ledger
    ensures AtMostImports(old(r.ledger), r.ledger, b.sha) && ending != Refused
    ensures started.None? ==> Interrupted(ending) && r.ledger == old(r.ledger) && r.places == old(r.places) && r.journal == NoJournal
    ensures started.Some? ==>
              && IsStart(started.value, b, old(At(r.places, Canonical)))
              && started.value.clean == (Backup(Prefix(b.sha)) !in old(r.places))
              && Accountable(started.value, r.places, r.journal, r.ledger, ending, raised)
    ensures r.clock >= old(r.clock)
    ensures At(old(r.places), Backup(Prefix(b.sha))) == None && AllWork(r.fate, old(r.clock)) ==>
              && started.Some? && ending == (if b.postVerified then Promoted else Undone)
              && At(r.places, Canonical) == Intended(started.value, r.ledger)
    ensures At(old(r.places), Backup(Prefix(b.sha))) == None && b.postVerified && r.fate(old(r.clock)) == Works ==>
              started.Some? && AccidentsLeave(r.fate, old(r.clock) + 1, started.value, ending, r.places, r.journal, r.ledger, r.clock)
  {
    started, raised := None, None;
    var hadCanonical := Canonical in r.places;
    ghost var t := Transaction(b.sha, At(r.places, Canonical), Overlaid(At(r.places, Canonical), b.evidence),
                               Backup(Prefix(b.sha)) !in r.places);
    var o := r.WriteJournal(Prepared, b.sha);
    ending := EndingOf(o, Refused);
    if o.Done? {
      started := Some(t);
      ending, raised := Execute(r, t, b.sha, b.subjects, hadCanonical, b.postVerified);
    }
  }

  // ---- when a recovery restores what it should ----

  /** The condition, on the state alone, for a recovery to leave what the ledger
      intends. Without the bundle in the ledger, and while the rollback is pending,
      there must be a backup, or nothing to go back to; with it in the ledger, the
      except block must not have touched the promoted directory. A backup under a
      name that was not free may be an older one. */
  ghost predicate Restorable(t: Transaction, left: Snapshot, ledger: LedgerFile) {
    var backup := At(left.places, Backup(Prefix(t.bundle)));
    if Imported(ledger, t.bundle) || !Pending(left.journal) then At(left.places, Canonical) == Intended(t, ledger)
    else if backup.Some? then t.clean || backup == t.before
    else left.removed == t.before
  }

  /** What an interrupted promotion leaves, and every recovery keeps. */
  ghost predicate LeftBy(t: Transaction, places: Places, journal: JournalFile, ledger: LedgerFile) {
    var backup := At(places, Backup(Prefix(t.bundle)));
    && (journal.NoJournal? || (journal.Journal? && journal.bundle == t.bundle))
    && (t.clean && !Imported(ledger, t.bundle) ==> backup == None || backup == t.before)
  }

  /** When a recovery that ends restores what the ledger intends: if and only if
      the state it finds is restorable. While a rollback is pending and nothing
      goes wrong any more, that is, in a clean transaction, the recovery's own test
      for a backup, unless there was nothing to go back to. */
  ghost predicate RecoveredIff(
    t: Transaction, found: Snapshot, quiet: bool, recovery: Outcome<Error>, places: Places, ledger: LedgerFile)
  {
    && (recovery.Done? ==> (At(places, Canonical) == Intended(t, ledger) <==> Restorable(t, found, ledger)))
    && (quiet ==> recovery.Done?)
    && (quiet && t.clean && ToRollBack(found.journal, ledger) ==>
          (At(places, Canonical) == t.before <==> t.before.None? || Backup(Prefix(t.bundle)) in found.places))
  }

  /** A promotion that is interrupted, whenever and however, and then any number of
      recoveries that may be interrupted too, leave a state as above. */
  method PromoteThenRecoveries(r: Repository, b: Bundle, attempts: nat) returns (ending: Ending, ghost started: Option<Transaction>)
    requires |b.sha| == DIGEST_LENGTH
    modifies r`clock, r`places, r`journal, r`ledger
    ensures started.Some? && Interrupted(ending) ==> LeftBy(started.value, r.places, r.journal, r.ledger)
    ensures AtMostImports(old(r.ledger), r.ledger, b.sha)
  {
    ghost var raised;
    ending, started, raised := Promote(r, b);
    for i := 0 to attempts
      invariant started.Some? && Interrupted(ending) ==> LeftBy(started.value, r.places, r.journal, r.ledger)
      invariant AtMostImports(old(r.ledger), r.ledger, b.sha)
    {
      var attempt := RecoverPendingTransaction(r);
    }
  }

  /** The ledger decides: from any such state a recovery that ends leaves canonical
      promoted if the ledger contains the bundle, and as before otherwise, if and
      only if the state is restorable. */
  method RecoverInterrupted(r: Repository, ghost t: Transaction) returns (recovery: Outcome<Error>)
    requires LeftBy(t, r.places, r.journal, r.ledger)
    modifies r`clock, r`places, r`journal
    ensures LeftBy(t, r.places, r.journal, r.ledger)
    ensures RecoveredIff(t, old(Observe(r)), AllWork(r.fate, old(r.clock)), recovery, r.places, r.ledger)
  {
    recovery := RecoverPendingTransaction(r);
  }

  // ---- the runs in which the guarantee fails ----

  /** An environment in which everything works but the given steps. */
  function FateOf(faults: map<nat, Fate>): nat -> Fate {
    n => if n in faults then faults[n] else Works
  }

  /** The steps before the try block: two removals, the building of the
      replacement and the first journal. */
  const BEFORE_TRY: nat := 4

  /** A promotion from a repository without a journal, in an environment in which
      one of the accidents happens to it. */
  method PromoteInto(ghost a: Accident, places: Places, ledger: LedgerFile, b: Bundle, fate: nat -> Fate, remains: nat -> Dir)
    returns (r: Repository, ending: Ending, ghost t: Transaction)
    requires |b.sha| == DIGEST_LENGTH && Admissible(ledger, b) && b.postVerified
    requires WorksUntil(fate, 0, BEFORE_TRY) && AccidentFate(a, fate, BEFORE_TRY, Canonical in places)
    ensures fresh(r) && r.fate == fate && r.remains == remains && IsStart(t, b, At(places, Canonical)) && r.clock >= BEFORE_TRY
    ensures AccidentLeaves(a, t, ending, r.places, r.journal, r.ledger, r.clock - BEFORE_TRY)
    ensures ending.Undone? ==> r.journal == NoJournal
  {
    r := new Repository(places, ledger, fate, remains);
    ghost var started, raised;
    ending, started, raised := Promote(r, b);
    t := started.value;
  }

  /** Killed before the first rename: the next recovery deletes the evidence. */
  method KilledBeforeFirstRename(places: Places, ledger: LedgerFile, b: Bundle, remains: nat -> Dir)
    returns (r: Repository, ending: Ending, recovery: Outcome<Error>)
    requires |b.sha| == DIGEST_LENGTH && Admissible(ledger, b) && b.postVerified && Canonical in places
    ensures r.fate == FateOf(map[4 := Dies]) && ending.Killed? && recovery.Done?
    ensures !Imported(r.ledger, b.sha) && At(r.places, Canonical) == None
  {
    ghost var t;
    r, ending, t := PromoteInto(KilledAtRename, places, ledger, b, FateOf(map[4 := Dies]), remains);
    recovery := RecoverPendingTransaction(r);
  }

  /** A recovery killed right after it moved the backup home: the next one deletes
      the evidence. */
  method KilledAfterMovingHome(places: Places, ledger: LedgerFile, b: Bundle, remains: nat -> Dir)
    returns (r: Repository, ending: Ending, first: Outcome<Error>, second: Outcome<Error>)
    requires |b.sha| == DIGEST_LENGTH && Admissible(ledger, b) && b.postVerified && Canonical in places
    ensures r.fate == FateOf(map[7 := Dies, 10 := Dies]) && ending.Killed? && first.Crashed? && second.Done?
    ensures !Imported(r.ledger, b.sha) && At(r.places, Canonical) == None
  {
    ghost var t;
    r, ending, t := PromoteInto(KilledAfterSwap, places, ledger, b, FateOf(map[7 := Dies, 10 := Dies]), remains);
    assert RollbackFate(KilledWhenHome, r.fate, r.clock);
    first := RecoverPendingTransaction(r);
    second := RecoverPendingTransaction(r);
  }

  /** The first rename raises: the except block deletes the evidence. */
  method FirstRenameRaises(places: Places, ledger: LedgerFile, b: Bundle, remains: nat -> Dir)
    returns (r: Repository, ending: Ending)
    requires |b.sha| == DIGEST_LENGTH && Admissible(ledger, b) && b.postVerified && Canonical in places
    ensures r.fate == FateOf(map[4 := Raises]) && ending.Undone?
    ensures !Imported(r.ledger, b.sha) && At(r.places, Canonical) == None
  {
    ghost var t;
    r, ending, t := PromoteInto(RaisedAtRename(false), places, ledger, b, FateOf(map[4 := Raises]), remains);
  }

  /** The first rename raises and the except block is killed after its removal: the
      next recovery finds neither the evidence nor a backup. */
  method FirstRenameRaisesThenKilled(places: Places, ledger: LedgerFile, b: Bundle, remains: nat -> Dir)
    returns (r: Repository, ending: Ending, recovery: Outcome<Error>)
    requires |b.sha| == DIGEST_LENGTH && Admissible(ledger, b) && b.postVerified && Canonical in places
    ensures r.fate == FateOf(map[4 := Raises, 6 := Dies]) && ending.Killed? && recovery.Done?
    ensures !Imported(r.ledger, b.sha) && At(r.places, Canonical) == None
  {
    ghost var t;
    r, ending, t := PromoteInto(RaisedAtRename(true), places, ledger, b, FateOf(map[4 := Raises, 6 := Dies]), remains);
    recovery := RecoverPendingTransaction(r);
  }

  /** The journal write after the ledger append raises: canonical is rolled back
      although the ledger contains the bundle, which is refused ever after. */
  method LastJournalWriteRaises(places: Places, ledger: LedgerFile, b: Bundle, remains: nat -> Dir)
    returns (r: Repository, ending: Ending, again: Ending)
    requires |b.sha| == DIGEST_LENGTH && Admissible(ledger, b) && b.postVerified && Canonical in places
    ensures r.fate == FateOf(map[11 := Raises]) && ending.Undone? && again.Refused?
    ensures Imported(r.ledger, b.sha) && At(r.places, Canonical) == At(places, Canonical)
  {
    ghost var t, started, raised;
    r, ending, t := PromoteInto(RaisedAfterLedger(false), places, ledger, b, FateOf(map[11 := Raises]), remains);
    again, started, raised := Promote(r, b);
  }

  /** The same, and the except block is killed after its removal: the recovery
      believes the ledger and removes the backup, so that both the old and the
      promoted evidence are gone, and the bundle is refused ever after. */
  method LastJournalWriteRaisesThenKilled(places: Places, ledger: LedgerFile, b: Bundle, remains: nat -> Dir)
    returns (r: Repository, ending: Ending, recovery: Outcome<Error>, again: Ending)
    requires |b.sha| == DIGEST_LENGTH && Admissible(ledger, b) && b.postVerified && Canonical in places
    ensures r.fate == FateOf(map[11 := Raises, 13 := Dies]) && ending.Killed? && recovery.Done? && again.Refused?
    ensures Imported(r.ledger, b.sha) && At(r.places, Canonical) == None && At(r.places, Backup(Prefix(b.sha))) == None
  {
    ghost var t, started, raised;
    r, ending, t := PromoteInto(RaisedAfterLedger(true), places, ledger, b, FateOf(map[11 := Raises, 13 := Dies]), remains);
    recovery := RecoverPendingTransaction(r);
    again, started, raised := Promote(r, b);
  }

  /** The first promotion ever is killed after its swap, and the recovery fails to
      remove what was promoted without noticing: evidence that the ledger does not
      contain stays canonical, and the recovery reports success. */
  method FirstPromotionNotRolledBack(places: Places, ledger: LedgerFile, b: Bundle)
    returns (r: Repository, ending: Ending, recovery: Outcome<Error>)
    requires |b.sha| == DIGEST_LENGTH && Admissible(ledger, b) && b.postVerified && Canonical !in places
    ensures r.fate == FateOf(map[6 := Dies, 7 := Raises]) && ending.Killed? && recovery.Done?
    ensures !Imported(r.ledger, b.sha) && At(r.places, Canonical) == Some(b.evidence)
  {
    ghost var t;
    r, ending, t := PromoteInto(KilledAfterSwap, places, ledger, b, FateOf(map[6 := Dies, 7 := Raises]), _ => b.evidence);
    assert RollbackFate(NotRemoved, r.fate, r.clock);
    recovery := RecoverPendingTransaction(r);
  }

  // ---- runs ----

  /** Any sequence of promotions, each of which may fail or be killed anywhere:
      the ledger stays valid and only grows, and no bundle is promoted twice, nor
      one that the ledger already contained. */
  method Run(r: Repository, bundles: seq<Bundle>) returns (endings: seq<Ending>)
    requires Valid(r.ledger) && forall i :: 0 <= i < |bundles| ==> |bundles[i].sha| == DIGEST_LENGTH
    modifies r`clock, r`places, r`journal, r`ledger
    ensures Valid(r.ledger) && EventsOf(old(r.ledger)) <= EventsOf(r.ledger) && |endings| == |bundles|
    ensures forall i :: 0 <= i < |bundles| && endings[i].Promoted? ==>
              Contains(EventsOf(r.ledger), bundles[i].sha) && !Contains(EventsOf(old(r.ledger)), bundles[i].sha)
    ensures forall i, j :: 0 <= i < j < |bundles| && endings[i].Promoted? && endings[j].Promoted? ==>
              bundles[i].sha != bundles[j].sha
  {
    endings := [];
    for n := 0 to |bundles|
      invariant Valid(r.ledger) && EventsOf(old(r.ledger)) <= EventsOf(r.ledger) && |endings| == n
      invariant forall b :: Contains(EventsOf(old(r.ledger)), b) ==> Contains(EventsOf(r.ledger), b)
      invariant forall i :: 0 <= i < n && endings[i].Promoted? ==>
                  Contains(EventsOf(r.ledger), bundles[i].sha) && !Contains(EventsOf(old(r.ledger)), bundles[i].sha)
      invariant forall i, j :: 0 <= i < j < n && endings[i].Promoted? && endings[j].Promoted? ==>
                  bundles[i].sha != bundles[j].sha
    {
      var ending;
      ghost var started, raised;
      ending, started, raised := Promote(r, bundles[n]);
      endings := endings + [ending];
    }
  }
}
