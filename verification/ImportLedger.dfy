/** The hash-chained ledger of imported evidence bundles
    (scripts/external/acceptance_return_promotion.py). */
module ImportLedger {
  import opened Base

  /** The event hash, taken to be injective; Other is any other string. */
  datatype Hash = ZeroHash | Sha256(body: Body) | Other(text: string)

  datatype Body = Body(bundle: Option<string>, subjects: string, previous: Option<Hash>)

  /** One entry of the events list; None: the value is missing or no string. */
  datatype Row =
    | NotAnObject
    | Event(body: Body, hash: Option<Hash>)

  /** The ledger file; no events list: the value under "events" is not a list. */
  datatype LedgerFile = Absent | Unreadable | Document(contractValid: bool, events: Option<seq<Row>>)

  datatype Problem =
    | LedgerUnreadable
    | ContractInvalid
    | EventsInvalid
    | EventInvalid(index: nat)
    | ChainInvalid(index: nat)
    | HashInvalid(index: nat)
    | BundleInvalid(index: nat)
    | DuplicateBundle(index: nat)

  const DIGEST_LENGTH: nat := 64

  function EventsOf(file: LedgerFile): seq<Row> {
    if file.Document? && file.events.Some? then file.events.value else []
  }

  /** The hash that the event at i must name. */
  function PreviousHash(events: seq<Row>, i: nat): Option<Hash>
    requires i <= |events|
  {
    if i == 0 then Some(ZeroHash)
    else if events[i - 1].Event? then events[i - 1].hash
    else None
  }

  ghost predicate Linked(events: seq<Row>, i: nat)
    requires i < |events|
  {
    && events[i].Event?
    && events[i].body.previous == PreviousHash(events, i)
    && events[i].hash == Some(Sha256(events[i].body))
    && events[i].body.bundle.Some? && |events[i].body.bundle.value| == DIGEST_LENGTH
  }

  predicate IsEventOf(row: Row, bundle: string) {
    row.Event? && row.body.bundle == Some(bundle)
  }

  /** A chain of events from the zero hash, each bundle at most once. */
  ghost predicate ValidChain(events: seq<Row>) {
    && (forall i :: 0 <= i < |events| ==> Linked(events, i))
    && (forall i, j :: 0 <= i < j < |events| ==> events[i].Event? && events[j].Event? ==>
          events[i].body.bundle != events[j].body.bundle)
  }

  ghost predicate Valid(file: LedgerFile) {
    || file.Absent?
    || (file.Document? && file.contractValid && file.events.Some? && ValidChain(file.events.value))
  }

  predicate Contains(events: seq<Row>, bundle: string) {
    exists i :: 0 <= i < |events| && IsEventOf(events[i], bundle)
  }

  /** The bundles counted so far by the loader. */
  ghost function Bundles(events: seq<Row>): set<string> {
    set i | 0 <= i < |events| && events[i].Event? && events[i].body.bundle.Some? :: events[i].body.bundle.value
  }

  lemma ValidChainExtend(events: seq<Row>, row: Row)
    ensures ValidChain(events + [row]) <==>
            && ValidChain(events)
            && row.Event? && row.body.previous == PreviousHash(events, |events|) && row.hash == Some(Sha256(row.body))
            && row.body.bundle.Some? && |row.body.bundle.value| == DIGEST_LENGTH
            && row.body.bundle.value !in Bundles(events)
  {
    var all := events + [row];
    assert forall i :: 0 <= i < |events| ==> all[i] == events[i] && PreviousHash(all, i) == PreviousHash(events, i);
    assert PreviousHash(all, |events|) == PreviousHash(events, |events|) && all[|events|] == row;
    forall i | 0 <= i < |events| ensures Linked(all, i) <==> Linked(events, i) {
    }
    assert Linked(all, |events|) <==>
           row.Event? && row.body.previous == PreviousHash(events, |events|) && row.hash == Some(Sha256(row.body))
           && row.body.bundle.Some? && |row.body.bundle.value| == DIGEST_LENGTH;
    if ValidChain(all) {
      forall i, j | 0 <= i < j < |events| && events[i].Event? && events[j].Event?
        ensures events[i].body.bundle != events[j].body.bundle
      {
        assert all[i].body.bundle != all[j].body.bundle;
      }
    }
  }

  lemma ContainsIsMembership(events: seq<Row>, bundle: string)
    ensures Contains(events, bundle) <==> bundle in Bundles(events)
  {
    if Contains(events, bundle) {
      var i :| 0 <= i < |events| && IsEventOf(events[i], bundle);
      assert events[i].body.bundle.value == bundle;
    }
    if bundle in Bundles(events) {
      var i :| 0 <= i < |events| && events[i].Event? && events[i].body.bundle == Some(bundle);
      assert IsEventOf(events[i], bundle);
    }
  }

  /** _load_import_ledger: no problem is reported exactly for a valid ledger. */
  method LoadImportLedger(file: LedgerFile) returns (events: seq<Row>, problems: seq<Problem>)
    ensures events == EventsOf(file)
    ensures problems == [] <==> Valid(file)
  {
    events, problems := EventsOf(file), [];
    match file {
      case Absent => return;
      case Unreadable => problems := [LedgerUnreadable]; return;
      case Document(contractValid, list) =>
        if !contractValid {
          problems := problems + [ContractInvalid];
        }
        if list.None? {
          problems := problems + [EventsInvalid];
        }
    }
    ghost var contract := problems == [];
    var previous := Some(ZeroHash);
    var seen: set<string> := {};
    var i := 0;
    while i < |events|
      invariant 0 <= i <= |events|
      invariant problems == [] <==> contract && ValidChain(events[..i])
      invariant problems == [] ==> previous == PreviousHash(events[..i], i) && seen == Bundles(events[..i])
    {
      var row := events[i];
      ghost var before := events[..i];
      assert events[..i + 1] == before + [row];
      ValidChainExtend(before, row);
      if row.NotAnObject? {
        problems := problems + [EventInvalid(i)];
      } else {
        if row.body.previous != previous {
          problems := problems + [ChainInvalid(i)];
        }
        if row.hash != Some(Sha256(row.body)) {
          problems := problems + [HashInvalid(i)];
        }
        var bundle := row.body.bundle;
        if bundle.None? || |bundle.value| != DIGEST_LENGTH {
          problems := problems + [BundleInvalid(i)];
        } else if bundle.value in seen {
          problems := problems + [DuplicateBundle(i)];
        } else {
          BundlesExtend(before, row);
          seen := seen + {bundle.value};
        }
        previous := if row.hash.Some? then row.hash else Some(ZeroHash);
      }
      i := i + 1;
    }
    assert events[..i] == events;
  }

  lemma BundlesExtend(events: seq<Row>, row: Row)
    requires row.Event? && row.body.bundle.Some?
    ensures Bundles(events + [row]) == Bundles(events) + {row.body.bundle.value}
  {
    var all := events + [row];
    assert all[|events|] == row;
    forall b | b in Bundles(events) ensures b in Bundles(all) {
      var i :| 0 <= i < |events| && events[i].Event? && events[i].body.bundle == Some(b);
      assert all[i] == events[i];
    }
  }

  /** The event that _append_import_ledger adds. */
  function NewEvent(events: seq<Row>, bundle: string, subjects: string): Row {
    var body := Body(Some(bundle), subjects, PreviousHash(events, |events|));
    Event(body, Some(Sha256(body)))
  }

  function Appended(events: seq<Row>, bundle: string, subjects: string): LedgerFile {
    Document(true, Some(events + [NewEvent(events, bundle, subjects)]))
  }

  /** Appending a bundle to a valid ledger that does not contain it keeps the
      ledger valid and adds this bundle and nothing else. */
  lemma AppendKeepsValid(file: LedgerFile, bundle: string, subjects: string)
    requires Valid(file) && |bundle| == DIGEST_LENGTH && !Contains(EventsOf(file), bundle)
    ensures var after := Appended(EventsOf(file), bundle, subjects);
            && Valid(after) && EventsOf(file) <= EventsOf(after)
            && forall b :: Contains(EventsOf(after), b) <==> Contains(EventsOf(file), b) || b == bundle
  {
    var events := EventsOf(file);
    var event := NewEvent(events, bundle, subjects);
    var all := events + [event];
    ContainsIsMembership(events, bundle);
    ValidChainExtend(events, event);
    forall b ensures Contains(all, b) <==> Contains(events, b) || b == bundle {
      ContainsIsMembership(events, b);
      ContainsIsMembership(all, b);
      BundlesExtend(events, event);
    }
  }

  /** A ledger cannot be changed under an unchanged last hash: two valid ledgers
      with the same last hash hold the same events. */
  lemma {:induction false} SameHeadSameLedger(a: seq<Row>, b: seq<Row>)
    requires ValidChain(a) && ValidChain(b) && PreviousHash(a, |a|) == PreviousHash(b, |b|)
    ensures a == b
    decreases |a|
  {
    if a != [] {
      var front := a[..|a| - 1];
      assert a == front + [a[|a| - 1]];
      ValidChainExtend(front, a[|a| - 1]);
    }
    if b != [] {
      var front := b[..|b| - 1];
      assert b == front + [b[|b| - 1]];
      ValidChainExtend(front, b[|b| - 1]);
    }
    if a != [] && b != [] {
      SameHeadSameLedger(a[..|a| - 1], b[..|b| - 1]);
    }
  }
}
