/** The tamper-evident deployment audit chain (scripts/deployment_audit_chain.py).
    The digest is a parameter: any injective function from event bodies. */
module AuditChain {
  import opened Base

  datatype Body = Body(eventType: string, createdAt: string, previous: Option<string>, subjects: string)

  type Digest = Body -> string

  /** An event with the digest stored beside it, which may be absent. */
  datatype Entry = Entry(body: Body, digest: Option<string>)

  /** One line of the file: blank, not JSON, or an event. */
  datatype Line = Blank | Garbage | Event(entry: Entry)

  datatype Problem = PathUnsafe | InvalidJson(line: nat) | DigestMismatch(line: nat) | PreviousHashMismatch(line: nat)

  datatype Error = AuditPathUnsafe | ChainTampered | AppendVerifyFailed

  ghost predicate Injective(sha: Digest) {
    forall x, y :: sha(x) == sha(y) ==> x == y
  }

  function Events(lines: seq<Line>): seq<Entry> {
    if lines == [] then []
    else
      var front := Events(lines[..|lines| - 1]);
      if lines[|lines| - 1].Event? then front + [lines[|lines| - 1].entry] else front
  }

  lemma EventsAppend(lines: seq<Line>, line: Line)
    ensures Events(lines + [line]) == if line.Event? then Events(lines) + [line.entry] else Events(lines)
  {
    assert (lines + [line])[..|lines|] == lines;
  }

  function Head(events: seq<Entry>): Option<string> {
    if events == [] then None else events[|events| - 1].digest
  }

  ghost function Preceding(events: seq<Entry>, i: nat): Option<string>
    requires i < |events|
  {
    if i == 0 then None else events[i - 1].digest
  }

  /** Each event carries the digest of its body and names its predecessor's digest. */
  ghost predicate WellLinked(sha: Digest, events: seq<Entry>) {
    forall i :: 0 <= i < |events| ==> LinkedAt(sha, events, i)
  }

  ghost predicate LinkedAt(sha: Digest, events: seq<Entry>, i: nat)
    requires i < |events|
  {
    events[i].digest == Some(sha(events[i].body)) && events[i].body.previous == Preceding(events, i)
  }

  lemma WellLinkedExtend(sha: Digest, events: seq<Entry>, event: Entry)
    ensures WellLinked(sha, events + [event]) <==>
            WellLinked(sha, events) && event.digest == Some(sha(event.body)) && event.body.previous == Head(events)
  {
    var all := events + [event];
    forall i | 0 <= i < |events| ensures LinkedAt(sha, all, i) <==> LinkedAt(sha, events, i) {
      assert all[i] == events[i] && Preceding(all, i) == Preceding(events, i);
    }
    assert all[|events|] == event && Preceding(all, |events|) == Head(events);
    assert LinkedAt(sha, all, |events|) <==> event.digest == Some(sha(event.body)) && event.body.previous == Head(events);
  }

  /** The head determines the chain: two well-linked chains with the same head
      are equal event by event, whatever their lengths. */
  lemma {:induction false} SameHeadSameChain(sha: Digest, a: seq<Entry>, b: seq<Entry>)
    requires Injective(sha) && WellLinked(sha, a) && WellLinked(sha, b)
    requires Head(a) == Head(b)
    ensures a == b
    decreases |a|
  {
    assert (a != [] ==> LinkedAt(sha, a, |a| - 1)) && (b != [] ==> LinkedAt(sha, b, |b| - 1));
    if a != [] && b != [] {
      var a', b' := a[..|a| - 1], b[..|b| - 1];
      var x, y := a[|a| - 1], b[|b| - 1];
      FrontAndLast(a);
      FrontAndLast(b);
      WellLinkedExtend(sha, a', x);
      WellLinkedExtend(sha, b', y);
      assert sha(x.body) == sha(y.body);
      SameHeadSameChain(sha, a', b');
    }
  }

  class AuditFile {
    const sha: Digest
    var present: bool
    var regular: bool
    /** The newline-terminated lines, and what follows the last newline. */
    var lines: seq<Line>
    var unterminated: Line

    constructor (sha: Digest)
      ensures this.sha == sha && !present && regular && lines == [] && unterminated == Blank
    {
      this.sha := sha;
      present, regular, lines, unterminated := false, true, [], Blank;
    }

    ghost function Text(): seq<Line>
      reads this
    {
      if present then lines + [unterminated] else []
    }

    /** What it takes to be reported without problems. */
    ghost predicate Clean()
      reads this
    {
      present ==> regular && Garbage !in Text() && WellLinked(sha, Events(Text()))
    }

    /** verify: reports no problem exactly on a well-linked chain. */
    method Verify() returns (verified: bool, count: nat, head: Option<string>, problems: seq<Problem>)
      ensures verified == (problems == [])
      ensures verified <==> Clean()
      ensures present && !regular ==> problems == [PathUnsafe] && count == 0 && head == None
      ensures !present || regular ==> count == |Events(Text())| && head == Head(Events(Text()))
    {
      count, head, problems := 0, None, [];
      if !present {
        return true, 0, None, [];
      }
      if !regular {
        return false, 0, None, [PathUnsafe];
      }
      var text := lines + [unterminated];
      var i := 0;
      while i < |text|
        invariant 0 <= i <= |text|
        invariant count == |Events(text[..i])| && head == Head(Events(text[..i]))
        invariant problems == [] <==> Garbage !in text[..i] && WellLinked(sha, Events(text[..i]))
      {
        EventsAppend(text[..i], text[i]);
        assert text[..i + 1] == text[..i] + [text[i]];
        ghost var before := Events(text[..i]);
        match text[i] {
          case Blank =>
          case Garbage =>
            problems := problems + [InvalidJson(i + 1)];
          case Event(entry) =>
            WellLinkedExtend(sha, before, entry);
            if entry.digest != Some(sha(entry.body)) {
              problems := problems + [DigestMismatch(i + 1)];
            }
            if entry.body.previous != head {
              problems := problems + [PreviousHashMismatch(i + 1)];
            }
            head := entry.digest;
            count := count + 1;
        }
        i := i + 1;
      }
      assert text[..i] == text;
      verified := problems == [];
    }

    /** append_event: succeeds exactly on a clean chain whose text does not stop
        inside an event line, and then adds one event linked to the old head.
        A refusal leaves the file alone; an unterminated event line is spoiled. */
    method AppendEvent(eventType: string, createdAt: string, subjects: string) returns (r: Result<Entry, Error>)
      modifies this
      ensures r.Ok? <==> old(Clean()) && (old(present) ==> old(unterminated) == Blank)
      ensures r.Ok? ==>
                && Clean() && r.value.body.previous == Head(old(Events(Text())))
                && Events(Text()) == old(Events(Text())) + [r.value]
                && r.value.body.(previous := None) == Body(eventType, createdAt, None, subjects)
      ensures r == Err(AuditPathUnsafe) || r == Err(ChainTampered) ==> unchanged(this)
      ensures r == Err(AppendVerifyFailed) ==> old(Clean()) && !Clean()
    {
      if present && !regular {
        return Err(AuditPathUnsafe);
      }
      var verified, count, head, problems := Verify();
      if !verified {
        return Err(ChainTampered);
      }
      ghost var before := Events(Text());
      ghost var earlier := if present then lines else [];
      EventsAppend(earlier, Blank);
      var body := Body(eventType, createdAt, head, subjects);
      var event := Entry(body, Some(sha(body)));
      EventsAppend(earlier, Event(event));
      EventsAppend(earlier + [Event(event)], Blank);
      WellLinkedExtend(sha, before, event);
      if !present {
        present, regular, lines, unterminated := true, true, [Event(event)], Blank;
        assert lines == earlier + [Event(event)];
      } else if unterminated == Blank {
        lines := lines + [Event(event)];
      } else {
        lines, unterminated := lines + [Garbage], Blank;
        assert Text()[|lines| - 1] == Garbage;
      }
      var verified', count', head', problems' := Verify();
      if !verified' || head' != event.digest {
        return Err(AppendVerifyFailed);
      }
      return Ok(event);
    }
  }
}
