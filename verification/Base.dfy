/** Datatypes and finite-sequence facts shared by every component. */
module Base {

  datatype Option<+T> = None | Some(value: T)

  datatype Result<+T, +E> = Ok(value: T) | Err(error: E)

  /** What the environment does to one atomic step of a running program: it
      lets it happen, makes the call raise without any effect, or kills the
      process before the step takes effect. */
  datatype Fate = Works | Raises | Dies

  /** How a call ends: normally, with an exception that the caller may handle,
      or with the death of the process, which nobody handles. */
  datatype Outcome<+E> = Done | Raised(error: E) | Crashed {
    predicate IsFailure() {
      !Done?
    }

    function PropagateFailure(): Outcome<E>
      requires IsFailure()
    {
      this
    }
  }

  /** How an atomic step ends under its fate. */
  function Verdict<E>(f: Fate, error: E): Outcome<E> {
    match f
    case Works => Done
    case Raises => Raised(error)
    case Dies => Crashed
  }

  /** Two states of a directory agree except on the given names. */
  ghost predicate SameBut<K(!new), V>(before: map<K, V>, after: map<K, V>, changed: set<K>) {
    forall k :: k !in changed ==>
      (k in before <==> k in after) && (k in before && k in after ==> before[k] == after[k])
  }

  /** Nothing goes wrong from step `from` up to, but not including, step `to`. */
  ghost predicate WorksUntil(fate: nat -> Fate, from: nat, to: nat) {
    forall t: nat :: from <= t < to ==> fate(t) == Works
  }

  /** From step `from` on, nothing goes wrong. */
  ghost predicate AllWork(fate: nat -> Fate, from: nat) {
    forall t: nat :: t >= from ==> fate(t) == Works
  }

  ghost predicate NoRepeats<T>(s: seq<T>) {
    forall i, j :: 0 <= i < j < |s| ==> s[i] != s[j]
  }

  ghost function Elements<T>(s: seq<T>): set<T> {
    set x | x in s
  }

  /** A sequence is its front and its last element. */
  lemma FrontAndLast<T>(s: seq<T>)
    requires s != []
    ensures s == s[..|s| - 1] + [s[|s| - 1]]
  {
  }

  /** Pigeonhole: a sequence longer than the set it draws from repeats. */
  lemma {:induction false} Pigeonhole<T>(s: seq<T>, pool: set<T>)
    requires forall x :: x in s ==> x in pool
    requires |s| > |pool|
    ensures !NoRepeats(s)
    decreases |pool|
  {
    var x := s[0];
    assert x in pool;
    if x in s[1..] {
      var j :| 1 <= j < |s| && s[j] == x;
      assert s[0] == s[j];
    } else {
      var rest, smaller := s[1..], pool - {x};
      forall y | y in rest ensures y in smaller {
        assert y in s;
      }
      Pigeonhole(rest, smaller);
      var i, j :| 0 <= i < j < |rest| && rest[i] == rest[j];
      assert s[i + 1] == s[j + 1];
    }
  }

  /** A repeat-free sequence has as many elements as members. */
  lemma {:induction false} NoRepeatsCardinality<T>(s: seq<T>)
    requires NoRepeats(s)
    ensures |Elements(s)| == |s|
  {
    if s == [] {
      assert Elements(s) == {};
    } else {
      var rest := s[1..];
      NoRepeatsCardinality(rest);
      assert s == [s[0]] + rest;
      assert Elements(s) == {s[0]} + Elements(rest);
    }
  }
}
