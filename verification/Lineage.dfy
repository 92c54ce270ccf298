/** The Alembic revision graph of a source tree and the walk from a head to one
    of its ancestors (scripts/database_migration_guard.py). */
module Lineage {
  import opened Base

  type Revision = string

  /** revision -> its down_revision */
  type Graph = map<Revision, Option<Revision>>

  /** What the two regular expressions find in one file of alembic/versions. */
  datatype VersionFile = VersionFile(safe: bool, revision: Option<Revision>, down: Option<Revision>)

  datatype Error =
    | VersionFileUnsafe
    | DuplicateRevision(revision: Revision)
    | RevisionsMissing
    | HeadAmbiguous(heads: set<Revision>)
    | ParentMissing
    | LineageInvalid
    | NotDescendant
    | ContractInvalid
    | ActiveHeadNotInCandidate
    | PreviousReleaseIncompatible(pending: seq<Revision>)

  function Referenced(g: Graph): set<Revision> {
    set r | r in g && g[r].Some? :: g[r].value
  }

  function Heads(g: Graph): set<Revision> {
    g.Keys - Referenced(g)
  }

  predicate ParentClosed(g: Graph) {
    forall r :: r in g && g[r].Some? ==> g[r].value in g
  }

  /** The maps that the guard accepts, with the head it reports. */
  predicate Accepted(g: Graph, head: Revision) {
    Heads(g) == {head} && ParentClosed(g)
  }

  /** The revision files already read, as the dictionary under construction. */
  ghost function Collected(files: seq<VersionFile>): Graph {
    if files == [] then map[]
    else
      var f := files[|files| - 1];
      var g := Collected(files[..|files| - 1]);
      if f.revision.Some? then g[f.revision.value := f.down] else g
  }

  ghost predicate Distinct(files: seq<VersionFile>) {
    forall i, j :: 0 <= i < j < |files| && files[i].revision.Some? ==> files[i].revision != files[j].revision
  }

  ghost predicate AllSafe(files: seq<VersionFile>) {
    forall i :: 0 <= i < |files| ==> files[i].safe
  }

  lemma {:induction false} CollectedKeys(files: seq<VersionFile>, r: Revision)
    ensures r in Collected(files) <==> exists i :: 0 <= i < |files| && files[i].revision == Some(r)
  {
    if files != [] {
      var front, f := files[..|files| - 1], files[|files| - 1];
      CollectedKeys(front, r);
      if exists i :: 0 <= i < |files| && files[i].revision == Some(r) {
        var i :| 0 <= i < |files| && files[i].revision == Some(r);
        if i < |front| {
          assert front[i].revision == Some(r);
        }
      }
      if r in Collected(front) {
        var i :| 0 <= i < |front| && front[i].revision == Some(r);
        assert files[i].revision == Some(r);
      }
    }
  }

  lemma {:induction false} CollectedEntry(files: seq<VersionFile>, i: nat)
    requires i < |files| && Distinct(files) && files[i].revision.Some?
    ensures files[i].revision.value in Collected(files)
    ensures Collected(files)[files[i].revision.value] == files[i].down
  {
    var front := files[..|files| - 1];
    if i < |front| {
      assert Distinct(front);
      CollectedEntry(front, i);
    }
  }

  /** The graph is accepted exactly when every file is safe, no revision is
      declared twice, one revision is not referenced and no parent is missing;
      it then maps each declared revision to its declared parent. */
  method MigrationGraph(files: seq<VersionFile>) returns (r: Result<(Graph, Revision), Error>)
    ensures r.Ok? <==>
            AllSafe(files) && Distinct(files) && (exists h :: Accepted(Collected(files), h))
    ensures r.Ok? ==> r.value.0 == Collected(files) && Accepted(r.value.0, r.value.1)
    ensures r.Ok? ==> forall i :: 0 <= i < |files| && files[i].revision.Some? ==>
              files[i].revision.value in r.value.0 && r.value.0[files[i].revision.value] == files[i].down
  {
    var revisions: Graph := map[];
    var i := 0;
    while i < |files|
      invariant 0 <= i <= |files|
      invariant revisions == Collected(files[..i])
      invariant AllSafe(files[..i]) && Distinct(files[..i])
    {
      var file := files[i];
      assert files[..i + 1][..i] == files[..i];
      if !file.safe {
        return Err(VersionFileUnsafe);
      }
      if file.revision.Some? {
        var revision := file.revision.value;
        CollectedKeys(files[..i], revision);
        if revision in revisions {
          assert !Distinct(files) by {
            var k :| 0 <= k < i && files[..i][k].revision == Some(revision);
            assert files[k].revision == files[i].revision;
          }
          return Err(DuplicateRevision(revision));
        }
        revisions := revisions[revision := file.down];
      }
      i := i + 1;
    }
    assert files[..i] == files;
    if |revisions| == 0 {
      assert revisions == map[];
      return Err(RevisionsMissing);
    }
    var heads := Heads(revisions);
    SingleIsOne(heads);
    if |heads| != 1 {
      assert forall h: Revision :: |{h}| == 1;
      return Err(HeadAmbiguous(heads));
    }
    if !ParentClosed(revisions) {
      return Err(ParentMissing);
    }
    var head := TheOnly(heads);
    forall k | 0 <= k < |files| && files[k].revision.Some?
      ensures files[k].revision.value in revisions && revisions[files[k].revision.value] == files[k].down
    {
      CollectedEntry(files, k);
    }
    assert Accepted(revisions, head);
    return Ok((revisions, head));
  }

  /** There is exactly one element. */
  predicate Single(s: set<Revision>) {
    exists x :: x in s && s == {x}
  }

  lemma SingleIsOne(s: set<Revision>)
    ensures Single(s) <==> |s| == 1
  {
    if |s| == 1 {
      var x :| x in s;
      assert |s - {x}| == 0;
      assert s == {x};
    }
  }

  /** The one element of a singleton; the source sorts the heads and takes
      the first. */
  function TheOnly(s: set<Revision>): (x: Revision)
    requires Single(s)
    ensures s == {x}
  {
    var x :| x in s && s == {x};
    x
  }

  /** The revision n parent links above r, if the chain is that long. */
  ghost function Up(g: Graph, r: Revision, n: nat): Option<Revision>
    decreases n
  {
    if n == 0 then Some(r)
    else if r in g && g[r].Some? then Up(g, g[r].value, n - 1)
    else None
  }

  ghost predicate OnChain(g: Graph, head: Revision, r: Revision) {
    exists n: nat :: Up(g, head, n) == Some(r)
  }

  ghost predicate OnCycle(g: Graph, r: Revision) {
    exists n: nat :: n >= 1 && Up(g, r, n) == Some(r)
  }

  ghost predicate Acyclic(g: Graph) {
    forall r :: r in g ==> !OnCycle(g, r)
  }

  /** p lists parents upwards: each element's parent is the next one. */
  ghost predicate Climbs(g: Graph, p: seq<Revision>) {
    && (forall i :: 0 <= i < |p| ==> p[i] in g)
    && (forall i :: 0 <= i < |p| - 1 ==> g[p[i]] == Some(p[i + 1]))
  }

  lemma {:induction false} UpStep(g: Graph, r: Revision, n: nat)
    requires Up(g, r, n).Some?
    ensures var x := Up(g, r, n).value;
            Up(g, r, n + 1) == if x in g then g[x] else None
    decreases n
  {
    if n > 0 {
      UpStep(g, g[r].value, n - 1);
    }
  }

  lemma {:induction false} ClimbsUp(g: Graph, p: seq<Revision>, i: nat, n: nat)
    requires Climbs(g, p) && i + n < |p|
    ensures Up(g, p[i], n) == Some(p[i + n])
    decreases n
  {
    if n > 0 {
      ClimbsUp(g, p, i + 1, n - 1);
    }
  }

  lemma {:induction false} ClimbsOver(g: Graph, p: seq<Revision>, i: nat, n: nat)
    requires Climbs(g, p) && i < |p| <= i + n && g[p[|p| - 1]] == None
    ensures Up(g, p[i], n) == None
    decreases n
  {
    if i < |p| - 1 {
      ClimbsOver(g, p, i + 1, n - 1);
    }
  }

  /** Every revision off the head's chain has a child off the chain, so a
      descending line of any length ends in it. */
  lemma {:induction false} DescendingLine(g: Graph, head: Revision, r: Revision, n: nat) returns (p: seq<Revision>)
    requires Accepted(g, head) && r in g && !OnChain(g, head, r)
    ensures |p| == n + 1 && Climbs(g, p) && p[n] == r
    decreases n
  {
    if n == 0 {
      p := [r];
    } else {
      assert r != head by {
        assert Up(g, head, 0) == Some(head);
      }
      assert r in Referenced(g) by {
        assert r !in Heads(g);
      }
      var c :| c in g && g[c] == Some(r);
      forall m: nat ensures Up(g, head, m) != Some(c) {
        if Up(g, head, m) == Some(c) {
          UpStep(g, head, m);
        }
      }
      var q := DescendingLine(g, head, c, n - 1);
      p := q + [r];
    }
  }

  /** Structure of an accepted map: a revision that the head does not descend
      from lies on a cycle of parent links. */
  lemma {:induction false} OffChainIsCyclic(g: Graph, head: Revision, r: Revision)
    requires Accepted(g, head) && r in g && !OnChain(g, head, r)
    ensures OnCycle(g, r)
  {
    var n := |g.Keys|;
    var p := DescendingLine(g, head, r, n);
    Pigeonhole(p, g.Keys);
    var i, j :| 0 <= i < j < |p| && p[i] == p[j];
    // From p[j] it takes n - j links to r; from p[i] the same n - j links stop
    // at p[n - (j - i)], which is therefore r, with j - i links left to r.
    ClimbsUp(g, p, j, n - j);
    ClimbsUp(g, p, i, n - j);
    ClimbsUp(g, p, n - (j - i), j - i);
  }

  /** All revisions on one line from the head to a root, each once. */
  ghost predicate OneChain(g: Graph, head: Revision, p: seq<Revision>) {
    && p != [] && p[0] == head && Climbs(g, p) && NoRepeats(p)
    && g[p[|p| - 1]] == None
    && Elements(p) == g.Keys
  }

  lemma {:induction false} GrowChain(g: Graph, head: Revision, p: seq<Revision>) returns (q: seq<Revision>)
    requires Accepted(g, head) && Acyclic(g)
    requires p != [] && p[0] == head && Climbs(g, p)
    ensures q != [] && q[0] == head && Climbs(g, q) && NoRepeats(q) && g[q[|q| - 1]] == None
    decreases |g| - |p|
  {
    forall i, j | 0 <= i < j < |p| ensures p[i] != p[j] {
      ClimbsUp(g, p, i, j - i);
      assert !OnCycle(g, p[i]);
    }
    if g[p[|p| - 1]].None? {
      q := p;
    } else {
      if |p| > |g.Keys| {
        Pigeonhole(p, g.Keys);
      }
      var p' := p + [g[p[|p| - 1]].value];
      if |p'| > |g.Keys| {
        forall i, j | 0 <= i < j < |p'| ensures p'[i] != p'[j] {
          ClimbsUp(g, p', i, j - i);
          assert !OnCycle(g, p'[i]);
        }
        Pigeonhole(p', g.Keys);
        assert false;
      }
      q := GrowChain(g, head, p');
    }
  }

  /** An accepted map is one chain holding every revision exactly once if and
      only if it has no cycle; acceptance alone does not exclude one. */
  lemma AcceptedIsOneChainIffAcyclic(g: Graph, head: Revision)
    requires Accepted(g, head)
    ensures (exists p :: OneChain(g, head, p)) <==> Acyclic(g)
  {
    if Acyclic(g) {
      var p := GrowChain(g, head, [head]);
      forall r | r in g ensures r in p {
        if !OnChain(g, head, r) {
          OffChainIsCyclic(g, head, r);
        }
        var n: nat :| Up(g, head, n) == Some(r);
        if n < |p| {
          ClimbsUp(g, p, 0, n);
        } else {
          ClimbsOver(g, p, 0, n);
        }
      }
      assert Elements(p) == g.Keys;
      assert OneChain(g, head, p);
    }
    if p :| OneChain(g, head, p) {
      forall r | r in g ensures !OnCycle(g, r) {
        assert r in Elements(p);
        var i :| 0 <= i < |p| && p[i] == r;
        forall n: nat | n >= 1 ensures Up(g, r, n) != Some(r) {
          if i + n < |p| {
            ClimbsUp(g, p, i, n);
          } else {
            ClimbsOver(g, p, i, n);
          }
        }
      }
    }
  }

  /** A cyclic map that the guard accepts. */
  lemma AcceptedButCyclic()
    ensures var g := map["head" := None, "a" := Some("b"), "b" := Some("a")];
            Accepted(g, "head") && OnCycle(g, "a")
  {
    var g: Graph := map["head" := None, "a" := Some("b"), "b" := Some("a")];
    assert g["a"] == Some("b") && g["b"] == Some("a");
    assert Referenced(g) == {"a", "b"};
    assert Heads(g) == {"head"};
    assert Up(g, "a", 2) == Up(g, "b", 1) == Up(g, "a", 0);
  }

  // ---- the walk to an ancestor ----

  /** The walk of _path_to_ancestor as a function of its loop state. */
  function Walk(g: Graph, ancestor: Revision, cur: Revision, seen: set<Revision>): Result<seq<Revision>, Error>
    decreases |g.Keys - seen|
  {
    if cur == ancestor then Ok([])
    else if cur in seen || cur !in g then Err(LineageInvalid)
    else if g[cur].None? then Err(NotDescendant)
    else
      assert g.Keys - (seen + {cur}) < g.Keys - seen;
      SmallerSet(g.Keys - (seen + {cur}), g.Keys - seen);
      var rest := Walk(g, ancestor, g[cur].value, seen + {cur});
      if rest.Ok? then Ok(rest.value + [cur]) else rest
  }

  lemma {:induction false} SmallerSet<T>(a: set<T>, b: set<T>)
    requires a < b
    ensures |a| < |b|
  {
    var x :| x in b && x !in a;
    if a != {} {
      var y :| y in a;
      SmallerSet(a - {y}, b - {y});
    }
  }

  function PathToAncestor(g: Graph, ancestor: Revision, descendant: Revision): Result<seq<Revision>, Error> {
    Walk(g, ancestor, descendant, {})
  }

  /** The parent chain from just above the ancestor to the descendant, oldest
      first and without repeats. */
  ghost predicate IsPath(g: Graph, ancestor: Revision, descendant: Revision, p: seq<Revision>) {
    && (forall i :: 0 <= i < |p| ==> p[i] in g && p[i] != ancestor)
    && (p == [] ==> descendant == ancestor)
    && (p != [] ==> p[|p| - 1] == descendant && g[p[0]] == Some(ancestor))
    && (forall i :: 0 < i < |p| ==> g[p[i]] == Some(p[i - 1]))
    && NoRepeats(p)
  }

  ghost predicate Reaches(g: Graph, ancestor: Revision, descendant: Revision) {
    exists n: nat :: Up(g, descendant, n) == Some(ancestor)
  }

  /** n links lead from descendant to ancestor and fewer do not. */
  ghost predicate Distance(g: Graph, ancestor: Revision, descendant: Revision, n: nat) {
    && Up(g, descendant, n) == Some(ancestor)
    && (forall m: nat :: m < n ==> Up(g, descendant, m) != Some(ancestor))
  }

  lemma {:induction false} UpCompose(g: Graph, r: Revision, m: nat, n: nat)
    requires Up(g, r, m).Some?
    ensures Up(g, r, m + n) == Up(g, Up(g, r, m).value, n)
    decreases m
  {
    if m > 0 {
      UpCompose(g, g[r].value, m - 1, n);
    }
  }

  lemma {:induction false} UpPrefix(g: Graph, r: Revision, m: nat, n: nat)
    requires Up(g, r, m + n).Some?
    ensures Up(g, r, m).Some?
    decreases m
  {
    if m > 0 {
      UpPrefix(g, g[r].value, m - 1, n);
    }
  }

  lemma {:induction false} ReachesHasDistance(g: Graph, a: Revision, d: Revision, n: nat) returns (m: nat)
    requires Up(g, d, n) == Some(a)
    ensures Distance(g, a, d, m)
    decreases n
  {
    if k: nat :| k < n && Up(g, d, k) == Some(a) {
      m := ReachesHasDistance(g, a, d, k);
    } else {
      m := n;
    }
  }

  /** The shortest way up to the ancestor meets no revision twice. */
  lemma DistanceNoRepeats(g: Graph, a: Revision, d: Revision, n: nat, i: nat, j: nat)
    requires Distance(g, a, d, n) && i < j <= n
    ensures Up(g, d, i).Some? && Up(g, d, i) != Up(g, d, j)
  {
    UpPrefix(g, d, i, n - i);
    UpPrefix(g, d, j, n - j);
    UpCompose(g, d, j, n - j);
    UpCompose(g, d, i, n - j);
  }

  ghost predicate ListsWayUp(g: Graph, d: Revision, p: seq<Revision>) {
    forall i :: 0 <= i < |p| ==> Up(g, d, |p| - 1 - i) == Some(p[i])
  }

  lemma {:induction false} WalkComplete(g: Graph, a: Revision, cur: Revision, seen: set<Revision>, n: nat)
    requires Distance(g, a, cur, n)
    requires forall m: nat :: m < n ==> Up(g, cur, m).Some? && Up(g, cur, m).value !in seen
    ensures var r := Walk(g, a, cur, seen);
            r.Ok? && |r.value| == n && ListsWayUp(g, cur, r.value)
    decreases n
  {
    assert Up(g, cur, 0) == Some(cur);
    if n > 0 {
      var next := g[cur].value;
      forall m: nat | m < n - 1
        ensures Up(g, next, m).Some? && Up(g, next, m).value !in seen + {cur} && Up(g, next, m) != Some(a)
      {
        assert Up(g, next, m) == Up(g, cur, m + 1);
        DistanceNoRepeats(g, a, cur, n, 0, m + 1);
      }
      WalkComplete(g, a, next, seen + {cur}, n - 1);
    }
  }

  lemma {:induction false} WalkSound(g: Graph, a: Revision, cur: Revision, seen: set<Revision>)
    requires Walk(g, a, cur, seen).Ok?
    ensures Distance(g, a, cur, |Walk(g, a, cur, seen).value|)
    decreases |g.Keys - seen|
  {
    assert Up(g, cur, 0) == Some(cur);
    if cur != a {
      SmallerSet(g.Keys - (seen + {cur}), g.Keys - seen);
      WalkSound(g, a, g[cur].value, seen + {cur});
    }
  }

  lemma IsPathIffShortestWayUp(g: Graph, a: Revision, d: Revision, p: seq<Revision>)
    ensures IsPath(g, a, d, p) <==> Distance(g, a, d, |p|) && ListsWayUp(g, d, p)
  {
    if IsPath(g, a, d, p) {
      PathWayUp(g, a, d, p);
    }
    if Distance(g, a, d, |p|) && ListsWayUp(g, d, p) {
      WayUpPath(g, a, d, p);
    }
  }

  lemma WayUpPath(g: Graph, a: Revision, d: Revision, p: seq<Revision>)
    requires Distance(g, a, d, |p|) && ListsWayUp(g, d, p)
    ensures IsPath(g, a, d, p)
  {
    forall i | 0 <= i < |p| ensures p[i] in g && p[i] != a && g[p[i]] == Some(Preceding(a, p, i)) {
      WayUpLink(g, a, d, p, i);
    }
    forall i, j | 0 <= i < j < |p| ensures p[i] != p[j] {
      DistanceNoRepeats(g, a, d, |p|, |p| - 1 - j, |p| - 1 - i);
    }
    assert Up(g, d, 0) == Some(d);
    if p != [] {
      assert g[p[0]] == Some(Preceding(a, p, 0));
      forall i | 0 < i < |p| ensures g[p[i]] == Some(p[i - 1]) {
        assert g[p[i]] == Some(Preceding(a, p, i));
      }
      assert p[|p| - 1] == d;
    }
  }

  lemma WayUpLink(g: Graph, a: Revision, d: Revision, p: seq<Revision>, i: nat)
    requires Distance(g, a, d, |p|) && ListsWayUp(g, d, p) && i < |p|
    ensures p[i] in g && p[i] != a && g[p[i]] == Some(Preceding(a, p, i))
  {
    assert Up(g, d, |p| - 1 - i) == Some(p[i]);
    assert i > 0 ==> Up(g, d, |p| - 1 - (i - 1)) == Some(p[i - 1]);
    UpStep(g, d, |p| - 1 - i);
  }

  ghost function Preceding(a: Revision, p: seq<Revision>, i: nat): Revision
    requires i < |p|
  {
    if i == 0 then a else p[i - 1]
  }

  lemma {:induction false} PathWayUp(g: Graph, a: Revision, d: Revision, p: seq<Revision>)
    requires IsPath(g, a, d, p)
    ensures Distance(g, a, d, |p|) && ListsWayUp(g, d, p)
    decreases |p|
  {
    assert Up(g, d, 0) == Some(d);
    if p != [] {
      var q := p[..|p| - 1];
      assert g[p[|p| - 1]] == if |p| == 1 then Some(a) else Some(p[|p| - 2]);
      var next := g[d].value;
      assert forall i :: 0 <= i < |q| ==> q[i] == p[i];
      assert IsPath(g, a, next, q);
      PathWayUp(g, a, next, q);
      forall i | 0 <= i < |p| ensures Up(g, d, |p| - 1 - i) == Some(p[i]) {
        if i < |q| {
          assert Up(g, next, |q| - 1 - i) == Some(q[i]);
        }
      }
    }
  }

  lemma {:induction false} WalkRunsOut(g: Graph, a: Revision, cur: Revision, seen: set<Revision>, n: nat)
    requires !Reaches(g, a, cur)
    requires EndsAtRoot(g, cur, n)
    requires forall m: nat :: m <= n ==> Up(g, cur, m).Some? && Up(g, cur, m).value !in seen
    ensures Walk(g, a, cur, seen) == Err(NotDescendant)
    decreases n
  {
    assert Up(g, cur, 0) == Some(cur);
    if n > 0 {
      var next := g[cur].value;
      forall k: nat ensures Up(g, next, k) != Some(a) {
        assert Up(g, cur, k + 1) == Up(g, next, k);
      }
      forall m: nat | m <= n - 1 ensures Up(g, next, m).Some? && Up(g, next, m).value !in seen + {cur} {
        assert Up(g, next, m) == Up(g, cur, m + 1);
        if Up(g, cur, m + 1) == Some(cur) {
          // going round from cur would leave the root behind
          UpCompose(g, cur, m + 1, n - m);
          UpStep(g, cur, n);
        }
      }
      assert EndsAtRoot(g, next, n - 1);
      WalkRunsOut(g, a, next, seen + {cur}, n - 1);
    }
  }

  ghost predicate EndsAtRoot(g: Graph, r: Revision, n: nat) {
    Up(g, r, n).Some? && Up(g, r, n).value in g && g[Up(g, r, n).value].None?
  }

  lemma {:induction false} NotDescendantEndsAtRoot(g: Graph, a: Revision, cur: Revision, seen: set<Revision>) returns (n: nat)
    requires Walk(g, a, cur, seen) == Err(NotDescendant)
    ensures EndsAtRoot(g, cur, n)
    decreases |g.Keys - seen|
  {
    if g[cur].None? {
      n := 0;
    } else {
      SmallerSet(g.Keys - (seen + {cur}), g.Keys - seen);
      n := NotDescendantEndsAtRoot(g, a, g[cur].value, seen + {cur});
      n := n + 1;
    }
  }

  lemma {:induction false} WalkErrors(g: Graph, a: Revision, cur: Revision, seen: set<Revision>)
    ensures Walk(g, a, cur, seen) in {Err(LineageInvalid), Err(NotDescendant)} || Walk(g, a, cur, seen).Ok?
    decreases |g.Keys - seen|
  {
    if cur != a && cur !in seen && cur in g && g[cur].Some? {
      SmallerSet(g.Keys - (seen + {cur}), g.Keys - seen);
      WalkErrors(g, a, g[cur].value, seen + {cur});
    }
  }

  /** On every map, cyclic or not: a path is returned exactly when the ancestor
      is reachable, and it is the one parent chain; otherwise the error says
      whether the chain ends at a root or loops or leaves the map. */
  lemma PathToAncestorExact(g: Graph, a: Revision, d: Revision)
    ensures PathToAncestor(g, a, d).Ok? <==> Reaches(g, a, d)
    ensures forall p :: IsPath(g, a, d, p) <==> PathToAncestor(g, a, d) == Ok(p)
    ensures PathToAncestor(g, a, d) == Err(NotDescendant)
            <==> !Reaches(g, a, d) && exists n: nat :: EndsAtRoot(g, d, n)
    ensures PathToAncestor(g, a, d) == Err(LineageInvalid)
            <==> !Reaches(g, a, d) && !exists n: nat :: EndsAtRoot(g, d, n)
  {
    var r := PathToAncestor(g, a, d);
    WalkErrors(g, a, d, {});
    if Reaches(g, a, d) {
      var n: nat :| Up(g, d, n) == Some(a);
      var m := ReachesHasDistance(g, a, d, n);
      forall k: nat | k < m ensures Up(g, d, k).Some? {
        DistanceNoRepeats(g, a, d, m, k, m);
      }
      WalkComplete(g, a, d, {}, m);
      IsPathIffShortestWayUp(g, a, d, r.value);
      forall p | IsPath(g, a, d, p) ensures p == r.value {
        IsPathIffShortestWayUp(g, a, d, p);
        SameDistance(g, a, d, |p|, m);
        forall i | 0 <= i < |p| ensures p[i] == r.value[i] {
          assert Up(g, d, |p| - 1 - i) == Some(p[i]);
          assert Up(g, d, |p| - 1 - i) == Some(r.value[i]);
        }
      }
    } else {
      if r.Ok? {
        WalkSound(g, a, d, {});
      }
      forall p ensures !IsPath(g, a, d, p) {
        IsPathIffShortestWayUp(g, a, d, p);
      }
      if n: nat :| EndsAtRoot(g, d, n) {
        forall m: nat | m <= n ensures Up(g, d, m).Some? {
          UpPrefix(g, d, m, n - m);
        }
        WalkRunsOut(g, a, d, {}, n);
      }
      if r == Err(NotDescendant) {
        var n := NotDescendantEndsAtRoot(g, a, d, {});
      }
    }
  }

  lemma SameDistance(g: Graph, a: Revision, d: Revision, m: nat, n: nat)
    requires Distance(g, a, d, m) && Distance(g, a, d, n)
    ensures m == n
  {
  }

  lemma PathCut(g: Graph, a: Revision, c: Revision, p: seq<Revision>, k: nat)
    requires IsPath(g, a, c, p) && k < |p|
    ensures IsPath(g, a, p[k], p[..k + 1])
    ensures IsPath(g, p[k], c, p[k + 1..])
  {
    var low, high := p[..k + 1], p[k + 1..];
    forall i | 0 <= i < |high| ensures high[i] in g && high[i] != p[k] {
      assert high[i] == p[k + 1 + i];
    }
    forall i | 0 < i < |high| ensures g[high[i]] == Some(high[i - 1]) {
      assert high[i] == p[k + 1 + i] && high[i - 1] == p[k + i];
    }
    if high != [] {
      assert high[0] == p[k + 1] && high[|high| - 1] == p[|p| - 1];
    }
  }

  /** Cutting the path at any revision on it gives the two partial paths. */
  lemma PathsCompose(g: Graph, a: Revision, b: Revision, c: Revision)
    requires PathToAncestor(g, a, c).Ok?
    requires b == a || b in PathToAncestor(g, a, c).value
    ensures PathToAncestor(g, a, b).Ok? && PathToAncestor(g, b, c).Ok?
    ensures PathToAncestor(g, a, c).value == PathToAncestor(g, a, b).value + PathToAncestor(g, b, c).value
  {
    var p := PathToAncestor(g, a, c).value;
    PathIsPath(g, a, c, p);
    var k := if b == a then 0 else IndexOf(p, b) + 1;
    if b != a {
      PathCut(g, a, c, p, k - 1);
    }
    PathIsPath(g, a, b, p[..k]);
    PathIsPath(g, b, c, p[k..]);
    assert p == p[..k] + p[k..];
  }

  function IndexOf(s: seq<Revision>, x: Revision): (i: nat)
    requires x in s
    ensures i < |s| && s[i] == x
  {
    if s[0] == x then 0 else 1 + IndexOf(s[1..], x)
  }

  lemma PathOutcome(g: Graph, a: Revision, d: Revision)
    ensures var r := PathToAncestor(g, a, d);
            && (r.Ok? <==> Reaches(g, a, d))
            && (r.Ok? ==> IsPath(g, a, d, r.value))
            && (forall p :: IsPath(g, a, d, p) ==> r == Ok(p))
  {
    PathToAncestorExact(g, a, d);
  }

  lemma PathIsPath(g: Graph, a: Revision, d: Revision, p: seq<Revision>)
    ensures IsPath(g, a, d, p) <==> PathToAncestor(g, a, d) == Ok(p)
  {
    PathToAncestorExact(g, a, d);
  }

  /** The loop of _path_to_ancestor; the collected list is reversed at the end. */
  method FindPathToAncestor(g: Graph, ancestor: Revision, descendant: Revision) returns (r: Result<seq<Revision>, Error>)
    ensures r == PathToAncestor(g, ancestor, descendant)
    ensures r.Ok? <==> Reaches(g, ancestor, descendant)
    ensures r.Ok? ==> IsPath(g, ancestor, descendant, r.value)
  {
    var cur, reverse := descendant, [];
    PathOutcome(g, ancestor, descendant);
    var seen: set<Revision> := {};
    while cur != ancestor
      invariant PathToAncestor(g, ancestor, descendant) == Then(Walk(g, ancestor, cur, seen), Reversed(reverse))
      decreases |g.Keys - seen|
    {
      if cur in seen || cur !in g {
        return Err(LineageInvalid);
      }
      SmallerSet(g.Keys - (seen + {cur}), g.Keys - seen);
      WalkStep(g, ancestor, cur, seen, reverse);
      seen := seen + {cur};
      reverse := reverse + [cur];
      if g[cur].None? {
        return Err(NotDescendant);
      }
      cur := g[cur].value;
    }
    r := Ok(Reversed(reverse));
    assert [] + Reversed(reverse) == Reversed(reverse);
  }

  lemma WalkStep(g: Graph, a: Revision, cur: Revision, seen: set<Revision>, collected: seq<Revision>)
    requires cur != a && cur in g && cur !in seen
    ensures Then(Walk(g, a, cur, seen), Reversed(collected)) ==
            if g[cur].None? then Err(NotDescendant)
            else Then(Walk(g, a, g[cur].value, seen + {cur}), Reversed(collected + [cur]))
  {
    if g[cur].Some? {
      var walk := Walk(g, a, g[cur].value, seen + {cur});
      assert (collected + [cur])[..|collected|] == collected;
      if walk.Ok? {
        assert (walk.value + [cur]) + Reversed(collected) == walk.value + ([cur] + Reversed(collected));
      }
    }
  }

  /** A walk's outcome followed by the part already collected. */
  ghost function Then(walk: Result<seq<Revision>, Error>, collected: seq<Revision>): Result<seq<Revision>, Error> {
    if walk.Ok? then Ok(walk.value + collected) else walk
  }

  function Reversed(s: seq<Revision>): (r: seq<Revision>)
    ensures |r| == |s| && forall i :: 0 <= i < |s| ==> r[i] == s[|s| - 1 - i]
  {
    if s == [] then [] else [s[|s| - 1]] + Reversed(s[..|s| - 1])
  }

  // ---- comparing two releases ----

  /** One entry of MIGRATION_COMPATIBILITY.json. */
  datatype Entry = Entry(
    down: Option<Revision>,
    previousReleaseCompatible: bool,
    requiresBackup: bool,
    strategyKnown: bool)

  /** The migration part of a source tree. */
  datatype Schema = Schema(revisions: Graph, contract: map<Revision, Entry>)

  datatype Plan = Plan(
    required: bool,
    fromHead: Revision,
    toHead: Revision,
    pending: seq<Revision>,
    requiresBackup: bool)

  predicate ContractCovers(s: Schema) {
    forall r :: r in s.revisions ==>
      r in s.contract && s.contract[r].down == s.revisions[r] && s.contract[r].strategyKnown
  }

  /** migration_state: the checks on the graph, then on the contract. */
  function SchemaHead(s: Schema): Result<Revision, Error> {
    var heads := Heads(s.revisions);
    if s.revisions == map[] then Err(RevisionsMissing)
    else if !Single(heads) then Err(HeadAmbiguous(heads))
    else if !ParentClosed(s.revisions) then Err(ParentMissing)
    else if !ContractCovers(s) then Err(ContractInvalid)
    else Ok(TheOnly(heads))
  }

  /** The head is the one that the revision files are accepted with, provided the
      contract covers them. */
  lemma SchemaHeadExact(s: Schema, head: Revision)
    ensures SchemaHead(s) == Ok(head) <==> Accepted(s.revisions, head) && ContractCovers(s)
  {
    var heads := Heads(s.revisions);
    if Single(heads) {
      assert heads == {TheOnly(heads)};
    }
    if Accepted(s.revisions, head) {
      assert head in heads;
    }
  }

  predicate AllCompatible(s: Schema, pending: seq<Revision>) {
    forall r :: r in pending ==> r in s.contract && s.contract[r].previousReleaseCompatible
  }

  /** The plan between two heads in the candidate. */
  function PlanBetween(before: Result<Revision, Error>, after: Result<Revision, Error>, candidate: Schema): Result<Plan, Error> {
    if before.Err? then Err(before.error)
    else if after.Err? then Err(after.error)
    else if before.value == after.value then Ok(Plan(false, before.value, after.value, [], false))
    else if before.value !in candidate.revisions then Err(ActiveHeadNotInCandidate)
    else
      var path := PathToAncestor(candidate.revisions, before.value, after.value);
      if path.Err? then Err(path.error)
      else if !AllCompatible(candidate, path.value) then Err(PreviousReleaseIncompatible(path.value))
      else
        var backup := exists r :: r in path.value && r in candidate.contract && candidate.contract[r].requiresBackup;
        Ok(Plan(true, before.value, after.value, path.value, backup))
  }

  function CompareReleaseMigrations(active: Schema, candidate: Schema): Result<Plan, Error> {
    PlanBetween(SchemaHead(active), SchemaHead(candidate), candidate)
  }

  ghost predicate CompatiblePath(s: Schema, before: Revision, after: Revision) {
    exists p :: IsPath(s.revisions, before, after, p) && AllCompatible(s, p)
  }

  lemma PlanBetweenExact(before: Result<Revision, Error>, after: Result<Revision, Error>, candidate: Schema)
    ensures PlanBetween(before, after, candidate).Ok? <==>
              before.Ok? && after.Ok? &&
              (before.value == after.value ||
               (before.value in candidate.revisions && CompatiblePath(candidate, before.value, after.value)))
  {
    if before.Ok? && after.Ok? && before.value != after.value {
      PathOutcome(candidate.revisions, before.value, after.value);
    }
  }

  /** A plan is made exactly when both trees are well formed and either have
      the same head, or the candidate's head descends from the active head
      through revisions that are all compatible with the previous release. */
  lemma PlanExact(active: Schema, candidate: Schema)
    ensures CompareReleaseMigrations(active, candidate).Ok? <==>
              var before, after := SchemaHead(active), SchemaHead(candidate);
              before.Ok? && after.Ok? &&
              (before.value == after.value ||
               (before.value in candidate.revisions && CompatiblePath(candidate, before.value, after.value)))
  {
    PlanBetweenExact(SchemaHead(active), SchemaHead(candidate), candidate);
  }

  /** For well-formed trees a plan is a compatible path between the two heads. */
  lemma PlanIffCompatiblePath(active: Schema, candidate: Schema)
    requires SchemaHead(active).Ok? && SchemaHead(candidate).Ok?
    ensures CompareReleaseMigrations(active, candidate).Ok? <==>
              CompatiblePath(candidate, SchemaHead(active).value, SchemaHead(candidate).value)
  {
    PlanExact(active, candidate);
    SchemaHeadExact(candidate, SchemaHead(candidate).value);
    CompatiblePathStart(candidate, SchemaHead(active).value, SchemaHead(candidate).value);
  }

  lemma CompatiblePathStart(s: Schema, before: Revision, after: Revision)
    requires ParentClosed(s.revisions)
    ensures before == after ==> CompatiblePath(s, before, after)
    ensures before != after && CompatiblePath(s, before, after) ==> before in s.revisions
  {
    if before == after {
      assert IsPath(s.revisions, before, after, []) && AllCompatible(s, []);
    } else if p :| IsPath(s.revisions, before, after, p) && AllCompatible(s, p) {
      assert p[0] in s.revisions && s.revisions[p[0]] == Some(before);
    }
  }

  lemma PlanBetweenMeaning(before: Result<Revision, Error>, after: Result<Revision, Error>, candidate: Schema, plan: Plan)
    requires PlanBetween(before, after, candidate) == Ok(plan)
    ensures before == Ok(plan.fromHead) && after == Ok(plan.toHead) && plan.required == (plan.fromHead != plan.toHead)
    ensures IsPath(candidate.revisions, plan.fromHead, plan.toHead, plan.pending) && AllCompatible(candidate, plan.pending)
  {
    PathIsPath(candidate.revisions, plan.fromHead, plan.toHead, plan.pending);
    if !plan.required {
      EmptyPath(candidate.revisions, plan.toHead);
    }
  }

  lemma EmptyPath(g: Graph, a: Revision)
    ensures IsPath(g, a, a, [])
  {
  }

  /** What a plan says: the two heads, and between them the whole parent chain,
      every revision of it marked compatible. */
  lemma PlanMeaning(active: Schema, candidate: Schema, plan: Plan)
    requires CompareReleaseMigrations(active, candidate) == Ok(plan)
    ensures plan.required == (plan.fromHead != plan.toHead)
    ensures SchemaHead(active) == Ok(plan.fromHead) && SchemaHead(candidate) == Ok(plan.toHead)
    ensures IsPath(candidate.revisions, plan.fromHead, plan.toHead, plan.pending)
    ensures AllCompatible(candidate, plan.pending)
  {
    PlanBetweenMeaning(SchemaHead(active), SchemaHead(candidate), candidate, plan);
  }
}
