/** Portable archive paths (scripts/package_release.py, and the extraction target
    of scripts/extract_source_package.py). */
module PortablePaths {
  import opened Base

  datatype Problem =
    | InvalidSeparatorOrNul
    | AbsolutePath
    | UnsafeSegment
    | TrailingDotOrSpace
    | ReservedName
    | ControlCharacter
    | InvalidCharacter

  const RESERVED: set<string> := {
    "CON", "PRN", "AUX", "NUL",
    "COM1", "COM2", "COM3", "COM4", "COM5", "COM6", "COM7", "COM8", "COM9",
    "LPT1", "LPT2", "LPT3", "LPT4", "LPT5", "LPT6", "LPT7", "LPT8", "LPT9"}

  /** str.split with a one-character separator. */
  function Split(s: string, separator: char): (parts: seq<string>)
    ensures |parts| >= 1
  {
    if s == "" then [""]
    else
      var rest := Split(s[1..], separator);
      if s[0] == separator then [""] + rest else [[s[0]] + rest[0]] + rest[1..]
  }

  function Join(parts: seq<string>): string {
    if parts == [] then ""
    else if |parts| == 1 then parts[0]
    else parts[0] + "/" + Join(parts[1..])
  }

  lemma {:induction false} SplitOfConcatenation(a: string, b: string)
    ensures Split(a + "/" + b, '/') == Split(a, '/') + Split(b, '/')
  {
    if a == "" {
      assert a + "/" + b == "/" + b;
      assert ("/" + b)[1..] == b;
    } else {
      assert (a + "/" + b)[1..] == a[1..] + "/" + b;
      SplitOfConcatenation(a[1..], b);
    }
  }

  lemma {:induction false} SplitOfSegment(s: string)
    requires '/' !in s
    ensures Split(s, '/') == [s]
  {
    if s != "" {
      SplitOfSegment(s[1..]);
      assert [s[0]] + s[1..] == s;
    }
  }

  lemma JoinStep(part: string, rest: seq<string>)
    requires rest != []
    ensures Join([part] + rest) == part + "/" + Join(rest)
  {
    assert ([part] + rest)[1..] == rest;
  }

  lemma JoinPrepend(c: char, parts: seq<string>)
    requires parts != []
    ensures Join([[c] + parts[0]] + parts[1..]) == [c] + Join(parts)
  {
    var first, rest := parts[0], parts[1..];
    if rest != [] {
      JoinStep([c] + first, rest);
      Regroup([c], first, "/", Join(rest));
    }
  }

  lemma Regroup(a: string, b: string, c: string, d: string)
    ensures (a + b) + c + d == a + (b + c + d)
  {
  }

  lemma {:induction false} JoinOfSplit(s: string)
    ensures Join(Split(s, '/')) == s
  {
    if s != "" {
      JoinOfSplit(s[1..]);
      var rest := Split(s[1..], '/');
      assert s == [s[0]] + s[1..];
      if s[0] == '/' {
        JoinStep("", rest);
      } else {
        JoinPrepend(s[0], rest);
      }
    }
  }

  function Upper(s: string): string {
    if s == "" then ""
    else [if 'a' <= s[0] <= 'z' then s[0] - 'a' + 'A' else s[0]] + Upper(s[1..])
  }

  function PartProblem(part: string): Option<Problem> {
    if part != "" && part[|part| - 1] in " ." then Some(TrailingDotOrSpace)
    else if Upper(Split(part, '.')[0]) in RESERVED then Some(ReservedName)
    else if exists i :: 0 <= i < |part| && part[i] < ' ' then Some(ControlCharacter)
    else if exists i :: 0 <= i < |part| && part[i] in "<>:\"|?*" then Some(InvalidCharacter)
    else None
  }

  /** A segment that is accepted anywhere in a portable path. */
  predicate PortablePart(part: string) {
    part !in {"", ".", ".."} && PartProblem(part).None?
  }

  /** _portable_path_problem */
  method PortablePathProblem(name: string) returns (problem: Option<Problem>)
    ensures problem.None? <==> Portable(name)
  {
    if name == "" {
      assert Split(name, '/')[0] == "";
      return Some(InvalidSeparatorOrNul);
    }
    if '\\' in name || '\0' in name {
      return Some(InvalidSeparatorOrNul);
    }
    if name[0] == '/' {
      assert Split(name, '/')[0] == "";
      return Some(AbsolutePath);
    }
    var parts := Split(name, '/');
    if exists i :: 0 <= i < |parts| && parts[i] in {"", ".", ".."} {
      var i :| 0 <= i < |parts| && parts[i] in {"", ".", ".."};
      assert !PortablePart(parts[i]);
      return Some(UnsafeSegment);
    }
    problem := SegmentProblem(parts);
  }

  /** The loop over the segments. */
  method SegmentProblem(parts: seq<string>) returns (problem: Option<Problem>)
    requires forall i :: 0 <= i < |parts| ==> parts[i] !in {"", ".", ".."}
    ensures problem.None? <==> forall i :: 0 <= i < |parts| ==> PortablePart(parts[i])
  {
    var i := 0;
    while i < |parts|
      invariant 0 <= i <= |parts|
      invariant forall j :: 0 <= j < i ==> PortablePart(parts[j])
    {
      problem := PartProblem(parts[i]);
      assert PortablePart(parts[i]) <==> problem.None?;
      if problem.Some? {
        return;
      }
      i := i + 1;
    }
    return None;
  }

  /** Every segment is portable, and no backslash or NUL occurs. */
  predicate Portable(name: string) {
    '\\' !in name && '\0' !in name && forall i :: 0 <= i < |Split(name, '/')| ==> PortablePart(Split(name, '/')[i])
  }

  /** Portability of a joined path is portability of its two parts. */
  lemma PortableJoin(a: string, b: string)
    ensures Portable(a + "/" + b) <==> Portable(a) && Portable(b)
  {
    SplitOfConcatenation(a, b);
    var both, front, back := Split(a + "/" + b, '/'), Split(a, '/'), Split(b, '/');
    assert forall i :: 0 <= i < |front| ==> both[i] == front[i];
    assert forall i :: 0 <= i < |back| ==> both[|front| + i] == back[i];
    assert forall c: char :: c != '/' ==> (c in a + "/" + b <==> c in a || c in b);
  }

  /** PurePosixPath(name).parts, apart from the root. */
  function Parts(name: string): seq<string> {
    Segments(Split(name, '/'))
  }

  function Segments(parts: seq<string>): seq<string> {
    if parts == [] then []
    else (if parts[0] in {"", "."} then [] else [parts[0]]) + Segments(parts[1..])
  }

  lemma {:induction false} SegmentsKeepsAll(parts: seq<string>)
    requires forall i :: 0 <= i < |parts| ==> parts[i] !in {"", "."}
    ensures Segments(parts) == parts
  {
    if parts != [] {
      SegmentsKeepsAll(parts[1..]);
    }
  }

  lemma {:induction false} SegmentsOfConcatenation(a: seq<string>, b: seq<string>)
    ensures Segments(a + b) == Segments(a) + Segments(b)
  {
    if a == [] {
      assert a + b == b;
    } else {
      assert (a + b)[1..] == a[1..] + b;
      SegmentsOfConcatenation(a[1..], b);
    }
  }

  /** _safe_target, relative to the root it stays under; None: it raises. */
  function SafeTarget(member: string): Option<string> {
    if (member != "" && member[0] == '/') || ".." in Parts(member) then None else Some(Join(Parts(member)))
  }

  function StripSlashes(name: string): string {
    if name != "" && name[|name| - 1] == '/' then StripSlashes(name[..|name| - 1]) else name
  }

  lemma {:induction false} SegmentsOfStripped(name: string)
    ensures Parts(StripSlashes(name)) == Parts(name)
    decreases |name|
  {
    if name != "" && name[|name| - 1] == '/' {
      var front := name[..|name| - 1];
      assert name == front + "/" + "";
      SplitOfConcatenation(front, "");
      SegmentsOfConcatenation(Split(front, '/'), [""]);
      assert Segments([""]) == [];
      SegmentsOfStripped(front);
    }
  }

  /** A portable name, with or without slashes at its end, is extracted to
      exactly that path below the root. */
  lemma PortableTarget(name: string)
    requires Portable(StripSlashes(name))
    ensures SafeTarget(name) == Some(StripSlashes(name))
  {
    var path := StripSlashes(name);
    var parts := Split(path, '/');
    SegmentsKeepsAll(parts);
    SegmentsOfStripped(name);
    JoinOfSplit(path);
    forall i | 0 <= i < |parts| ensures parts[i] != ".." {
      assert PortablePart(parts[i]);
    }
    StrippedStart(name);
    assert path != "" && path[0] != '/' by {
      assert PortablePart(parts[0]);
    }
  }

  lemma {:induction false} StrippedStart(name: string)
    ensures StripSlashes(name) <= name
    decreases |name|
  {
    if name != "" && name[|name| - 1] == '/' {
      StrippedStart(name[..|name| - 1]);
    }
  }
}
