/** Virtual file paths and where they lie in the repository. */
module VirtualPath {
  import opened Collections

  // --- Segments ---

  /** Backslashes count as slashes. */
  function Slashes(path: string): (r: string)
    ensures |r| == |path| && '\\' !in r
  {
    seq(|path|, i requires 0 <= i < |path| => if path[i] == '\\' then '/' else path[i])
  }

  function Split(path: string): (r: seq<string>)
    ensures |r| > 0
  {
    if path == "" then [""]
    else if path[0] == '/' then [""] + Split(path[1..])
    else
      var rest := Split(path[1..]);
      [[path[0]] + rest[0]] + rest[1..]
  }

  function NonEmpty(segments: seq<string>): seq<string> {
    if segments == [] then []
    else (if segments[0] == "" then [] else [segments[0]]) + NonEmpty(segments[1..])
  }

  lemma {:induction false} NonEmptyMembers(segments: seq<string>, s: string)
    ensures s in NonEmpty(segments) <==> s in segments && s != ""
  {
    if segments != [] {
      NonEmptyMembers(segments[1..], s);
      assert s in segments <==> s == segments[0] || s in segments[1..];
    }
  }

  function PathSegments(path: string): seq<string> {
    NonEmpty(Split(path))
  }

  predicate IsValidSegment(segment: string) {
    segment != "." && segment != ".." && ':' !in segment
  }

  predicate AllValid(segments: seq<string>) {
    forall s :: s in segments ==> IsValidSegment(s)
  }

  function Slashed(segments: seq<string>): string {
    if segments == [] then "" else "/" + segments[0] + Slashed(segments[1..])
  }

  function BuildAbsolutePath(segments: seq<string>): string {
    if segments == [] then "/" else Slashed(segments)
  }

  // --- Normalising and joining ---

  /** The path in normal form; nothing when a segment is forbidden. */
  function Normalized(path: string): Option<string> {
    var segments := PathSegments(Slashes(path));
    if AllValid(segments) then Some(BuildAbsolutePath(segments)) else None
  }

  function Joined(base: string, leaf: string): Option<string> {
    var leaf' := Slashes(leaf);
    if ['/'] <= leaf' then Normalized(leaf')
    else if Normalized(base).None? then None
    else
      var added := PathSegments(leaf');
      if AllValid(added) then Some(BuildAbsolutePath(PathSegments(Normalized(base).value) + added)) else None
  }

  /** Append the segments of a split path, skipping empty ones; `ok` is false at the first forbidden one. */
  method AppendSegments(start: seq<string>, split: seq<string>) returns (segments: seq<string>, ok: bool)
    ensures ok <==> AllValid(NonEmpty(split))
    ensures ok ==> segments == start + NonEmpty(split)
  {
    segments := start;
    assert split[0..] == split;
    for i := 0 to |split|
      invariant AllValid(NonEmpty(split)) <==> AllValid(NonEmpty(split[i..]))
      invariant segments + NonEmpty(split[i..]) == start + NonEmpty(split)
    {
      NonEmptyStep(split, i);
      if split[i] == "" {
        continue;
      }
      if !IsValidSegment(split[i]) {
        return segments, false;
      }
      ConcatAssociates(segments, [split[i]], NonEmpty(split[i + 1..]));
      segments := segments + [split[i]];
    }
    assert split[|split|..] == [];
    return segments, true;
  }

  lemma NonEmptyStep(split: seq<string>, i: nat)
    requires i < |split|
    ensures NonEmpty(split[i..]) == (if split[i] == "" then [] else [split[i]]) + NonEmpty(split[i + 1..])
    ensures split[i] != "" ==> (AllValid(NonEmpty(split[i..])) <==>
      IsValidSegment(split[i]) && AllValid(NonEmpty(split[i + 1..])))
  {
    assert split[i..][1..] == split[i + 1..];
  }

  method NormalizeAbsolutePath(path: string) returns (normalized: Option<string>)
    ensures normalized == Normalized(path)
  {
    var path' := Slashes(path);
    if path' == "" || path' == "/" {
      assert path' == "/" ==> path'[1..] == "" && Split(path') == ["", ""];
      return Some("/");
    }
    var segments, ok := AppendSegments([], Split(path'));
    assert [] + PathSegments(path') == PathSegments(path');
    return if ok then Some(BuildAbsolutePath(segments)) else None;
  }

  method JoinVirtualPath(base: string, leaf: string) returns (joined: Option<string>)
    ensures joined == Joined(base, leaf)
  {
    var leaf' := Slashes(leaf);
    if ['/'] <= leaf' {
      joined := NormalizeAbsolutePath(leaf');
      return;
    }
    var base' := NormalizeAbsolutePath(base);
    if base'.None? {
      return None;
    }
    var segments, ok := AppendSegments(PathSegments(base'.value), Split(leaf'));
    return if ok then Some(BuildAbsolutePath(segments)) else None;
  }

  // --- Normal forms ---

  /** A plain file name: it cannot climb, split or name a drive. */
  predicate IsClean(segment: string) {
    segment != "" && segment != "." && segment != ".." && forall c :: c in segment ==> c != '/' && c != '\\' && c != ':'
  }

  predicate AllClean(segments: seq<string>) {
    forall s :: s in segments ==> IsClean(s)
  }

  ghost predicate IsNormal(path: string) {
    exists segments :: AllClean(segments) && path == BuildAbsolutePath(segments)
  }

  lemma {:induction false} SplitPieces(path: string, piece: string)
    requires piece in Split(path)
    ensures '/' !in piece && forall c :: c in piece ==> c in path
  {
    if path != "" {
      var rest := Split(path[1..]);
      assert forall c :: c in path <==> c == path[0] || c in path[1..];
      if path[0] == '/' {
        if piece != "" { SplitPieces(path[1..], piece); }
      } else {
        SplitPieces(path[1..], rest[0]);
        if piece != [path[0]] + rest[0] { SplitPieces(path[1..], piece); }
      }
    }
  }

  lemma {:induction false} SplitAfterSegment(segment: string, rest: string)
    requires '/' !in segment
    ensures Split(segment + rest) == [segment + Split(rest)[0]] + Split(rest)[1..]
  {
    var tail := Split(rest);
    if segment == "" {
      assert segment + rest == rest && segment + tail[0] == tail[0];
      assert tail == [tail[0]] + tail[1..];
    } else {
      assert (segment + rest)[1..] == segment[1..] + rest;
      SplitAfterSegment(segment[1..], rest);
      assert [segment[0]] + (segment[1..] + tail[0]) == segment + tail[0];
    }
  }

  lemma {:induction false} SplitSlashed(segments: seq<string>)
    requires forall s :: s in segments ==> '/' !in s
    ensures Split(Slashed(segments)) == [""] + segments
  {
    if segments != [] {
      var rest := Slashed(segments[1..]);
      SplitSlashed(segments[1..]);
      SplitAfterSegment(segments[0], rest);
      var path := Slashed(segments);
      assert path[1..] == segments[0] + rest;
      assert segments[0] + "" == segments[0];
      assert ([""] + segments[1..])[1..] == segments[1..];
      assert Split(path[1..]) == [segments[0]] + segments[1..] == segments;
    }
  }

  lemma {:induction false} NonEmptyKeepsAll(segments: seq<string>)
    requires "" !in segments
    ensures NonEmpty(segments) == segments
  {
    if segments != [] { NonEmptyKeepsAll(segments[1..]); }
  }

  /** Segments survive being built into a path. */
  lemma SegmentsRoundTrip(segments: seq<string>)
    requires forall s :: s in segments ==> s != "" && '/' !in s
    ensures PathSegments(BuildAbsolutePath(segments)) == segments
  {
    if segments == [] {
      assert "/"[1..] == "";
      assert Split("/") == ["", ""];
    } else {
      SplitSlashed(segments);
      NonEmptyKeepsAll(segments);
      assert ([""] + segments)[1..] == segments;
    }
  }

  lemma {:induction false} SlashedHasNoBackslash(segments: seq<string>)
    requires AllClean(segments)
    ensures '\\' !in Slashed(segments)
  {
    if segments != [] {
      assert segments[0] in segments && AllClean(segments[1..]);
      SlashedHasNoBackslash(segments[1..]);
    }
  }

  lemma SegmentsAreClean(path: string)
    requires '\\' !in path && AllValid(PathSegments(path))
    ensures AllClean(PathSegments(path))
  {
    forall s | s in PathSegments(path) ensures IsClean(s) {
      NonEmptyMembers(Split(path), s);
      SplitPieces(path, s);
    }
  }

  /** Normalising yields a normal form, and leaves a normal form as it is. */
  lemma NormalizedIsNormal(path: string)
    ensures Normalized(path).Some? ==> IsNormal(Normalized(path).value)
    ensures IsNormal(path) ==> Normalized(path) == Some(path)
  {
    if Normalized(path).Some? {
      SegmentsAreClean(Slashes(path));
    }
    if segments :| AllClean(segments) && path == BuildAbsolutePath(segments) {
      SlashedHasNoBackslash(segments);
      assert Slashes(path) == path;
      SegmentsRoundTrip(segments);
    }
  }

  lemma NormalizeIsIdempotent(path: string)
    requires Normalized(path).Some?
    ensures Normalized(Normalized(path).value) == Normalized(path)
  {
    NormalizedIsNormal(path);
    NormalizedIsNormal(Normalized(path).value);
  }

  /** A normal form is determined by its segments. */
  lemma NormalIsBuilt(path: string)
    requires IsNormal(path)
    ensures AllClean(PathSegments(path)) && path == BuildAbsolutePath(PathSegments(path))
  {
    var segments :| AllClean(segments) && path == BuildAbsolutePath(segments);
    SegmentsRoundTrip(segments);
  }

  /** A relative join keeps the base and appends the leaf's segments; it cannot climb out of the base. */
  lemma RelativeJoin(base: string, leaf: string)
    requires Joined(base, leaf).Some? && !(['/'] <= Slashes(leaf))
    ensures Normalized(base).Some? && IsNormal(Joined(base, leaf).value)
    ensures PathSegments(Joined(base, leaf).value)
         == PathSegments(Normalized(base).value) + PathSegments(Slashes(leaf))
  {
    NormalizedIsNormal(base);
    NormalIsBuilt(Normalized(base).value);
    SegmentsAreClean(Slashes(leaf));
    SegmentsRoundTrip(PathSegments(Normalized(base).value) + PathSegments(Slashes(leaf)));
  }

  lemma JoinedIsNormal(base: string, leaf: string)
    ensures Joined(base, leaf).Some? ==> IsNormal(Joined(base, leaf).value)
  {
    if Joined(base, leaf).Some? {
      if ['/'] <= Slashes(leaf) {
        NormalizedIsNormal(Slashes(leaf));
      } else {
        RelativeJoin(base, leaf);
      }
    }
  }
}
