/** Which area of the global file space a path or a name belongs to. */
module GlobalFiles {
  import opened Collections
  import opened VirtualPath
  import opened FileAreas

  lemma FirstSlash(first: string, rest: seq<string>)
    ensures rest != [] ==> |first + Slashed(rest)| > |first| && (first + Slashed(rest))[|first|] == '/'
    ensures rest == [] ==> first + Slashed(rest) == first
  {
  }

  /** A slash-free word leads a path exactly when it leads the first segment. */
  lemma WordLeads(segments: seq<string>, word: string)
    requires AllClean(segments) && word != "" && '/' !in word
    ensures "/" + word <= BuildAbsolutePath(segments) <==> segments != [] && word <= segments[0]
  {
    var path, start := BuildAbsolutePath(segments), "/" + word;
    if segments != [] {
      var tail := segments[0] + Slashed(segments[1..]);
      FirstSlash(segments[0], segments[1..]);
      assert path == "/" + segments[0] + Slashed(segments[1..]);
      assert path[1..] == tail && start[1..] == word;
      if start <= path {
        assert word <= tail;
      }
      if word <= segments[0] {
        assert word <= tail;
        assert start == path[..1] + tail[..|word|];
      }
    }
  }

  /** A directory leads a path exactly when it is the first of several segments. */
  lemma DirectoryLeads(segments: seq<string>, word: string)
    requires AllClean(segments) && word != "" && '/' !in word
    ensures "/" + word + "/" <= BuildAbsolutePath(segments) <==> |segments| > 1 && segments[0] == word
  {
    var path, start := BuildAbsolutePath(segments), "/" + word + "/";
    if segments != [] {
      var first, rest := segments[0], segments[1..];
      assert first in segments && IsClean(first) && '/' !in first;
      assert path == "/" + first + Slashed(rest);
      assert path[1..] == first + Slashed(rest) && start[1..] == word + "/";
      FirstSlash(first, rest);
      if start <= path { LedBy(first, Slashed(rest), word); }
      if rest != [] && first == word { LeadsBy(first, rest, path); }
    }
  }

  lemma LedBy(first: string, tail: string, word: string)
    requires '/' !in first && '/' !in word && word + "/" <= first + tail
    requires tail != "" ==> tail[0] == '/'
    ensures first == word && tail != ""
  {
    var whole, start := first + tail, word + "/";
    assert whole[|word|] == start[|word|] == '/';
    assert whole[..|word|] == start[..|word|] == word;
    assert forall i :: 0 <= i < |first| ==> whole[i] == first[i];
    assert forall i :: 0 <= i < |word| ==> whole[i] == word[i];
    assert |first| <= |word|;
    assert whole[..|first|] == first;
  }

  lemma LeadsBy(first: string, rest: seq<string>, path: string)
    requires rest != [] && path == "/" + first + Slashed(rest)
    ensures "/" + first + "/" <= path
  {
    var further := rest[0] + Slashed(rest[1..]);
    assert Slashed(rest) == "/" + further;
    assert path == "/" + first + "/" + further;
  }

  lemma SingleSegment(segments: seq<string>, word: string)
    requires AllClean(segments) && word != "" && '/' !in word
    ensures BuildAbsolutePath(segments) == "/" + word <==> segments == [word]
  {
    var own := [word];
    assert own[1..] == [] && Slashed(own[1..]) == "";
    assert "/" + word + "" == "/" + word;
    SegmentsRoundTrip(own);
    if BuildAbsolutePath(segments) == "/" + word {
      SegmentsRoundTrip(segments);
    }
  }

  lemma StripFirst(segments: seq<string>, word: string)
    requires AllClean(segments) && |segments| > 1 && segments[0] == word
    ensures StripGlobalPrefix(BuildAbsolutePath(segments), "/" + word) == BuildAbsolutePath(segments[1..])
  {
    var path, rest := BuildAbsolutePath(segments), segments[1..];
    assert path == ("/" + word) + Slashed(rest);
    assert path[|"/" + word|..] == Slashed(rest) == BuildAbsolutePath(rest);
    assert AllClean(rest);
    assert IsNormal(BuildAbsolutePath(rest));
    NormalizedIsNormal(BuildAbsolutePath(rest));
  }

  /** The directory of the global file space that a path names, by its first segment: the music directory itself
      counts as one of the avatars. */
  function AreaBySegments(segments: seq<string>): (Area, seq<string>) {
    if segments != [] && segments[0] == "icons" then (Icons, segments[1..])
    else if |segments| > 1 && segments[0] == "music" then (Music, segments[1..])
    else (Avatars, segments)
  }

  lemma ListAreaBySegments(path: string)
    requires Normalized(path).Some?
    ensures var (area, rest) := AreaBySegments(PathSegments(Normalized(path).value));
      ResolveListArea(0, path) == Some((area, BuildAbsolutePath(rest)))
  {
    var n := Normalized(path).value;
    var segments := PathSegments(n);
    NormalizedIsNormal(path);
    NormalIsBuilt(n);
    SingleSegment(segments, "icons");
    DirectoryLeads(segments, "icons");
    DirectoryLeads(segments, "music");
    assert "/" + "icons" == "/icons" && "/" + "icons" + "/" == "/icons/" && "/" + "music" + "/" == "/music/";
    assert "/" + "music" == "/music";
    NoTrailingSlash(segments, "icons");
    if |segments| > 1 && segments[0] == "icons" {
      StripFirst(segments, "icons");
    } else if |segments| > 1 && segments[0] == "music" {
      StripFirst(segments, "music");
    }
  }

  /** The directory of all music is listed among the avatars. */
  lemma MusicRootExample()
    ensures ResolveListArea(0, "/music") == Some((Avatars, "/music"))
  {
    var own := ["music"];
    assert AllClean(own);
    SingleSegment(own, "music");
    assert "/" + "music" == "/music";
    assert IsNormal("/music");
    NormalizedIsNormal("/music");
    SegmentsRoundTrip(own);
    ListAreaBySegments("/music");
    assert AreaBySegments(own) == (Avatars, own);
  }

  lemma NoTrailingSlash(segments: seq<string>, word: string)
    requires AllClean(segments) && word != "" && '/' !in word
    ensures BuildAbsolutePath(segments) != "/" + word + "/"
  {
    var path, start := BuildAbsolutePath(segments), "/" + word + "/";
    DirectoryLeads(segments, word);
    if |segments| > 1 && segments[0] == word {
      var rest := segments[1..];
      assert segments[1] in segments && rest[0] == segments[1];
      assert |path| == 1 + |word| + |Slashed(rest)| && |Slashed(rest)| >= 1 + |rest[0]|;
    } else {
      assert start <= start;
    }
  }

  /** A file of a directory: the name's segments below the directory's, or on their own when the name is absolute;
      in the icon area a leading directory of that name is dropped once more. */
  function InDirectory(path: string, name: string): Option<(Area, string)> {
    if Normalized(path).None? || Normalized(name).None? then None else
      var (area, directory) := AreaBySegments(PathSegments(Normalized(path).value));
      var target := (if ['/'] <= Slashes(name) then [] else directory) + PathSegments(Slashes(name));
      Some((area, BuildAbsolutePath(WithoutIcons(area, target))))
  }

  function WithoutIcons(area: Area, target: seq<string>): seq<string> {
    if area == Icons && |target| > 1 && target[0] == "icons" then target[1..] else target
  }

  lemma StripIcons(area: Area, target: seq<string>)
    requires AllClean(target)
    ensures var j := BuildAbsolutePath(target);
      (if area == Icons && "/icons/" <= j then StripGlobalPrefix(j, "/icons") else j)
        == BuildAbsolutePath(WithoutIcons(area, target))
  {
    DirectoryLeads(target, "icons");
    assert "/" + "icons" + "/" == "/icons/" && "/" + "icons" == "/icons";
    if |target| > 1 && target[0] == "icons" { StripFirst(target, "icons"); }
  }

  lemma InDirectoryBySegments(path: string, name: string)
    requires Normalized(name).Some?
    ensures InDirectory(path, name) ==
      match ResolveListArea(0, path)
      case None => None
      case Some((area, directory)) =>
        match Joined(directory, name)
        case None => None
        case Some(j) => Some((area, if area == Icons && "/icons/" <= j then StripGlobalPrefix(j, "/icons") else j))
  {
    if Normalized(path).Some? {
      ListAreaBySegments(path);
      var (area, rest) := AreaBySegments(PathSegments(Normalized(path).value));
      var directory := BuildAbsolutePath(rest);
      NormalizedIsNormal(path);
      NormalIsBuilt(Normalized(path).value);
      assert AllClean(rest);
      JoinBySegments(rest, name);
      var target := (if ['/'] <= Slashes(name) then [] else rest) + PathSegments(Slashes(name));
      StripIcons(area, target);
    }
  }

  lemma JoinBySegments(directory: seq<string>, name: string)
    requires AllClean(directory) && Normalized(name).Some?
    ensures var target := (if ['/'] <= Slashes(name) then [] else directory) + PathSegments(Slashes(name));
      AllClean(target) && Joined(BuildAbsolutePath(directory), name) == Some(BuildAbsolutePath(target))
  {
    var path := BuildAbsolutePath(directory);
    assert IsNormal(path);
    NormalizedIsNormal(path);
    SegmentsRoundTrip(directory);
    SegmentsAreClean(Slashes(name));
    assert Slashes(Slashes(name)) == Slashes(name);
    assert [] + PathSegments(Slashes(name)) == PathSegments(Slashes(name));
  }

  lemma NameStarts(n: string, named: seq<string>)
    requires AllClean(named) && n == BuildAbsolutePath(named)
    ensures n == "/avatar" <==> named == ["avatar"]
    ensures n == "/avatar_" <==> named == ["avatar_"]
    ensures "/avatar_" <= n <==> named != [] && "avatar_" <= named[0]
    ensures "/icon_" <= n <==> named != [] && "icon_" <= named[0]
    ensures "/music_" <= n <==> named != [] && "music_" <= named[0]
  {
    SingleSegment(named, "avatar");
    SingleSegment(named, "avatar_");
    WordLeads(named, "avatar_");
    WordLeads(named, "icon_");
    WordLeads(named, "music_");
    assert "/" + "avatar" == "/avatar" && "/" + "avatar_" == "/avatar_";
    assert "/" + "icon_" == "/icon_" && "/" + "music_" == "/music_";
  }

  /** Where a named file of the global file space lies: its own avatar, an avatar, an icon or music by the start of
      the name, and otherwise the directory's area. */
  lemma NameBySegments(path: string, name: string, actor: Option<string>)
    ensures var resolved := ResolveNamedPath(0, path, name, actor);
      match Normalized(name)
      case None => resolved.None?
      case Some(n) =>
        var named := PathSegments(n);
        if named == ["avatar"] || named == ["avatar_"] then
          resolved == if actor.None? then None else Some((Avatars, "/avatar_" + actor.value))
        else if named != [] && "avatar_" <= named[0] then resolved == Some((Avatars, n))
        else if named != [] && "icon_" <= named[0] then resolved == Some((Icons, n))
        else if named != [] && "music_" <= named[0] then resolved == Some((Music, n))
        else resolved == InDirectory(path, name)
  {
    if Normalized(name).Some? {
      var n := Normalized(name).value;
      NormalizedIsNormal(name);
      NormalIsBuilt(n);
      NameStarts(n, PathSegments(n));
      InDirectoryBySegments(path, name);
    }
  }
}
