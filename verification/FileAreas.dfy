/** The areas of the file repository and where a named file of an area lies. */
module FileAreas {
  import opened Collections
  import opened Bytes
  import opened TransferKeys
  import opened VirtualPath

  datatype Area = Channel(id: nat) | Icons | Avatars | Music

  function Text(s: seq<byte>): string {
    seq(|s|, i requires 0 <= i < |s| => s[i] as char)
  }

  function AreaRoot(root: seq<string>, area: Area): seq<string> {
    match area
    case Channel(id) => root + ["channels", Text(Digits(id))]
    case Icons => root + ["global", "icons"]
    case Avatars => root + ["global", "avatars"]
    case Music => root + ["global", "music"]
  }

  /** The path components of a file in the repository. */
  function Location(root: seq<string>, area: Area, path: string): seq<string> {
    AreaRoot(root, area) + PathSegments(path)
  }

  /** The layout of the repository. */
  lemma Layout(root: seq<string>, id: nat, path: string)
    ensures Location(root, Channel(id), path) == root + (["channels", Text(Digits(id))] + PathSegments(path))
    ensures Location(root, Icons, path) == root + (["global", "icons"] + PathSegments(path))
    ensures Location(root, Avatars, path) == root + (["global", "avatars"] + PathSegments(path))
    ensures Location(root, Music, path) == root + (["global", "music"] + PathSegments(path))
  {
    var segments := PathSegments(path);
    ConcatAssociates(root, ["channels", Text(Digits(id))], segments);
    ConcatAssociates(root, ["global", "icons"], segments);
    ConcatAssociates(root, ["global", "avatars"], segments);
    ConcatAssociates(root, ["global", "music"], segments);
  }

  function StripGlobalPrefix(path: string, prefix: string): string {
    var stripped := if prefix <= path then path[|prefix|..] else path;
    if stripped == "" then "/" else
      match Normalized(stripped)
      case Some(n) => n
      case None => "/"
  }

  function ResolveListArea(cid: nat, path: string): Option<(Area, string)> {
    match Normalized(path)
    case None => None
    case Some(n) =>
      if cid != 0 then Some((Channel(cid), n))
      else if n == "/icons" || n == "/icons/" then Some((Icons, "/"))
      else if "/icons/" <= n then Some((Icons, StripGlobalPrefix(n, "/icons")))
      else if "/music/" <= n then Some((Music, StripGlobalPrefix(n, "/music")))
      else Some((Avatars, n))
  }

  /** Area and path of a named file. On the global file space (cid 0) the name decides first. */
  function ResolveNamedPath(cid: nat, path: string, name: string, actor: Option<string>): Option<(Area, string)> {
    if cid != 0 then
      match Joined(path, name)
      case Some(j) => Some((Channel(cid), j))
      case None => None
    else
      match Normalized(name)
      case None => None
      case Some(n) =>
        if n == "/avatar" || n == "/avatar_" then
          if actor.Some? then Some((Avatars, "/avatar_" + actor.value)) else None
        else if "/avatar_" <= n then Some((Avatars, n))
        else if "/icon_" <= n then Some((Icons, n))
        else if "/music_" <= n then Some((Music, n))
        else
          match ResolveListArea(0, path)
          case None => None
          case Some((area, directory)) =>
            match Joined(directory, name)
            case None => None
            case Some(j) =>
              Some((area, if area == Icons && "/icons/" <= j then StripGlobalPrefix(j, "/icons") else j))
  }

  // --- Locations ---

  lemma TextInjective(s: seq<byte>, t: seq<byte>)
    requires Text(s) == Text(t)
    ensures s == t
  {
    assert |s| == |Text(s)| == |t|;
    forall i | 0 <= i < |s| ensures s[i] == t[i] {
      assert Text(s)[i] == Text(t)[i];
    }
  }

  /** Different files, in the same area or in different ones, lie in different places. */
  lemma LocationInjective(root: seq<string>, area: Area, path: string, area': Area, path': string)
    requires IsNormal(path) && IsNormal(path')
    requires Location(root, area, path) == Location(root, area', path')
    ensures area == area' && path == path'
  {
    var s, t := Location(root, area, path), Location(root, area', path');
    assert s[|root|] == t[|root|] && s[|root| + 1] == t[|root| + 1];
    assert s[|root| + 2..] == PathSegments(path) && t[|root| + 2..] == PathSegments(path');
    assert "channels"[0] != "global"[0];
    assert "icons"[0] != "avatars"[0] && "icons"[0] != "music"[0] && "avatars"[0] != "music"[0];
    if area.Channel? && area'.Channel? {
      TextInjective(Digits(area.id), Digits(area'.id));
      DigitsInjective(area.id, area'.id);
    }
    NormalIsBuilt(path);
    NormalIsBuilt(path');
  }

  lemma StrippedIsNormal(path: string, prefix: string)
    ensures IsNormal(StripGlobalPrefix(path, prefix))
  {
    var stripped := if prefix <= path then path[|prefix|..] else path;
    NormalizedIsNormal(stripped);
    RootIsNormal();
  }

  lemma RootIsNormal()
    ensures IsNormal("/")
  {
    var none: seq<string> := [];
    assert AllClean(none) && "/" == BuildAbsolutePath(none);
  }

  /** Whatever path and name a client sends, the file lies below its area's root: every further component
      is a plain file name. Only the actor's own avatar id is trusted to be one. */
  lemma ResolvedStaysInside(root: seq<string>, cid: nat, path: string, name: string, actor: Option<string>)
    requires actor.Some? ==> IsClean("avatar_" + actor.value)
    ensures var resolved := ResolveNamedPath(cid, path, name, actor);
      resolved.Some? ==>
        var (area, p) := resolved.value;
        && IsNormal(p) && AreaRoot(root, area) <= Location(root, area, p)
        && AllClean(Location(root, area, p)[|AreaRoot(root, area)|..])
        && (cid != 0 ==> area == Channel(cid))
  {
    var resolved := ResolveNamedPath(cid, path, name, actor);
    if resolved.Some? {
      var (area, p) := resolved.value;
      ResolvedIsNormal(cid, path, name, actor);
      NormalIsBuilt(p);
      assert Location(root, area, p)[|AreaRoot(root, area)|..] == PathSegments(p);
    }
  }

  lemma AvatarIsNormal(id: string)
    requires IsClean("avatar_" + id)
    ensures IsNormal("/avatar_" + id)
  {
    var own := ["avatar_" + id];
    assert own[1..] == [] && Slashed(own[1..]) == "";
    var path := "/" + own[0];
    assert path + "" == path;
    assert Slashed(own) == path;
    ConcatAssociates("/", "avatar_", id);
    assert "/" + "avatar_" == "/avatar_";
    assert AllClean(own);
  }

  lemma ResolvedIsNormal(cid: nat, path: string, name: string, actor: Option<string>)
    requires actor.Some? ==> IsClean("avatar_" + actor.value)
    requires ResolveNamedPath(cid, path, name, actor).Some?
    ensures IsNormal(ResolveNamedPath(cid, path, name, actor).value.1)
  {
    JoinedIsNormal(path, name);
    NormalizedIsNormal(name);
    if cid == 0 {
      if actor.Some? { AvatarIsNormal(actor.value); }
      var listed := ResolveListArea(0, path);
      if listed.Some? {
        var directory := listed.value.1;
        JoinedIsNormal(directory, name);
        if Joined(directory, name).Some? {
          StrippedIsNormal(Joined(directory, name).value, "/icons");
        }
      }
    }
  }
}
