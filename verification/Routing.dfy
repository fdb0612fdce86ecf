// Which upstream a mirrored repository path belongs to, decided twice: by the mirror proxy
// in Go (mirror/router.go, mirror/upstream.go) and by the auth service in TypeScript
// (auth/src/upstreamAuth/route.ts).
module Routing {
  import opened Options
  import opened Strings

  datatype Error = NotRegistryRequest | UnknownUpstream | BadRepository
  datatype Result<T> = Ok(value: T) | Err(error: Error)

  datatype Tail = Tail(resource: string, reference: string, repoTail: string)
  datatype Resolved = Resolved(slug: string, repository: string, storage: string, reference: string, resource: string)
  datatype Normalized = Normalized(repository: string, storagePath: string)
  datatype Route = Route(host: string, upstreamRepo: string)

  const MANIFESTS := "/manifests/"
  const BLOBS := "/blobs/"

  // strings.Trim(marker, "/")
  function Resource(marker: string): string {
    if marker == MANIFESTS then "manifests" else "blobs"
  }

  // The resource each marker stands for differs.
  lemma ResourcesDiffer()
    ensures Resource(MANIFESTS) == "manifests" && Resource(BLOBS) == "blobs" && "manifests"[0] != "blobs"[0]
  {
    assert MANIFESTS[1] != BLOBS[1];
  }

  // What one round of splitDistributionTail does with one marker: None goes on to the next.
  function TryMarker(rest: string, marker: string): Option<Option<Tail>> {
    var idx := LastIndex(rest, marker);
    if idx <= 0 then None
    else
      var reference := rest[idx + |marker|..];
      if reference == "" then Some(None) else Some(Some(Tail(Resource(marker), reference, rest[..idx])))
  }

  function TailOf(rest: string): Option<Tail> {
    match TryMarker(rest, MANIFESTS)
    case Some(t) => t
    case None => match TryMarker(rest, BLOBS) case Some(t) => t case None => None
  }

  method SplitDistributionTail(rest: string) returns (t: Option<Tail>)
    ensures t == TailOf(rest)
  {
    var markers := [MANIFESTS, BLOBS];
    for k := 0 to |markers|
      invariant k > 0 ==> TryMarker(rest, MANIFESTS).None?
      invariant k > 1 ==> TryMarker(rest, BLOBS).None?
    {
      assert markers[k] == if k == 0 then MANIFESTS else BLOBS;
      var idx := LastIndex(rest, markers[k]);
      if idx <= 0 { continue; }
      var repoTail := rest[..idx];
      var reference := rest[idx + |markers[k]|..];
      if reference == "" || repoTail == "" { return None; }
      return Some(Tail(Resource(markers[k]), reference, repoTail));
    }
    return None;
  }

  const SLUGS := {"docker", "ghcr", "gcr", "quay", "k8s"}

  // The five NormalizeRepository methods.
  function Normalize(slug: string, segments: seq<string>): Result<Normalized> {
    if segments == [] then Err(BadRepository)
    else if slug == "docker" then
      (if |segments| == 1 then Ok(Normalized("library/" + segments[0], "docker/library/" + segments[0]))
       else Ok(Normalized(Join(segments, '/'), "docker/" + Join(segments, '/'))))
    else if slug == "k8s" then Ok(Normalized(Join(segments, '/'), "k8s/" + Join(segments, '/')))
    else if |segments| < 2 then Err(BadRepository)
    else Ok(Normalized(Join(segments, '/'), slug + "/" + Join(segments, '/')))
  }

  datatype Owner = Owner(slug: string, repository: string, storage: string)

  // The second half of Resolve: which upstream owns the repository path.
  function ResolveRepo(registered: set<string>, repoTail: string): Result<Owner> {
    var segments := Split(repoTail, '/');
    if segments[0] == "" then Err(NotRegistryRequest)
    else if segments[0] == "aocr" && |segments| < 3 then Err(UnknownUpstream)
    else
      var slug := if segments[0] == "aocr" then segments[1] else "docker";
      var repo := if segments[0] == "aocr" then segments[2..] else segments;
      if slug !in registered then Err(UnknownUpstream)
      else match Normalize(slug, repo)
           case Err(e) => Err(e)
           case Ok(n) => Ok(Owner(slug, n.repository, "mirror/" + n.storagePath))
  }

  function Resolve(registered: set<string>, path: string): Result<Resolved> {
    if !("/v2/" <= path) then Err(NotRegistryRequest)
    else
      var rest0 := path[4..];
      var rest := if "/" <= rest0 then rest0[1..] else rest0;
      if rest == "" then Err(NotRegistryRequest)
      else
        match TailOf(rest)
        case None => Err(NotRegistryRequest)
        case Some(tail) =>
          match ResolveRepo(registered, tail.repoTail)
          case Err(e) => Err(e)
          case Ok(o) => Ok(Resolved(o.slug, o.repository, o.storage, tail.reference, tail.resource))
  }

  // ---- the TypeScript table ------------------------------------------------------------

  // The host each slug's prefix stands for; Docker Hub has no prefix.
  function HostOf(slug: string): string {
    if slug == "ghcr" then "ghcr.io"
    else if slug == "gcr" then "gcr.io"
    else if slug == "quay" then "quay.io"
    else if slug == "k8s" then "registry.k8s.io"
    else "docker.io"
  }

  const PREFIX_TABLE := [
    ("aocr/ghcr/", "ghcr.io"), ("aocr/gcr/", "gcr.io"), ("aocr/quay/", "quay.io"), ("aocr/k8s/", "registry.k8s.io")]

  // The loop over the table, from row k on.
  function FromTable(repo: string, k: nat): Option<Route>
    requires repo != "" && k <= 4
    decreases 4 - k
  {
    if k == 4 then
      if repo == "aocr" || "aocr/" <= repo then None else Some(Route("docker.io", repo))
    else if PREFIX_TABLE[k].0 <= repo then
      var rest := repo[|PREFIX_TABLE[k].0|..];
      if rest == "" then None else Some(Route(PREFIX_TABLE[k].1, rest))
    else FromTable(repo, k + 1)
  }

  function RouteMirrorRepo(repo: string): Option<Route> {
    if repo == "" then None else FromTable(repo, 0)
  }

  // ---- where the tail is cut -------------------------------------------------------------

  // A marker cannot occur after the last one when the reference has no slash.
  lemma LastMarker(p: string, marker: string, r: string)
    requires marker == MANIFESTS || marker == BLOBS
    requires '/' !in r
    ensures LastIndex(p + marker + r, marker) == |p|
  {
    var s := p + marker + r;
    assert Occurs(s, marker, |p|);
    forall i | |p| < i && i + |marker| <= |s| ensures !Occurs(s, marker, i) {
      assert s[i + |marker| - 1] == r[i - |p| - 1];
      assert s[i..i + |marker|][|marker| - 1] == s[i + |marker| - 1];
    }
  }

  lemma ManifestTail(p: string, r: string)
    requires p != "" && r != "" && '/' !in r
    ensures TailOf(p + MANIFESTS + r) == Some(Tail("manifests", r, p))
  {
    LastMarker(p, MANIFESTS, r);
    assert (p + MANIFESTS + r)[..|p|] == p && (p + MANIFESTS + r)[|p| + 11..] == r;
  }

  // The manifests marker of a blob request lies in its repository path.
  lemma MarkerInPath(p: string, r: string)
    requires '/' !in r
    ensures var i := LastIndex(p + BLOBS + r, MANIFESTS);
            i == LastIndex(p + "/", MANIFESTS) && (i >= 0 ==> i + |MANIFESTS| <= |p| + 1)
  {
    forall i
      ensures Occurs(p + BLOBS + r, MANIFESTS, i) <==> Occurs(p + "/", MANIFESTS, i)
    {
      ManifestsInside(p, r, i);
    }
    SameLastIndex(p + BLOBS + r, p + "/", MANIFESTS);
  }

  // A blob request is read as one exactly when its repository path has no `manifests` segment
  // after the first: otherwise the manifests marker, which is tried first, wins, and the request is
  // read as one for a manifest of the path before that segment.
  lemma BlobTail(p: string, r: string)
    requires p != "" && r != "" && '/' !in r
    ensures TailOf(p + BLOBS + r) == Some(Tail("blobs", r, p)) <==> LastIndex(p + "/", MANIFESTS) <= 0
    ensures var s, i := p + BLOBS + r, LastIndex(p + "/", MANIFESTS);
            i > 0 ==> i + |MANIFESTS| < |s| && TailOf(s) == Some(Tail("manifests", s[i + |MANIFESTS|..], s[..i]))
  {
    BlobMarker(p, r);
    ResourcesDiffer();
    MarkerInPath(p, r);
    var s, i := p + BLOBS + r, LastIndex(p + "/", MANIFESTS);
    if i > 0 { ManifestMarker(s, i); }
  }

  lemma ManifestMarker(s: string, i: int)
    requires i > 0 && LastIndex(s, MANIFESTS) == i && i + |MANIFESTS| < |s|
    ensures TailOf(s) == Some(Tail("manifests", s[i + |MANIFESTS|..], s[..i]))
  {
    ResourcesDiffer();
  }

  lemma BlobMarker(p: string, r: string)
    requires p != "" && r != "" && '/' !in r
    ensures TryMarker(p + BLOBS + r, BLOBS) == Some(Some(Tail("blobs", r, p)))
  {
    LastMarker(p, BLOBS, r);
    assert (p + BLOBS + r)[..|p|] == p && (p + BLOBS + r)[|p| + 7..] == r;
    assert MANIFESTS[1] != BLOBS[1];
  }

  lemma SameLastIndex(s: string, u: string, m: string)
    requires forall i :: Occurs(s, m, i) <==> Occurs(u, m, i)
    ensures LastIndex(s, m) == LastIndex(u, m)
  {
    assert LastIndex(s, m) >= 0 ==> Occurs(s, m, LastIndex(s, m));
    assert LastIndex(u, m) >= 0 ==> Occurs(u, m, LastIndex(u, m));
  }

  lemma ManifestsInside(p: string, r: string, i: int)
    requires '/' !in r
    ensures Occurs(p + BLOBS + r, MANIFESTS, i) <==> Occurs(p + "/", MANIFESTS, i)
  {
    var s := p + BLOBS + r;
    assert s[..|p| + 1] == p + "/";
    if 0 <= i && i + 11 <= |s| {
      var w := s[i..i + 11];
      assert w[10] == s[i + 10] && w[4] == s[i + 4];
      if i + 11 <= |p| + 1 {
        assert w == (p + "/")[i..i + 11];
      } else if i + 10 < |p| + 7 {
        assert s[i + 10] == BLOBS[i + 10 - |p|];
        assert i + 10 == |p| + 6 ==> s[i + 4] == BLOBS[0];
      } else {
        assert s[i + 10] == r[i + 10 - |p| - 7];
      }
    }
  }

  lemma ResolveManifest(registered: set<string>, p: string, r: string)
    requires p != "" && p[0] != '/' && r != "" && '/' !in r
    ensures var o := ResolveRepo(registered, p);
            Resolve(registered, "/v2/" + p + MANIFESTS + r) ==
              if o.Err? then Err(o.error)
              else Ok(Resolved(o.value.slug, o.value.repository, o.value.storage, r, "manifests"))
  {
    var path := "/v2/" + p + MANIFESTS + r;
    assert path[4..] == p + MANIFESTS + r;
    assert path[..4] == "/v2/";
    ManifestTail(p, r);
  }

  lemma ResolveTail(registered: set<string>, s: string, t: Tail)
    requires s != "" && s[0] != '/' && TailOf(s) == Some(t)
    ensures var o := ResolveRepo(registered, t.repoTail);
            Resolve(registered, "/v2/" + s) ==
              if o.Err? then Err(o.error)
              else Ok(Resolved(o.value.slug, o.value.repository, o.value.storage, t.reference, t.resource))
  {
    assert ("/v2/" + s)[4..] == s && ("/v2/" + s)[..4] == "/v2/";
  }

  // One more slash after /v2/ changes nothing, and other paths are not registry requests.
  lemma ResolveSkipsSlash(registered: set<string>, s: string)
    requires s != "" && s[0] != '/'
    ensures Resolve(registered, "/v2//" + s) == Resolve(registered, "/v2/" + s)
  {
    assert ("/v2//" + s)[4..] == "/" + s && ("/v2//" + s)[..4] == "/v2/" && ("/" + s)[1..] == s;
    assert ("/v2/" + s)[4..] == s && ("/v2/" + s)[..4] == "/v2/";
  }

  // Nothing after /v2/, another path, or a repository that starts with a slash is no registry request.
  lemma NotARequest(registered: set<string>, path: string)
    ensures path == "/v2/" || path == "/v2//" || !("/v2/" <= path) ==>
              Resolve(registered, path) == Err(NotRegistryRequest)
    ensures path == "" || path[0] == '/' ==> ResolveRepo(registered, path) == Err(NotRegistryRequest)
  {}

  lemma NothingAfter(p: string, marker: string)
    requires p != "" && (marker == MANIFESTS || marker == BLOBS)
    ensures TryMarker(p + marker, marker) == Some(None)
  {
    LastMarker(p, marker, "");
    assert p + marker + "" == p + marker;
  }

  // Without a reference there is no request.
  lemma NoReference(p: string)
    requires p != ""
    ensures TailOf(p + MANIFESTS) == None
    ensures LastIndex(p + BLOBS, MANIFESTS) <= 0 ==> TailOf(p + BLOBS) == None
  {
    NothingAfter(p, MANIFESTS);
    NothingAfter(p, BLOBS);
  }

  // What a blob URL is read as: a blob, unless the repository path has a manifests segment after its
  // first; then the manifest named by all that follows that segment, in the path before it.
  function BlobReading(p: string, r: string): Tail {
    var s, i := p + BLOBS + r, LastIndex(p + "/", MANIFESTS);
    if i > 0 then Tail("manifests", s[i + |MANIFESTS|..], p[..i]) else Tail("blobs", r, p)
  }

  lemma BlobReadingIsTail(p: string, r: string)
    requires p != "" && r != "" && '/' !in r
    ensures TailOf(p + BLOBS + r) == Some(BlobReading(p, r))
  {
    BlobTail(p, r);
    MarkerInPath(p, r);
    var s, i := p + BLOBS + r, LastIndex(p + "/", MANIFESTS);
    if i > 0 { assert s[..i] == p[..i]; }
  }

  // A blob URL resolves to that reading in the owner of its path.
  lemma ResolveBlob(registered: set<string>, p: string, r: string)
    requires p != "" && p[0] != '/' && r != "" && '/' !in r
    ensures var t := BlobReading(p, r); var o := ResolveRepo(registered, t.repoTail);
            Resolve(registered, "/v2/" + (p + BLOBS + r)) ==
              if o.Err? then Err(o.error)
              else Ok(Resolved(o.value.slug, o.value.repository, o.value.storage, t.reference, t.resource))
  {
    BlobReadingIsTail(p, r);
    ResolveTail(registered, p + BLOBS + r, BlobReading(p, r));
  }

  // ---- Go and TypeScript ------------------------------------------------------------------

  lemma PrefixSegments(p: string, slug: string)
    requires '/' !in slug
    ensures var segs := Split(p, '/'); var prefix := "aocr/" + slug + "/";
            && (prefix <= p <==> |segs| >= 3 && segs[0] == "aocr" && segs[1] == slug)
            && (prefix <= p ==> p[|prefix|..] == Join(segs[2..], '/'))
  {
    var segs := Split(p, '/');
    var prefix := "aocr/" + slug + "/";
    JoinSplit(p, '/');
    if prefix <= p {
      var rest := p[|prefix|..];
      var tail := slug + ['/'] + rest;
      assert p == "aocr" + ['/'] + tail;
      SplitCut("aocr", '/', tail);
      SplitCut(slug, '/', rest);
      JoinSplit(rest, '/');
      assert segs == ["aocr"] + ([slug] + Split(rest, '/'));
      assert segs[2..] == Split(rest, '/');
    }
    if |segs| >= 3 && segs[0] == "aocr" && segs[1] == slug {
      assert p == "aocr" + ['/'] + (slug + ['/'] + Join(segs[1..][1..], '/'));
      assert p[..|prefix|] == prefix;
    }
  }

  lemma AocrFirst(p: string)
    ensures Split(p, '/')[0] == "aocr" <==> p == "aocr" || "aocr/" <= p
  {
    JoinSplit(p, '/');
    var segs := Split(p, '/');
    if "aocr/" <= p {
      assert p == "aocr" + ['/'] + p[5..];
      SplitCut("aocr", '/', p[5..]);
    }
    if p == "aocr" { SplitWhole(p, '/'); }
    if segs[0] == "aocr" && |segs| > 1 {
      assert p == "aocr" + ['/'] + Join(segs[1..], '/');
      assert p[..5] == "aocr/";
    }
  }

  const TABLE_SLUGS := ["ghcr", "gcr", "quay", "k8s"]

  // Row k of the table applies to the paths that start with the segments aocr and its slug.
  lemma TableRow(p: string, k: nat)
    requires k < 4
    ensures var segs := Split(p, '/'); var prefix := PREFIX_TABLE[k].0;
            && PREFIX_TABLE[k].1 == HostOf(TABLE_SLUGS[k])
            && (prefix <= p <==> |segs| >= 3 && segs[0] == "aocr" && segs[1] == TABLE_SLUGS[k])
            && (prefix <= p ==> p[|prefix|..] == Join(segs[2..], '/'))
  {
    PrefixSegments(p, TABLE_SLUGS[k]);
    assert PREFIX_TABLE[k].0 == "aocr/" + TABLE_SLUGS[k] + "/";
  }

  predicate OnTable(segs: seq<string>, k: nat)
    requires k <= 4
  {
    |segs| >= 3 && segs[0] == "aocr" && segs[1] in TABLE_SLUGS[k..]
  }

  lemma {:induction false} TableFrom(p: string, k: nat)
    requires p != "" && k <= 4
    ensures var segs := Split(p, '/'); var r := FromTable(p, k);
      if OnTable(segs, k) then
        r == if Join(segs[2..], '/') == "" then None else Some(Route(HostOf(segs[1]), Join(segs[2..], '/')))
      else if segs[0] == "aocr" then r.None? else r == Some(Route("docker.io", p))
    decreases 4 - k
  {
    AocrFirst(p);
    if k < 4 {
      TableRow(p, k);
      TableFrom(p, k + 1);
      assert TABLE_SLUGS[k..] == [TABLE_SLUGS[k]] + TABLE_SLUGS[k + 1..];
    }
  }

  // Which slug the TypeScript table reads, in terms of segments.
  lemma RouteBySegments(p: string)
    requires p != ""
    ensures var segs := Split(p, '/'); var r := RouteMirrorRepo(p);
      if segs[0] != "aocr" then r == Some(Route("docker.io", p))
      else if |segs| >= 3 && segs[1] in {"ghcr", "gcr", "quay", "k8s"} && Join(segs[2..], '/') != ""
      then r == Some(Route(HostOf(segs[1]), Join(segs[2..], '/')))
      else r.None?
  {
    TableFrom(p, 0);
    assert TABLE_SLUGS[0..] == ["ghcr", "gcr", "quay", "k8s"];
  }

  // The hosts that a repository path can be routed to.
  const HOSTS := {"docker.io", "ghcr.io", "gcr.io", "quay.io", "registry.k8s.io"}

  lemma RoutedHostIsKnown(p: string)
    requires RouteMirrorRepo(p).Some?
    ensures RouteMirrorRepo(p).value.host in HOSTS
  {
    RouteBySegments(p);
  }

  // Each prefix names its own host.
  lemma PrefixNamesHost(slug: string, host: string, rest: string)
    requires (slug, host) in
               {("ghcr", "ghcr.io"), ("gcr", "gcr.io"), ("quay", "quay.io"), ("k8s", "registry.k8s.io")}
    requires rest != ""
    ensures RouteMirrorRepo("aocr" + ['/'] + (slug + ['/'] + rest)) == Some(Route(host, rest))
  {
    var p := "aocr" + ['/'] + (slug + ['/'] + rest);
    SplitCut("aocr", '/', slug + ['/'] + rest);
    SplitCut(slug, '/', rest);
    JoinSplit(rest, '/');
    assert Split(p, '/')[2..] == Split(rest, '/');
    RouteBySegments(p);
  }

  // What Go resolves each path to, and each path it refuses, by segments: a single Docker Hub name is
  // completed with library/, and ghcr, gcr and quay need an owner and a name.
  lemma OwnerBySegments(p: string)
    requires p != "" && p[0] != '/'
    ensures var segs := Split(p, '/');
            ResolveRepo(SLUGS, p) ==
              if segs[0] != "aocr" then
                (if |segs| == 1 then Ok(Owner("docker", "library/" + p, "mirror/docker/library/" + p))
                 else Ok(Owner("docker", p, "mirror/docker/" + p)))
              else if |segs| < 3 then Err(UnknownUpstream)
              else PrefixedOwner(segs[1], segs[2..], Join(segs[2..], '/'))
  {
    var segs := Split(p, '/');
    JoinSplit(p, '/');
    FirstNonEmpty(p);
    if segs[0] != "aocr" {
      assert |segs| == 1 ==> segs == [p];
      assert "mirror/" + ("docker/library/" + p) == "mirror/docker/library/" + p;
      assert "mirror/" + ("docker/" + p) == "mirror/docker/" + p;
    } else if |segs| >= 3 {
      PrefixedBySlug(segs[1], segs[2..]);
    }
  }

  function PrefixedOwner(slug: string, rest: seq<string>, path: string): Result<Owner> {
    if slug == "docker" then
      (if |rest| == 1 then Ok(Owner(slug, "library/" + path, "mirror/docker/library/" + path))
       else Ok(Owner(slug, path, "mirror/docker/" + path)))
    else if slug == "k8s" then Ok(Owner(slug, path, "mirror/k8s/" + path))
    else if slug in {"ghcr", "gcr", "quay"} then
      (if |rest| == 1 then Err(BadRepository) else Ok(Owner(slug, path, "mirror/" + slug + "/" + path)))
    else Err(UnknownUpstream)
  }

  lemma PrefixedBySlug(slug: string, rest: seq<string>)
    requires rest != []
    ensures PrefixedOwner(slug, rest, Join(rest, '/')) ==
            if slug !in SLUGS then Err(UnknownUpstream)
            else match Normalize(slug, rest)
                 case Err(e) => Err(e)
                 case Ok(n) => Ok(Owner(slug, n.repository, "mirror/" + n.storagePath))
  {
    var path := Join(rest, '/');
    assert "mirror/" + ("docker/library/" + path) == "mirror/docker/library/" + path;
    assert "mirror/" + ("docker/" + path) == "mirror/docker/" + path;
    assert "mirror/" + ("k8s/" + path) == "mirror/k8s/" + path;
    assert "mirror/" + (slug + "/" + path) == "mirror/" + slug + "/" + path;
  }

  // Where both implementations accept a path they name the same upstream, and the same
  // repository unless it is a single-segment Docker Hub name, which only Go completes with
  // `library/`.  The other lines say exactly where just one of them accepts.
  ghost predicate Agreement(p: string, segs: seq<string>, go: Result<Owner>, ts: Option<Route>)
    requires segs != []
  {
    && (go.Ok? && ts.Some? ==>
          ts.value.host == HostOf(go.value.slug)
          && (go.value.repository == ts.value.upstreamRepo <==> !(go.value.slug == "docker" && '/' !in p)))
    && (go.Ok? && ts.None? <==>
          segs[0] == "aocr" && |segs| >= 3 && (segs[1] == "docker" || (segs[1] == "k8s" && segs[2..] == [""])))
    && (go.Err? && ts.Some? <==>
          segs[0] == "aocr" && |segs| == 3 && segs[1] in {"ghcr", "gcr", "quay"} && segs[2] != "")
  }

  lemma UnprefixedAgree(p: string)
    requires p != "" && p[0] != '/' && Split(p, '/')[0] != "aocr"
    ensures Agreement(p, Split(p, '/'), ResolveRepo(SLUGS, p), RouteMirrorRepo(p))
  {
    var segs := Split(p, '/');
    RouteBySegments(p);
    JoinSplit(p, '/');
    SplitSingle(p, '/');
    FirstNonEmpty(p);
    if segs == [p] { assert |"library/" + p| > |p|; }
  }

  lemma PrefixedAgree(p: string)
    requires p != "" && p[0] != '/' && Split(p, '/')[0] == "aocr"
    ensures Agreement(p, Split(p, '/'), ResolveRepo(SLUGS, p), RouteMirrorRepo(p))
  {
    var segs := Split(p, '/');
    RouteBySegments(p);
    SplitSingle(p, '/');
    if |segs| >= 3 { JoinEmpty(segs[2..]); }
  }

  lemma RoutersAgree(p: string)
    requires p != "" && p[0] != '/'
    ensures Agreement(p, Split(p, '/'), ResolveRepo(SLUGS, p), RouteMirrorRepo(p))
  {
    if Split(p, '/')[0] == "aocr" { PrefixedAgree(p); } else { UnprefixedAgree(p); }
  }

  lemma FirstNonEmpty(p: string)
    requires p != "" && p[0] != '/'
    ensures Split(p, '/')[0] != ""
  {
  }

  lemma JoinEmpty(parts: seq<string>)
    requires parts != []
    ensures Join(parts, '/') == "" <==> parts == [""]
  {
    if |parts| > 1 { assert |Join(parts, '/')| >= 1; }
  }

  // Two repositories share a storage path only if they are the same repository of the same
  // upstream.
  lemma StorageInjective(p: string, q: string)
    requires ResolveRepo(SLUGS, p).Ok? && ResolveRepo(SLUGS, q).Ok?
    requires ResolveRepo(SLUGS, p).value.storage == ResolveRepo(SLUGS, q).value.storage
    ensures ResolveRepo(SLUGS, p).value == ResolveRepo(SLUGS, q).value
  {
    var a, b := ResolveRepo(SLUGS, p).value, ResolveRepo(SLUGS, q).value;
    StorageShape(p);
    StorageShape(q);
    var x, y := a.slug + ['/'] + a.repository, b.slug + ['/'] + b.repository;
    assert a.storage[7..] == x && b.storage[7..] == y;
    CutUnique(a.slug, a.repository, b.slug, b.repository, '/');
  }

  lemma StorageShape(p: string)
    requires ResolveRepo(SLUGS, p).Ok?
    ensures var o := ResolveRepo(SLUGS, p).value;
            o.slug in SLUGS && '/' !in o.slug && o.storage == "mirror/" + (o.slug + ['/'] + o.repository)
  {
  }

  // Which storage paths there are: each repository of an upstream with at least two segments, and for
  // k8s with one.
  lemma StorageNames(p: string)
    requires ResolveRepo(SLUGS, p).Ok?
    ensures ResolveRepo(SLUGS, p).value.slug == "k8s" || '/' in ResolveRepo(SLUGS, p).value.repository
  {
    NotARequest(SLUGS, p);
    OwnerBySegments(p);
    SplitSingle(p, '/');
    var segs := Split(p, '/');
    if |segs| > 3 { assert '/' in Join(segs[2..], '/') by { JoinSeveral(segs[2..]); } }
    assert '/' in "library/";
  }

  lemma JoinSeveral(parts: seq<string>)
    requires |parts| > 1
    ensures '/' in Join(parts, '/')
  {
    assert '/' in parts[0] + ['/'];
  }

  lemma StoredUnder(slug: string, repository: string)
    requires slug in SLUGS && (slug == "k8s" || '/' in repository)
    ensures ResolveRepo(SLUGS, "aocr" + ['/'] + (slug + ['/'] + repository)) ==
            Ok(Owner(slug, repository, "mirror/" + (slug + ['/'] + repository)))
  {
    var p, segs := "aocr" + ['/'] + (slug + ['/'] + repository), Split(repository, '/');
    SplitCut("aocr", '/', slug + ['/'] + repository);
    SplitCut(slug, '/', repository);
    assert Split(p, '/') == ["aocr", slug] + segs;
    assert Split(p, '/')[2..] == segs;
    JoinSplit(repository, '/');
    SplitSingle(repository, '/');
    StorageShape(p);
  }
}
