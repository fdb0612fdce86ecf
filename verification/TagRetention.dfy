// Retention suffixes of tags and the provenance of repository paths
// (hooks/src/util/tagRetention.ts).  Times are in milliseconds.
module TagRetention {
  import opened Options
  import opened Strings
  import Routing

  datatype Mode = KeepLatest | Ttl | Idle
  datatype Provenance = Pushed | Mirror | ClusterSnapshot

  const HOUR := 60 * 60
  const DAY := 24 * HOUR

  // TTL_SUFFIX_SECONDS, as a map of its own keys.
  const SUFFIX_SECONDS: map<string, nat> := map[
    "1h" := HOUR, "6h" := 6 * HOUR, "24h" := 24 * HOUR,
    "7d" := 7 * DAY, "30d" := 30 * DAY, "90d" := 90 * DAY, "180d" := 180 * DAY, "365d" := 365 * DAY,
    "1month" := 30 * DAY, "3month" := 90 * DAY, "6month" := 180 * DAY, "12month" := 365 * DAY]

  // TTL_CANONICAL_SUFFIX
  const CANONICAL: map<string, string> := map[
    "1h" := "1h", "6h" := "6h", "24h" := "24h",
    "7d" := "7d", "30d" := "30d", "90d" := "90d", "180d" := "180d", "365d" := "365d",
    "1month" := "30d", "3month" := "90d", "6month" := "180d", "12month" := "365d"]

  predicate LowerAlnum(s: string) {
    s != "" && forall c | c in s :: 'a' <= c <= 'z' || '0' <= c <= '9'
  }

  // What `.` does not match.
  predicate OneLine(s: string) {
    forall c | c in s :: c != '\n' && c != '\r' && c as int != 0x2028 && c as int != 0x2029
  }

  function Word(mode: Mode): string { if mode.Ttl? then "ttl" else "idle" }

  function Mark(mode: Mode): (mark: string)
    ensures |mark| == if mode.Ttl? then 5 else 6
  {
    "--" + Word(mode)
  }

  function Suffixed(base: string, mode: Mode, suffix: string): string {
    base + Mark(mode) + "-" + suffix
  }

  // The pattern ^(.*)--(ttl|idle)-([a-z0-9]+)$.
  ghost predicate Matches(tag: string, base: string, mode: Mode, suffix: string) {
    !mode.KeepLatest? && OneLine(base) && LowerAlnum(suffix) && tag == Suffixed(base, mode, suffix)
  }

  datatype Parts = Parts(base: string, mode: Mode, suffix: string)

  predicate EndsWith(s: string, e: string) {
    |e| <= |s| && s[|s| - |e|..] == e
  }

  // The head must be a line that ends in the mode's mark.
  function CaptureAs(head: string, mode: Mode, suffix: string): Option<Parts> {
    if EndsWith(head, Mark(mode)) && OneLine(head[..|head| - |Mark(mode)|])
    then Some(Parts(head[..|head| - |Mark(mode)|], mode, suffix)) else None
  }

  // What the pattern captures: the suffix cannot contain a dash, so it starts after the last.
  function Capture(tag: string): Option<Parts> {
    var d := LastIndex(tag, "-");
    if d < 0 || !LowerAlnum(tag[d + 1..]) then None
    else
      match CaptureAs(tag[..d], Ttl, tag[d + 1..])
      case Some(p) => Some(p)
      case None => CaptureAs(tag[..d], Idle, tag[d + 1..])
  }

  datatype Retention = Retention(
    mode: Mode, seconds: Option<nat>, expiresAt: Option<int>, raw: Option<string>, canonical: Option<string>)

  function ParseTagRetention(tag: string, referenceTime: int): Retention {
    match Capture(tag)
    case None => Retention(KeepLatest, None, None, None, None)
    case Some(p) =>
      if p.suffix !in SUFFIX_SECONDS then Retention(KeepLatest, None, None, None, None)
      else
        var seconds := SUFFIX_SECONDS[p.suffix];
        Retention(p.mode, Some(seconds), if p.mode.Ttl? then Some(referenceTime + seconds * 1000) else None,
                  Some(p.suffix), if p.suffix in CANONICAL then Some(CANONICAL[p.suffix]) else None)
  }

  // ---- the pattern has at most one decomposition, and Capture finds it --------------------

  lemma LastDash(head: string, suffix: string)
    requires LowerAlnum(suffix)
    ensures LastIndex(head + "-" + suffix, "-") == |head|
  {
    var tag, k := head + "-" + suffix, |head|;
    assert tag[k..k + 1] == "-" && Occurs(tag, "-", k);
    forall i | k < i
      ensures !Occurs(tag, "-", i)
    {
      if i < |tag| {
        assert tag[i] == suffix[i - k - 1] && suffix[i - k - 1] in suffix;
        assert tag[i..i + 1][0] == tag[i];
      }
    }
  }

  lemma CutAt(a: string, m: string, b: string)
    ensures (a + m + b)[..|a|] == a && (a + m + b)[|a| + |m|..] == b
  {}

  lemma CutEnd(a: string, b: string)
    ensures (a + b)[..|a + b| - |b|] == a && (a + b)[|a + b| - |b|..] == b
  {}

  // A head ends in at most one mark.
  lemma MarksDiffer(head: string)
    ensures !(EndsWith(head, Mark(Ttl)) && EndsWith(head, Mark(Idle)))
  {
    assert Mark(Ttl)[4] == 'l' && Mark(Idle)[5] == 'e';
  }

  lemma HeadIsCaptured(base: string, mode: Mode, suffix: string)
    requires OneLine(base)
    ensures CaptureAs(base + Mark(mode), mode, suffix) == Some(Parts(base, mode, suffix))
  {
    CutEnd(base, Mark(mode));
  }

  lemma MatchIsCaptured(base: string, mode: Mode, suffix: string)
    requires OneLine(base) && LowerAlnum(suffix) && !mode.KeepLatest?
    ensures Capture(Suffixed(base, mode, suffix)) == Some(Parts(base, mode, suffix))
  {
    var head := base + Mark(mode);
    LastDash(head, suffix);
    CutAt(head, "-", suffix);
    HeadIsCaptured(base, mode, suffix);
    MarksDiffer(head);
  }

  lemma CapturedHead(head: string, mode: Mode, suffix: string)
    requires CaptureAs(head, mode, suffix).Some?
    ensures var p := CaptureAs(head, mode, suffix).value;
            p.mode == mode && p.suffix == suffix && OneLine(p.base) && head == p.base + Mark(mode)
  {}

  lemma DashCut(tag: string, d: nat)
    requires Occurs(tag, "-", d)
    ensures tag == tag[..d] + "-" + tag[d + 1..]
  {
    assert tag[d..d + 1] == "-";
  }

  lemma CaptureIsMatch(tag: string)
    requires Capture(tag).Some?
    ensures var p := Capture(tag).value; Matches(tag, p.base, p.mode, p.suffix)
  {
    var d := LastIndex(tag, "-");
    var head, suffix := tag[..d], tag[d + 1..];
    DashCut(tag, d);
    CapturedHead(head, if CaptureAs(head, Ttl, suffix).Some? then Ttl else Idle, suffix);
  }

  lemma CaptureExactly(tag: string, base: string, mode: Mode, suffix: string)
    ensures Matches(tag, base, mode, suffix) <==> Capture(tag) == Some(Parts(base, mode, suffix))
  {
    if Matches(tag, base, mode, suffix) { MatchIsCaptured(base, mode, suffix); }
    if Capture(tag).Some? { CaptureIsMatch(tag); }
  }

  // Small letters and digits, and no line terminator, by their code units.
  predicate Alnum(s: string) {
    s != "" && forall c | c in s :: 48 <= c as int <= 57 || 97 <= c as int <= 122
  }

  predicate Line(s: string) { forall c | c in s :: c as int !in {10, 13, 0x2028, 0x2029} }

  // What the pattern captures, by its literals.
  lemma CaptureInWords(tag: string, base: string, suffix: string)
    ensures Capture(tag) == Some(Parts(base, Ttl, suffix)) <==>
            Line(base) && Alnum(suffix) && tag == base + "--ttl" + "-" + suffix
    ensures Capture(tag) == Some(Parts(base, Idle, suffix)) <==>
            Line(base) && Alnum(suffix) && tag == base + "--idle" + "-" + suffix
  {
    CaptureExactly(tag, base, Ttl, suffix);
    CaptureExactly(tag, base, Idle, suffix);
    assert Mark(Ttl) == "--ttl" && Mark(Idle) == "--idle";
    assert '\n' as int == 10 && '\r' as int == 13;
    assert '0' as int == 48 && '9' as int == 57 && 'a' as int == 97 && 'z' as int == 122;
  }

  const SHORT := {"1h", "6h", "24h", "7d", "30d", "90d", "180d", "365d"}

  lemma SuffixesAreWords(suffix: string)
    requires suffix in SUFFIX_SECONDS
    ensures LowerAlnum(suffix) && suffix in CANONICAL && CANONICAL[suffix] in SUFFIX_SECONDS
    ensures SUFFIX_SECONDS[CANONICAL[suffix]] == SUFFIX_SECONDS[suffix]
    ensures CANONICAL[suffix] in SHORT && (suffix in SHORT ==> CANONICAL[suffix] == suffix)
  {
  }

  // Parsing recovers mode and duration from every one-line base with a supported suffix, and names the
  // same duration in hours or days.
  lemma SuffixRoundTrip(base: string, mode: Mode, suffix: string, t: int)
    requires OneLine(base) && !mode.KeepLatest? && suffix in SUFFIX_SECONDS
    ensures var r := ParseTagRetention(Suffixed(base, mode, suffix), t);
            && r.mode == mode && r.seconds == Some(SUFFIX_SECONDS[suffix]) && r.raw == Some(suffix)
            && r.canonical.Some? && r.canonical.value in SUFFIX_SECONDS
            && SUFFIX_SECONDS[r.canonical.value] == SUFFIX_SECONDS[suffix]
            && r.canonical.value in SHORT && (suffix in SHORT ==> r.canonical.value == suffix)
            && (mode.Ttl? ==> r.expiresAt == Some(t + SUFFIX_SECONDS[suffix] * 1000))
            && (mode.Idle? ==> r.expiresAt == None)
  {
    SuffixesAreWords(suffix);
    CaptureExactly(Suffixed(base, mode, suffix), base, mode, suffix);
  }

  // A tag is not keep-latest exactly when it is such a base with such a suffix.
  lemma SuffixNeeded(tag: string, t: int)
    ensures ParseTagRetention(tag, t).mode != KeepLatest <==>
            exists base, mode, suffix :: Matches(tag, base, mode, suffix) && suffix in SUFFIX_SECONDS
  {
    if ParseTagRetention(tag, t).mode != KeepLatest {
      var p := Capture(tag).value;
      CaptureExactly(tag, p.base, p.mode, p.suffix);
    }
    if base, mode, suffix :| Matches(tag, base, mode, suffix) && suffix in SUFFIX_SECONDS {
      CaptureExactly(tag, base, mode, suffix);
    }
  }

  // ---- what a suffix says -----------------------------------------------------------------

  function Number(digits: string): int {
    if digits == "" then 0
    else 10 * Number(digits[..|digits| - 1]) + digits[|digits| - 1] as int - '0' as int
  }

  // A numeral and a unit, in seconds: a month is 30 days, but twelve are a year of 365.
  function Lasts(n: int, unit: string): int {
    if unit == "h" then n * 3600
    else if unit == "d" then n * 86400
    else if n == 12 then 365 * 86400 else n * 30 * 86400
  }

  ghost predicate Spells(suffix: string, digits: string, unit: string, seconds: int) {
    suffix == digits + unit && unit in {"h", "d", "month"} && Lasts(Number(digits), unit) == seconds
  }

  lemma ShortNumber(digits: string)
    requires 1 <= |digits| <= 3
    ensures |digits| == 1 ==> Number(digits) == digits[0] as int - 48
    ensures |digits| == 2 ==> Number(digits) == 10 * (digits[0] as int - 48) + digits[1] as int - 48
    ensures |digits| == 3 ==>
              Number(digits) == 100 * (digits[0] as int - 48) + 10 * (digits[1] as int - 48) + digits[2] as int - 48
  {
    if |digits| > 1 { ShortNumber(digits[..|digits| - 1]); } else { assert digits[..0] == ""; }
  }

  lemma Hours(suffix: string)
    requires suffix in {"1h", "6h", "24h"}
    ensures Spells(suffix, suffix[..|suffix| - 1], "h", SUFFIX_SECONDS[suffix])
  {
    ShortNumber(suffix[..|suffix| - 1]);
  }

  lemma Days(suffix: string)
    requires suffix in {"7d", "30d", "90d", "180d", "365d"}
    ensures Spells(suffix, suffix[..|suffix| - 1], "d", SUFFIX_SECONDS[suffix])
  {
    ShortNumber(suffix[..|suffix| - 1]);
  }

  lemma Months(suffix: string)
    requires suffix in {"1month", "3month", "6month", "12month"}
    ensures Spells(suffix, suffix[..|suffix| - 5], "month", SUFFIX_SECONDS[suffix])
  {
    ShortNumber(suffix[..|suffix| - 5]);
  }

  // The supported suffixes are these, and each lasts what its numeral and unit say.
  lemma SuffixMeans(suffix: string)
    ensures suffix in SUFFIX_SECONDS <==>
            suffix in {"1h", "6h", "24h"} + {"7d", "30d", "90d", "180d", "365d"} +
                      {"1month", "3month", "6month", "12month"}
    ensures suffix in SUFFIX_SECONDS ==> exists digits, unit :: Spells(suffix, digits, unit, SUFFIX_SECONDS[suffix])
  {
    if suffix in {"1h", "6h", "24h"} { Hours(suffix); }
    else if suffix in {"7d", "30d", "90d", "180d", "365d"} { Days(suffix); }
    else if suffix in {"1month", "3month", "6month", "12month"} { Months(suffix); }
  }

  // ---- provenance -------------------------------------------------------------------------

  datatype Inferred = Inferred(
    provenance: Provenance, organization: string, name: string, clusterId: Option<string>, upstreamRef: Option<string>)

  predicate ClusterIdChar(c: char) {
    'A' <= c <= 'Z' || 'a' <= c <= 'z' || '0' <= c <= '9' || c == '_' || c == '-'
  }

  // ^[A-Za-z0-9_-]{1,64}$
  predicate ClusterId(s: string) {
    1 <= |s| <= 64 && forall c | c in s :: ClusterIdChar(c)
  }

  function InferredProvenance(repository: string): Option<Inferred> {
    var segments := NonEmpty(Split(repository, '/'));
    if |segments| < 2 then None
    else
      var organization, name := segments[0], Join(segments[1..], '/');
      if organization == "cluster" then
        var clusterId := if ClusterId(segments[1]) then Some(segments[1]) else None;
        Some(Inferred(ClusterSnapshot, organization, name, clusterId, None))
      else if organization == "mirror" then
        Some(Inferred(Mirror, organization, name, None, Some(name)))
      else
        Some(Inferred(Pushed, organization, name, None, None))
  }

  // A slug before a path gives the path back with its empty segments dropped, if there are any.
  lemma NameWithoutEmpty(slug: string, repository: string)
    ensures Join([slug] + NonEmpty(Split(repository, '/')), '/') == slug + ['/'] + repository <==>
            forall s | s in Split(repository, '/') :: s != ""
  {
    var parts := Split(repository, '/');
    JoinSplit(repository, '/');
    assert ([slug] + parts)[1..] == parts;
    assert Join([slug] + parts, '/') == slug + ['/'] + repository;
    NonEmptyShortens(parts);
    JoinLength([slug] + NonEmpty(parts), '/');
    JoinLength([slug] + parts, '/');
    TotalOf(slug, parts);
    TotalOf(slug, NonEmpty(parts));
    if forall s | s in parts :: s != "" { NonEmptyAll(parts); }
  }

  lemma MirrorSegments(slug: string, repository: string)
    requires slug != "" && '/' !in slug
    ensures NonEmpty(Split("mirror" + ['/'] + (slug + ['/'] + repository), '/')) ==
            ["mirror", slug] + NonEmpty(Split(repository, '/'))
  {
    SplitCut("mirror", '/', slug + ['/'] + repository);
    SplitCut(slug, '/', repository);
    var parts := Split(repository, '/');
    assert ["mirror"] + ([slug] + parts) == ["mirror", slug] + parts;
    NonEmptyTwo("mirror", slug, parts);
  }

  lemma InferredMirror(storage: string, slug: string, rest: seq<string>)
    requires NonEmpty(Split(storage, '/')) == ["mirror", slug] + rest
    ensures InferredProvenance(storage) ==
            Some(Inferred(Mirror, "mirror", Join([slug] + rest, '/'), None, Some(Join([slug] + rest, '/'))))
  {
    assert (["mirror", slug] + rest)[1..] == [slug] + rest;
    assert "mirror"[0] != "cluster"[0];
  }

  // Everything the mirror stores is recognised as mirrored, and its upstream reference is
  // slug/repository exactly when the repository path has no empty segment.
  lemma MirrorStorageIsMirror(p: string)
    requires Routing.ResolveRepo(Routing.SLUGS, p).Ok?
    ensures var o := Routing.ResolveRepo(Routing.SLUGS, p).value;
            var i := InferredProvenance(o.storage);
            && i.Some? && i.value.provenance == Mirror && i.value.organization == "mirror"
            && i.value.upstreamRef == Some(i.value.name)
            && (i.value.name == o.slug + ['/'] + o.repository <==> forall s | s in Split(o.repository, '/') :: s != "")
  {
    var o := Routing.ResolveRepo(Routing.SLUGS, p).value;
    Routing.StorageShape(p);
    assert o.storage == "mirror" + ['/'] + (o.slug + ['/'] + o.repository);
    MirrorSegments(o.slug, o.repository);
    InferredMirror(o.storage, o.slug, NonEmpty(Split(o.repository, '/')));
    NameWithoutEmpty(o.slug, o.repository);
  }

  lemma NonEmptyTwo(a: string, b: string, parts: seq<string>)
    requires a != "" && b != ""
    ensures NonEmpty([a, b] + parts) == [a, b] + NonEmpty(parts)
  {
    assert ([a, b] + parts)[1..] == [b] + parts && ([b] + parts)[1..] == parts;
  }

  lemma TotalOf(a: string, parts: seq<string>)
    ensures Total([a] + parts) == |a| + Total(parts)
  {
    assert ([a] + parts)[1..] == parts;
  }

  // A path without empty segments is organization/name again.
  lemma ProvenanceKeepsPath(repository: string)
    requires InferredProvenance(repository).Some? && forall s | s in Split(repository, '/') :: s != ""
    ensures var i := InferredProvenance(repository).value;
            i.organization + "/" + i.name == repository && '/' !in i.organization && i.organization != ""
  {
    var segments := Split(repository, '/');
    NonEmptyAll(segments);
    JoinSplit(repository, '/');
    SplitHasNoSep(repository, '/');
    assert segments[0] in segments;
  }

  // What a repository of a namespace is, by its first segment: the cluster is named by the second one
  // if that is a cluster label, the upstream by all that follows mirror.
  lemma ProvenanceOf(organization: string, name: string)
    requires organization != "" && '/' !in organization && forall s | s in Split(name, '/') :: s != ""
    ensures InferredProvenance(organization + ['/'] + name) ==
            Some(Inferred(
              if organization == "cluster" then ClusterSnapshot
              else if organization == "mirror" then Mirror else Pushed,
              organization, name,
              if organization == "cluster" && ClusterId(Split(name, '/')[0]) then Some(Split(name, '/')[0]) else None,
              if organization == "mirror" then Some(name) else None))
  {
    var parts := Split(name, '/');
    SplitCut(organization, '/', name);
    NonEmptyAll([organization] + parts);
    JoinSplit(name, '/');
    assert ([organization] + parts)[1..] == parts;
  }

  // A path of one segment belongs to no namespace.
  lemma NoNamespace(repository: string)
    requires '/' !in repository
    ensures InferredProvenance(repository) == None
  {
    SplitWhole(repository, '/');
    NonEmptyShortens([repository]);
  }

  predicate Label(code: int) {
    code in {45, 95} || 48 <= code <= 57 || 65 <= code <= 90 || 97 <= code <= 122
  }

  // UUIDs are cluster labels, and so is any text of 1 to 64 letters, digits, dashes and underscores;
  // nothing that could end a path segment is.
  lemma ClusterLabels(s: string)
    ensures |s| == 36 && (forall c | c in s :: c == '-' || '0' <= c <= '9' || 'a' <= c <= 'f' || 'A' <= c <= 'F') ==>
              ClusterId(s)
    ensures 1 <= |s| <= 64 && (forall c | c in s :: Label(c as int)) ==> ClusterId(s)
    ensures ClusterId(s) ==> 1 <= |s| <= 64 && forall c | c in s :: c !in "/:. @%"
    ensures ClusterId("My_cluster-01")
  {
    assert |"My_cluster-01"| == 13;
  }
}
