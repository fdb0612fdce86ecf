// Importing a mirrored image by mounting its blobs (hooks/src/controllers/ImportAPI.ts and
// hooks/src/util/mountFromRepo.ts): what one import does to the registry, for every reply.
module ImportApi {
  import opened Options
  import opened Strings
  import opened Lists
  import opened TagRetention
  import HookEvents
  import Routing

  // A parsed manifest: the digests of its config, its layers and its sub-manifests ("" when a
  // descriptor has none).
  datatype Manifest = Manifest(config: Option<string>, layers: seq<string>, manifests: seq<string>)

  // A digest, or a tag, in a repository.
  datatype Ref = Ref(repo: string, name: string)

  datatype State = State(blobs: set<Ref>, manifests: set<Ref>, tags: map<Ref, string>)

  // The registry the import talks to.
  class Registry {
    var blobs: set<Ref>
    var manifests: set<Ref>
    var tags: map<Ref, string>

    ghost function Contents(): State
      reads this
    {
      State(blobs, manifests, tags)
    }
  }

  // ---- the digests of a manifest ----------------------------------------------------------

  function References(m: Manifest): seq<string> {
    NonEmpty((if m.config.Some? then [m.config.value] else []) + m.layers + m.manifests)
  }

  function Digests(m: Manifest): seq<string> { Distinct(References(m)) }

  // Every digest the manifest refers to, each once.
  lemma DigestsExactly(m: Manifest)
    ensures forall i, j | 0 <= i < j < |Digests(m)| :: Digests(m)[i] != Digests(m)[j]
    ensures forall d :: d in Digests(m) <==>
              d != "" && (m.config == Some(d) || d in m.layers || d in m.manifests)
  {
    NonEmptyMembers((if m.config.Some? then [m.config.value] else []) + m.layers + m.manifests);
    DistinctExactly(References(m));
  }

  // The config comes first, then the layers, then the sub-manifests, each at its first mention.
  lemma DigestsInOrder(m: Manifest)
    ensures m.config.Some? && m.config.value != "" ==> Digests(m) != [] && Digests(m)[0] == m.config.value
    ensures var config := if m.config.Some? then [m.config.value] else [];
            Distinct(NonEmpty(config + m.layers)) <= Digests(m)
  {
    var config := if m.config.Some? then [m.config.value] else [];
    NonEmptyConcat(config + m.layers, m.manifests);
    NonEmptyConcat(config, m.layers + m.manifests);
    assert config + m.layers + m.manifests == config + (m.layers + m.manifests);
    var all, some := References(m), NonEmpty(config + m.layers);
    assert all[..|some|] == some;
    DistinctPrefix(all, |some|);
    if m.config.Some? && m.config.value != "" {
      assert all[..1] == [m.config.value];
      DistinctOfDistinct([m.config.value]);
      DistinctPrefix(all, 1);
    }
  }

  method PushAll(seen: set<string>, out: seq<string>, ds: seq<string>, ghost before: seq<string>)
    returns (seen': set<string>, out': seq<string>)
    requires out == Distinct(NonEmpty(before)) && forall d :: d in seen <==> d in out
    ensures out' == Distinct(NonEmpty(before + ds)) && forall d :: d in seen' <==> d in out'
  {
    seen', out' := seen, out;
    assert before + ds[..0] == before;
    for n := 0 to |ds|
      invariant out' == Distinct(NonEmpty(before + ds[..n]))
      invariant forall d :: d in seen' <==> d in out'
    {
      var d := ds[n];
      assert before + ds[..n + 1] == (before + ds[..n]) + [d];
      NonEmptyAppend(before + ds[..n], d);
      DistinctStep(NonEmpty(before + ds[..n]), d);
      if d != "" && d !in seen' {
        seen', out' := seen' + {d}, out' + [d];
      }
      if d == "" { assert NonEmpty(before + ds[..n]) + [] == NonEmpty(before + ds[..n]); }
    }
    assert ds[..|ds|] == ds;
  }

  // collectBlobDigests
  method CollectBlobDigests(m: Manifest) returns (out: seq<string>)
    ensures out == Digests(m)
  {
    var config := if m.config.Some? then [m.config.value] else [];
    var seen: set<string> := {};
    seen, out := PushAll(seen, [], config, []);
    assert [] + config == config;
    seen, out := PushAll(seen, out, m.layers, config);
    seen, out := PushAll(seen, out, m.manifests, config + m.layers);
  }

  // ---- mounting ---------------------------------------------------------------------------

  // The reply to a mount: its status (None when the call fails), whether the blob is now in the
  // destination because of it, and the status of the HEAD that follows a 404.
  datatype MountReply = MountReply(status: Option<nat>, took: bool, head: Option<nat>)

  datatype Outcome = Mounted | Present | NotMounted

  function OutcomeOf(r: MountReply): Outcome {
    if r.status == Some(201) then Mounted
    else if r.status == Some(404) && r.head == Some(200) then Present
    else NotMounted
  }

  // The replies that say the blob is in the destination: 201, or 404 followed by a HEAD answered 200.
  predicate SaysPresent(r: MountReply) {
    r.status == Some(201) || (r.status == Some(404) && r.head == Some(200))
  }

  // A mount counts as done exactly then; 202, any other status and no reply are failures.
  lemma OutcomeInReplies(r: MountReply)
    ensures OutcomeOf(r) == Mounted <==> r.status == Some(201)
    ensures OutcomeOf(r) == Present <==> r.status == Some(404) && r.head == Some(200)
    ensures OutcomeOf(r) == NotMounted <==> !SaysPresent(r)
  {}

  function MountOne(s: State, dst: string, digest: string, r: MountReply): State {
    if r.took then s.(blobs := s.blobs + {Ref(dst, digest)}) else s
  }

  function MountMany(s: State, dst: string, digests: seq<string>, rs: seq<MountReply>): State
    requires |digests| <= |rs|
  {
    if digests == [] then s
    else
      var n := |digests| - 1;
      MountOne(MountMany(s, dst, digests[..n], rs), dst, digests[n], rs[n])
  }

  // How many of the first n mounts are attempted: up to and including the first that fails.
  function Attempts(rs: seq<MountReply>, n: nat): (k: nat)
    requires n <= |rs|
    ensures k <= n
    ensures forall i | 0 <= i < k - 1 :: !OutcomeOf(rs[i]).NotMounted?
    ensures k < n ==> 0 < k && OutcomeOf(rs[k - 1]).NotMounted?
  {
    if n == 0 then 0
    else
      var k := Attempts(rs, n - 1);
      if k < n - 1 || (k > 0 && OutcomeOf(rs[k - 1]).NotMounted?) then k else n
  }

  predicate AllMounted(rs: seq<MountReply>, n: nat)
    requires n <= |rs|
  {
    forall i | 0 <= i < n :: !OutcomeOf(rs[i]).NotMounted?
  }

  lemma AllMountedInReplies(rs: seq<MountReply>, n: nat)
    requires n <= |rs|
    ensures AllMounted(rs, n) <==> forall i | 0 <= i < n :: SaysPresent(rs[i])
  {
    forall i | 0 <= i < n
      ensures OutcomeOf(rs[i]).NotMounted? <==> !SaysPresent(rs[i])
    {
      OutcomeInReplies(rs[i]);
    }
  }

  lemma {:induction false} AttemptsOfPrefix(rs: seq<MountReply>, n: nat, i: nat)
    requires i < n <= |rs| && AllMounted(rs, i) && OutcomeOf(rs[i]).NotMounted?
    ensures Attempts(rs, n) == i + 1
  {
    AttemptsOfAll(rs, i);
    if n > i + 1 { AttemptsOfPrefix(rs, n - 1, i); }
  }

  lemma {:induction false} AttemptsOfAll(rs: seq<MountReply>, n: nat)
    requires n <= |rs| && AllMounted(rs, n)
    ensures Attempts(rs, n) == n
  {
    if n > 0 { AttemptsOfAll(rs, n - 1); }
  }

  method MountBlob(registry: Registry, dst: string, digest: string, r: MountReply) returns (outcome: Outcome)
    modifies registry
    ensures registry.Contents() == MountOne(old(registry.Contents()), dst, digest, r)
    ensures outcome == OutcomeOf(r)
    ensures outcome == NotMounted <==> !SaysPresent(r)
  {
    if r.took { registry.blobs := registry.blobs + {Ref(dst, digest)}; }
    if r.status.None? { return NotMounted; }
    if r.status.value == 201 { return Mounted; }
    if r.status.value == 202 { return NotMounted; }
    if r.status.value == 404 {
      if r.head.Some? && r.head.value == 200 { return Present; }
      return NotMounted;
    }
    return NotMounted;
  }

  method MountAllBlobs(registry: Registry, m: Manifest, dst: string, rs: seq<MountReply>)
    returns (outcomes: seq<Outcome>, allMounted: bool)
    requires |Digests(m)| <= |rs|
    modifies registry
    ensures |outcomes| == Attempts(rs, |Digests(m)|)
    ensures forall i | 0 <= i < |outcomes| :: outcomes[i] == OutcomeOf(rs[i])
    ensures allMounted <==> AllMounted(rs, |Digests(m)|)
    ensures allMounted <==> forall i | 0 <= i < |Digests(m)| :: SaysPresent(rs[i])
    ensures registry.Contents() == MountMany(old(registry.Contents()), dst, Digests(m)[..|outcomes|], rs)
  {
    var digests := CollectBlobDigests(m);
    outcomes := [];
    for n := 0 to |digests|
      invariant |outcomes| == n && AllMounted(rs, n)
      invariant forall i | 0 <= i < n :: outcomes[i] == OutcomeOf(rs[i])
      invariant registry.Contents() == MountMany(old(registry.Contents()), dst, digests[..n], rs)
    {
      assert digests[..n + 1][..n] == digests[..n];
      var outcome := MountBlob(registry, dst, digests[n], rs[n]);
      outcomes := outcomes + [outcome];
      if outcome.NotMounted? {
        AttemptsOfPrefix(rs, |digests|, n);
        OutcomeInReplies(rs[n]);
        return outcomes, false;
      }
    }
    AttemptsOfAll(rs, |digests|);
    AllMountedInReplies(rs, |digests|);
    return outcomes, true;
  }

  // Replies that say the blob is in the destination are true.
  predicate TruthfulMounts(s: State, dst: string, digests: seq<string>, rs: seq<MountReply>)
    requires |digests| <= |rs|
  {
    digests != [] ==>
      var n := |digests| - 1;
      && TruthfulMounts(s, dst, digests[..n], rs)
      && (SaysPresent(rs[n]) ==> Ref(dst, digests[n]) in MountMany(s, dst, digests, rs).blobs)
  }

  lemma {:induction false} MountsOnlyAdd(s: State, dst: string, digests: seq<string>, rs: seq<MountReply>)
    requires |digests| <= |rs|
    ensures var t := MountMany(s, dst, digests, rs);
            && t.manifests == s.manifests && t.tags == s.tags && s.blobs <= t.blobs
            && forall b | b in t.blobs :: b in s.blobs || (b.repo == dst && b.name in digests)
  {
    if digests != [] {
      MountsOnlyAdd(s, dst, digests[..|digests| - 1], rs);
      assert forall d | d in digests[..|digests| - 1] :: d in digests;
    }
  }

  lemma {:induction false} MountedArePresent(s: State, dst: string, digests: seq<string>, rs: seq<MountReply>)
    requires |digests| <= |rs| && TruthfulMounts(s, dst, digests, rs) && AllMounted(rs, |digests|)
    ensures forall d | d in digests :: Ref(dst, d) in MountMany(s, dst, digests, rs).blobs
  {
    if digests != [] {
      MountedArePresent(s, dst, digests[..|digests| - 1], rs);
      OutcomeInReplies(rs[|digests| - 1]);
      assert digests == digests[..|digests| - 1] + [digests[|digests| - 1]];
    }
  }

  // ---- the import -------------------------------------------------------------------------

  // A validated request.
  datatype Request = Request(host: string, repo: string, tag: string, digest: string, clusterId: string, suffix: string)

  const DEFAULT_SUFFIX := "--idle-90d"

  // `${a}/${b}`
  function Slash(a: string, b: string): string { a + ['/'] + b }

  // cluster/<cluster id>/_imported/<host>/<repo>
  function TargetRepo(v: Request): string {
    Slash("cluster", Slash(v.clusterId, Slash("_imported", Slash(v.host, v.repo))))
  }

  function TargetTag(v: Request): string { v.tag + v.suffix }

  function SourceRepo(v: Request): string { Slash("mirror", Slash(v.host, v.repo)) }

  // GET of the source manifest: the call fails, a status other than 200, or 200 with the kind its
  // content type announces and the body (its parse None when it is not JSON; no body when reading fails).
  datatype GetReply =
    | Unreachable | Status(code: nat) | BodyFault(index: bool) | Found(index: bool, parsed: Option<Manifest>)

  // PUT of the manifest: its status (None when the call throws) and whether the registry stored it.
  datatype PutReply = PutReply(status: Option<nat>, took: bool)

  // head is what the idempotency check learns: None for any status but 200, a missing header or a fault.
  datatype Replies = Replies(head: Option<string>, get: GetReply, mounts: seq<MountReply>, put: PutReply)

  datatype Response =
    | AlreadyPresent | Imported
    | RegistryUnreachable | SourceNotFound | SourceStatus(code: nat) | MultiArch | InvalidManifest | NoBlobs
    | MountFailed(outcomes: seq<Outcome>) | PutFailed(code: nat) | Crashed

  predicate Succeeded(r: Response) { r.AlreadyPresent? || r.Imported? }

  // The import gets as far as mounting.
  predicate Mounts(v: Request, r: Replies) {
    && r.head != Some(v.digest)
    && r.get.Found? && !r.get.index && r.get.parsed.Some? && Digests(r.get.parsed.value) != []
  }

  predicate EnoughReplies(r: Replies) {
    r.get.Found? && r.get.parsed.Some? ==> |Digests(r.get.parsed.value)| <= |r.mounts|
  }

  // The import gets as far as the PUT.
  predicate Puts(v: Request, r: Replies)
    requires EnoughReplies(r)
  {
    Mounts(v, r) && AllMounted(r.mounts, |Digests(r.get.parsed.value)|)
  }

  function AfterMounts(s: State, v: Request, r: Replies): State
    requires EnoughReplies(r) && Mounts(v, r)
  {
    var digests := Digests(r.get.parsed.value);
    MountMany(s, TargetRepo(v), digests[..Attempts(r.mounts, |digests|)], r.mounts)
  }

  // The body fetched by digest is the one with that digest, so a stored PUT stores v.digest.
  function Written(s: State, v: Request, put: PutReply): State {
    if put.took
    then s.(manifests := s.manifests + {Ref(TargetRepo(v), v.digest)},
            tags := s.tags[Ref(TargetRepo(v), TargetTag(v)) := v.digest])
    else s
  }

  function After(s: State, v: Request, r: Replies): State
    requires EnoughReplies(r)
  {
    if !Mounts(v, r) then s
    else if !Puts(v, r) then AfterMounts(s, v, r)
    else Written(AfterMounts(s, v, r), v, r.put)
  }

  function Answer(v: Request, r: Replies): Response
    requires EnoughReplies(r)
  {
    if r.head == Some(v.digest) then AlreadyPresent
    else
      match r.get
      case Unreachable => RegistryUnreachable
      case Status(code) => if code == 404 then SourceNotFound else SourceStatus(code)
      case BodyFault(index) => if index then MultiArch else Crashed
      case Found(index, parsed) =>
        if index then MultiArch
        else if parsed.None? then InvalidManifest
        else if Digests(parsed.value) == [] then NoBlobs
        else if !Puts(v, r) then
          var n := Attempts(r.mounts, |Digests(parsed.value)|);
          MountFailed(seq(n, i requires 0 <= i < n => OutcomeOf(r.mounts[i])))
        else if r.put.status.None? then Crashed
        else if r.put.status.value != 201 then PutFailed(r.put.status.value)
        else Imported
  }

  method WriteManifest(registry: Registry, v: Request, put: PutReply)
    modifies registry
    ensures registry.Contents() == Written(old(registry.Contents()), v, put)
  {
    if put.took {
      registry.manifests := registry.manifests + {Ref(TargetRepo(v), v.digest)};
      registry.tags := registry.tags[Ref(TargetRepo(v), TargetTag(v)) := v.digest];
    }
  }

  method ImportImage(registry: Registry, v: Request, r: Replies) returns (response: Response)
    requires EnoughReplies(r)
    modifies registry
    ensures registry.Contents() == After(old(registry.Contents()), v, r)
    ensures response == Answer(v, r)
  {
    if r.head == Some(v.digest) { return AlreadyPresent; }
    match r.get {
      case Unreachable => return RegistryUnreachable;
      case Status(code) => return if code == 404 then SourceNotFound else SourceStatus(code);
      case BodyFault(index) => return if index then MultiArch else Crashed;
      case Found(index, parsed) =>
        if index { return MultiArch; }
        if parsed.None? { return InvalidManifest; }
        var digests := CollectBlobDigests(parsed.value);
        if |digests| == 0 { return NoBlobs; }
        var outcomes, allMounted := MountAllBlobs(registry, parsed.value, TargetRepo(v), r.mounts);
        if !allMounted { return MountFailed(outcomes); }
        WriteManifest(registry, v, r.put);
        if r.put.status.None? { return Crashed; }
        if r.put.status.value != 201 { return PutFailed(r.put.status.value); }
        return Imported;
    }
  }

  // ---- what the replies mean --------------------------------------------------------------

  // What every digest stands for.
  type Bodies = map<string, Manifest>

  // The registry never lies: HEAD names the tag's digest, GET serves what the digest stands for,
  // mounts are as above, and 201 to the PUT says the manifest is stored.
  predicate Truthful(s: State, c: Bodies, v: Request, r: Replies)
    requires EnoughReplies(r)
  {
    && (r.head.Some? ==>
          var t := Ref(TargetRepo(v), TargetTag(v)); t in s.tags && s.tags[t] == r.head.value)
    && (r.get.Found? && r.get.parsed.Some? ==> v.digest in c && c[v.digest] == r.get.parsed.value)
    && (Mounts(v, r) ==>
          var digests := Digests(r.get.parsed.value);
          TruthfulMounts(s, TargetRepo(v), digests[..Attempts(r.mounts, |digests|)], r.mounts))
    && (r.put.status == Some(201) ==> r.put.took)
  }

  predicate HasAll(s: State, repo: string, m: Manifest) {
    forall d | d in Digests(m) :: Ref(repo, d) in s.blobs
  }

  // Every manifest of the repository has all it refers to, and every tag names a manifest.
  predicate Complete(s: State, c: Bodies, repo: string) {
    && (forall m | m in s.manifests && m.repo == repo :: m.name in c && HasAll(s, repo, c[m.name]))
    && (forall t | t in s.tags && t.repo == repo :: Ref(repo, s.tags[t]) in s.manifests)
  }

  // The manifest is PUT only when every distinct digest it refers to is in the destination.
  lemma PutsOnlyWhenComplete(s: State, c: Bodies, v: Request, r: Replies)
    requires EnoughReplies(r) && Truthful(s, c, v, r) && Puts(v, r)
    ensures v.digest in c && HasAll(AfterMounts(s, v, r), TargetRepo(v), c[v.digest])
  {
    var digests := Digests(r.get.parsed.value);
    AttemptsOfAll(r.mounts, |digests|);
    assert digests[..|digests|] == digests;
    MountedArePresent(s, TargetRepo(v), digests, r.mounts);
  }

  // Only the destination changes, and it stays complete, for every reply and even if the registry
  // itself checks nothing.
  lemma ImportKeepsComplete(s: State, c: Bodies, v: Request, r: Replies, repo: string)
    requires EnoughReplies(r) && Truthful(s, c, v, r) && Complete(s, c, repo)
    ensures Complete(After(s, v, r), c, repo)
    ensures repo != TargetRepo(v) ==> forall x: Ref | x.repo == repo ::
              && (x in After(s, v, r).blobs <==> x in s.blobs)
              && (x in After(s, v, r).manifests <==> x in s.manifests)
              && (x in After(s, v, r).tags <==> x in s.tags)
              && (x in s.tags ==> After(s, v, r).tags[x] == s.tags[x])
  {
    if Mounts(v, r) {
      var digests := Digests(r.get.parsed.value);
      MountsOnlyAdd(s, TargetRepo(v), digests[..Attempts(r.mounts, |digests|)], r.mounts);
      if Puts(v, r) { PutsOnlyWhenComplete(s, c, v, r); }
    }
  }

  lemma {:induction false} MountManyBlobs(s: State, dst: string, digests: seq<string>, rs: seq<MountReply>)
    requires |digests| <= |rs|
    ensures forall b :: b in MountMany(s, dst, digests, rs).blobs <==>
                          b in s.blobs || exists i :: 0 <= i < |digests| && rs[i].took && b == Ref(dst, digests[i])
  {
    if digests != [] {
      var n := |digests| - 1;
      MountManyBlobs(s, dst, digests[..n], rs);
      assert forall i | 0 <= i < n :: digests[..n][i] == digests[i];
    }
  }

  // The mounts that are sent: all before the first that does not say its blob is present, and that one.
  predicate Sent(rs: seq<MountReply>, i: int)
    requires 0 <= i < |rs|
  {
    forall j | 0 <= j < i :: SaysPresent(rs[j])
  }

  lemma AttemptsAreSent(rs: seq<MountReply>, n: nat, i: nat)
    requires i < n <= |rs|
    ensures i < Attempts(rs, n) <==> Sent(rs, i)
  {
    var k := Attempts(rs, n);
    forall j | 0 <= j < n
      ensures OutcomeOf(rs[j]).NotMounted? <==> !SaysPresent(rs[j])
    {
      OutcomeInReplies(rs[j]);
    }
    if k < n { assert !SaysPresent(rs[k - 1]); }
  }

  // In the replies: what an import of an importable source adds to the blobs is what the mounts sent
  // took, and the PUT follows only if every digest's reply says that it is present.
  lemma ImportInReplies(s: State, v: Request, r: Replies, m: Manifest)
    requires EnoughReplies(r) && r.head != Some(v.digest) && r.get == Found(false, Some(m)) && Digests(m) != []
    ensures forall b :: b in After(s, v, r).blobs <==>
                          b in s.blobs || exists i :: 0 <= i < |Digests(m)| && Sent(r.mounts, i) && r.mounts[i].took &&
                                                      b == Ref(TargetRepo(v), Digests(m)[i])
    ensures (exists i :: 0 <= i < |Digests(m)| && !SaysPresent(r.mounts[i])) ==>
              && Answer(v, r).MountFailed? && !Puts(v, r)
              && After(s, v, r).manifests == s.manifests && After(s, v, r).tags == s.tags
    ensures (forall i | 0 <= i < |Digests(m)| :: SaysPresent(r.mounts[i])) ==>
              && Puts(v, r)
              && Answer(v, r) == (match r.put.status
                                  case None => Crashed
                                  case Some(code) => if code == 201 then Imported else PutFailed(code))
              && (if r.put.took
                  then After(s, v, r).manifests == s.manifests + {Ref(TargetRepo(v), v.digest)} &&
                       After(s, v, r).tags == s.tags[Ref(TargetRepo(v), TargetTag(v)) := v.digest]
                  else After(s, v, r).manifests == s.manifests && After(s, v, r).tags == s.tags)
  {
    var digests := Digests(m);
    var k := Attempts(r.mounts, |digests|);
    AllMountedInReplies(r.mounts, |digests|);
    MountManyBlobs(s, TargetRepo(v), digests[..k], r.mounts);
    MountsOnlyAdd(s, TargetRepo(v), digests[..k], r.mounts);
    forall i: nat | i < |digests|
      ensures i < k <==> Sent(r.mounts, i)
    {
      AttemptsAreSent(r.mounts, |digests|, i);
    }
  }

  // A parsed manifest that is no index and refers to something.
  predicate Importable(get: GetReply) {
    get.Found? && !get.index && get.parsed.Some? && Digests(get.parsed.value) != []
  }

  // The answers before any mount, and that they change nothing.
  lemma EarlyAnswers(s: State, v: Request, r: Replies)
    requires EnoughReplies(r)
    ensures Answer(v, r) == AlreadyPresent <==> r.head == Some(v.digest)
    ensures r.head != Some(v.digest) ==>
              && (r.get == Unreachable ==> Answer(v, r) == RegistryUnreachable)
              && (r.get == Status(404) ==> Answer(v, r) == SourceNotFound)
              && (forall code | r.get == Status(code) && code != 404 :: Answer(v, r) == SourceStatus(code))
              && (r.get == BodyFault(true) ==> Answer(v, r) == MultiArch)
              && (r.get == BodyFault(false) ==> Answer(v, r) == Crashed)
              && (r.get.Found? && r.get.index ==> Answer(v, r) == MultiArch)
              && (r.get == Found(false, None) ==> Answer(v, r) == InvalidManifest)
              && (forall m | r.get == Found(false, Some(m)) && Digests(m) == [] :: Answer(v, r) == NoBlobs)
    ensures r.head == Some(v.digest) || !Importable(r.get) ==> After(s, v, r) == s
  {}

  // A failed import leaves manifests and tags as they were, except exactly when the PUT was reached,
  // took effect and changed something, and its reply was lost or was not 201.
  lemma FailureChangesNoManifest(s: State, v: Request, r: Replies)
    requires EnoughReplies(r) && !Succeeded(Answer(v, r))
    ensures var t := After(s, v, r);
            t.manifests == s.manifests && t.tags == s.tags <==>
            !(Puts(v, r) && r.put.took && r.put.status != Some(201) &&
              !(Ref(TargetRepo(v), v.digest) in s.manifests &&
                Ref(TargetRepo(v), TargetTag(v)) in s.tags && s.tags[Ref(TargetRepo(v), TargetTag(v))] == v.digest))
  {
    if Mounts(v, r) {
      var digests := Digests(r.get.parsed.value);
      MountsOnlyAdd(s, TargetRepo(v), digests[..Attempts(r.mounts, |digests|)], r.mounts);
    }
  }

  // Every mount answered 201 and done.
  function Mounting(n: nat): seq<MountReply> { seq(n, _ => MountReply(Some(201), true, None)) }

  lemma {:induction false} MountingIsTruthful(s: State, dst: string, digests: seq<string>, n: nat)
    requires |digests| <= n
    ensures TruthfulMounts(s, dst, digests, Mounting(n))
  {
    if digests != [] { MountingIsTruthful(s, dst, digests[..|digests| - 1], n); }
  }

  // The registry stores the manifest, but its reply to the PUT is lost: the import fails and the tag is
  // there.
  lemma LostReplyWrites(s: State, c: Bodies, v: Request) returns (r: Replies)
    requires v.digest in c && Digests(c[v.digest]) != []
    requires Ref(TargetRepo(v), TargetTag(v)) !in s.tags
    ensures EnoughReplies(r) && Truthful(s, c, v, r) && Answer(v, r) == Crashed
    ensures Ref(TargetRepo(v), v.digest) in After(s, v, r).manifests
    ensures Ref(TargetRepo(v), TargetTag(v)) in After(s, v, r).tags
  {
    var digests := Digests(c[v.digest]);
    r := Replies(None, Found(false, Some(c[v.digest])), Mounting(|digests|), PutReply(None, true));
    AttemptsOfAll(r.mounts, |digests|);
    assert digests[..|digests|] == digests;
    MountingIsTruthful(s, TargetRepo(v), digests, |digests|);
  }

  // What a success leaves behind.
  predicate Settled(s: State, c: Bodies, v: Request) {
    && v.digest in c && HasAll(s, TargetRepo(v), c[v.digest])
    && Ref(TargetRepo(v), v.digest) in s.manifests
    && Ref(TargetRepo(v), TargetTag(v)) in s.tags && s.tags[Ref(TargetRepo(v), TargetTag(v))] == v.digest
  }

  lemma SuccessSettles(s: State, c: Bodies, v: Request, r: Replies)
    requires EnoughReplies(r) && Truthful(s, c, v, r) && Complete(s, c, TargetRepo(v)) && Succeeded(Answer(v, r))
    ensures Settled(After(s, v, r), c, v)
  {
    if Answer(v, r).Imported? { PutsOnlyWhenComplete(s, c, v, r); }
  }

  lemma RemountChangesNothing(s: State, dst: string, m: Manifest, k: nat, rs: seq<MountReply>)
    requires HasAll(s, dst, m) && k <= |Digests(m)| <= |rs|
    ensures MountMany(s, dst, Digests(m)[..k], rs) == s
  {
    var tried := Digests(m)[..k];
    MountsOnlyAdd(s, dst, tried, rs);
    assert forall d | d in tried :: d in Digests(m);
    assert MountMany(s, dst, tried, rs).blobs == s.blobs;
  }

  lemma SettledStays(s: State, c: Bodies, v: Request, r: Replies)
    requires Settled(s, c, v) && EnoughReplies(r) && Truthful(s, c, v, r)
    ensures After(s, v, r) == s
    ensures r.head.Some? ==> Answer(v, r) == AlreadyPresent && !Mounts(v, r)
  {
    if Mounts(v, r) {
      var m := r.get.parsed.value;
      RemountChangesNothing(s, TargetRepo(v), m, Attempts(r.mounts, |Digests(m)|), r.mounts);
    }
  }

  // After one success a retry changes nothing, whatever the registry replies, and answers
  // already_present with no request that could change anything as soon as HEAD answers.
  lemma RetryChangesNothing(s: State, c: Bodies, v: Request, first: Replies, retry: Replies)
    requires EnoughReplies(first) && Truthful(s, c, v, first) && Complete(s, c, TargetRepo(v))
    requires Succeeded(Answer(v, first))
    requires EnoughReplies(retry) && Truthful(After(s, v, first), c, v, retry)
    ensures After(After(s, v, first), v, retry) == After(s, v, first)
    ensures retry.head.Some? ==> Answer(v, retry) == AlreadyPresent && !Mounts(v, retry)
  {
    SuccessSettles(s, c, v, first);
    SettledStays(After(s, v, first), c, v, retry);
  }

  // ---- the target -------------------------------------------------------------------------

  predicate TagChar(c: char) {
    'A' <= c <= 'Z' || 'a' <= c <= 'z' || '0' <= c <= '9' || c == '_' || c == '.' || c == '-'
  }

  // The characters the request's patterns allow, as far as the target's meaning depends on them.
  predicate WellFormed(v: Request) {
    && v.tag != "" && (forall c | c in v.tag :: TagChar(c))
    && ClusterId(v.clusterId)
    && v.host != "" && '/' !in v.host
    && (forall segment | segment in Split(v.repo, '/') :: segment != "")
  }

  lemma SnapshotPath(id: string, rest: string, path: string)
    requires ClusterId(id) && path == Slash("cluster", Slash(id, rest))
    requires forall segment | segment in Split(rest, '/') :: segment != ""
    ensures var i := InferredProvenance(path);
            && i.Some? && i.value.provenance.ClusterSnapshot? && i.value.clusterId == Some(id)
            && i.value.organization + "/" + i.value.name == path
  {
    assert '/' !in id;
    SplitCut("cluster", '/', id + ['/'] + rest);
    SplitCut(id, '/', rest);
    var parts := Split(path, '/');
    assert parts == ["cluster", id] + Split(rest, '/');
    NonEmptyAll(parts);
    ProvenanceKeepsPath(path);
  }

  lemma PrefixedSegments(first: string, rest: string)
    requires first != "" && '/' !in first && forall segment | segment in Split(rest, '/') :: segment != ""
    ensures forall segment | segment in Split(Slash(first, rest), '/') :: segment != ""
  {
    SplitCut(first, '/', rest);
  }

  lemma TargetIsSnapshot(v: Request)
    requires WellFormed(v)
    ensures var i := InferredProvenance(TargetRepo(v));
            && i.Some? && i.value.provenance.ClusterSnapshot? && i.value.clusterId == Some(v.clusterId)
            && i.value.organization + "/" + i.value.name == TargetRepo(v)
  {
    var source := Slash(v.host, v.repo);
    PrefixedSegments(v.host, v.repo);
    PrefixedSegments("_imported", source);
    SnapshotPath(v.clusterId, Slash("_imported", source), TargetRepo(v));
  }

  // The target in its segments, and its tag.
  lemma TargetInWords(v: Request)
    requires '/' !in v.clusterId && '/' !in v.host
    ensures Split(TargetRepo(v), '/') == ["cluster", v.clusterId, "_imported", v.host] + Split(v.repo, '/')
    ensures v.tag <= TargetTag(v) && TargetTag(v)[|v.tag|..] == v.suffix
  {
    SplitCut(v.host, '/', v.repo);
    SplitCut("_imported", '/', Slash(v.host, v.repo));
    SplitCut(v.clusterId, '/', Slash("_imported", Slash(v.host, v.repo)));
    SplitCut("cluster", '/', Slash(v.clusterId, Slash("_imported", Slash(v.host, v.repo))));
  }

  // The repository is one that the mirror stores what it pulls under.
  ghost predicate Mirrored(repo: string) {
    exists p :: Routing.ResolveRepo(Routing.SLUGS, p).Ok? && Routing.ResolveRepo(Routing.SLUGS, p).value.storage == repo
  }

  // An import reads below mirror/<host>, the mirror writes below mirror/<slug>: they meet exactly when
  // the request gives an upstream's slug for its host, with a repository of two segments unless it is k8s.
  lemma SourceIsMirrored(v: Request)
    requires '/' !in v.host
    ensures Mirrored(SourceRepo(v)) <==> v.host in Routing.SLUGS && ('/' in v.repo || v.host == "k8s")
  {
    if p :| Routing.ResolveRepo(Routing.SLUGS, p).Ok? &&
            Routing.ResolveRepo(Routing.SLUGS, p).value.storage == SourceRepo(v)
    {
      var o := Routing.ResolveRepo(Routing.SLUGS, p).value;
      Routing.StorageShape(p);
      Routing.StorageNames(p);
      assert o.storage[7..] == o.slug + ['/'] + o.repository && SourceRepo(v)[7..] == v.host + ['/'] + v.repo;
      CutUnique(o.slug, o.repository, v.host, v.repo, '/');
    }
    if v.host in Routing.SLUGS && ('/' in v.repo || v.host == "k8s") {
      Routing.StoredUnder(v.host, v.repo);
      assert "mirror/" + (v.host + ['/'] + v.repo) == SourceRepo(v);
    }
  }

  // So no image is imported from where the mirror stores it under an upstream's real host name.
  lemma HostIsNotMirrored(v: Request)
    requires '/' !in v.host && '.' in v.host
    ensures !Mirrored(SourceRepo(v))
    ensures forall host | host in Routing.HOSTS :: '.' in host && '/' !in host
  {
    SourceIsMirrored(v);
    assert "docker.io"[6] == '.' && "ghcr.io"[4] == '.' && "gcr.io"[3] == '.' && "quay.io"[4] == '.';
    assert "registry.k8s.io"[8] == '.';
  }

  // With the default suffix the webhook gives the imported tag a 90-day idle row, in the cluster's
  // own snapshots.
  lemma ImportedTagIsIdle(v: Request, now: int)
    requires WellFormed(v) && v.suffix == "--idle-90d"
    ensures DEFAULT_SUFFIX == v.suffix && Capture(TargetTag(v)) == Some(Parts(v.tag, Idle, "90d"))
    ensures var i := InferredProvenance(TargetRepo(v));
            && i.Some? && i.value.provenance.ClusterSnapshot? && i.value.clusterId == Some(v.clusterId)
            && i.value.organization + "/" + i.value.name == TargetRepo(v)
            && var row := HookEvents.Upserted(None, TargetTag(v), i.value, Some(v.digest), now);
               row.mode.Idle? && row.seconds == Some(90 * 24 * 60 * 60) && row.expiresAt.None?
  {
    TargetIsSnapshot(v);
    assert TargetTag(v) == Suffixed(v.tag, Idle, "90d");
    SuffixRoundTrip(v.tag, Idle, "90d", now);
    SuffixesAreWords("90d");
    CaptureExactly(TargetTag(v), v.tag, Idle, "90d");
  }
}
