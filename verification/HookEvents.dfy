// The registry's webhook (hooks/src/controllers/hookEvents.ts): how push, delete and pull events
// change the image table, and what that keeps true between the table and the registry.
// Times are in milliseconds.
module HookEvents {
  import opened Options
  import opened Strings
  import opened TagRetention
  import opened Selection
  import opened Reaper

  datatype Action = Push | Delete | Pull | Other

  datatype Event = Event(
    action: Action, repository: Option<string>, tag: Option<string>, digest: Option<string>, mediaType: Option<string>)

  // An event with the moment it is handled and whether its database statements succeed.
  datatype Delivery = Delivery(event: Event, now: int, ok: bool)

  const DEBOUNCE := 3600 * 1000

  // What JavaScript calls truthy: present and not empty.
  predicate Given(s: Option<string>) { s.Some? && s.value != "" }

  predicate Contains(s: string, m: string) { LastIndex(s, m) >= 0 }

  predicate IsManifestPullMediaType(mediaType: Option<string>) {
    Given(mediaType) && (Contains(mediaType.value, "manifest") || Contains(mediaType.value, "image.index"))
  }

  function RepoOf(repository: Option<string>): Option<Repo> {
    if !Given(repository) then None
    else
      match InferredProvenance(repository.value)
      case None => None
      case Some(i) => Some(Repo(i.organization, i.name))
  }

  // The row an event's INSERT ... ON CONFLICT leaves behind.
  function Upserted(before: Option<Row>, tag: string, i: Inferred, digest: Option<string>, now: int): Row {
    var r := ParseTagRetention(tag, now);
    match before
    case None => Row(now, now, None, r.mode, r.seconds, r.expiresAt, digest, i.provenance, i.upstreamRef)
    case Some(b) =>
      b.(lastPushedAt := now, mode := r.mode, seconds := r.seconds, expiresAt := r.expiresAt,
         digest := if digest.Some? then digest else b.digest, provenance := i.provenance,
         upstreamRef := if i.upstreamRef.Some? then i.upstreamRef else b.upstreamRef)
  }

  function Upsert(db: Images, repository: string, tag: string, digest: Option<string>, now: int): Images
    requires InferredProvenance(repository).Some?
  {
    var i := InferredProvenance(repository).value;
    var k := Key(Repo(i.organization, i.name), tag);
    db[k := Upserted(if k in db then Some(db[k]) else None, tag, i, digest, now)]
  }

  // DELETE_MANIFEST_SQL
  function Naming(db: Images, repo: Repo, digest: string): set<Key> {
    set k | k in db && k.repo == repo && db[k].digest == Some(digest)
  }

  // UPDATE_LAST_PULLED_AT_SQL
  function Touched(db: Images, k: Key, now: int): Images {
    if k in db && (db[k].lastPulledAt.None? || db[k].lastPulledAt.value < now - DEBOUNCE)
    then db[k := db[k].(lastPulledAt := Some(now))] else db
  }

  // The event reaches the database.
  predicate Effective(e: Event) {
    RepoOf(e.repository).Some? &&
    match e.action
    case Push => Given(e.tag)
    case Delete => Given(e.digest)
    case Pull => Given(e.tag) && IsManifestPullMediaType(e.mediaType)
    case Other => false
  }

  function Apply(db: Images, d: Delivery): Images {
    var e := d.event;
    if !Effective(e) || !d.ok then db
    else
      match e.action
      case Push => Upsert(db, e.repository.value, e.tag.value, e.digest, d.now)
      case Delete => db - Naming(db, RepoOf(e.repository).value, e.digest.value)
      case Pull => Touched(db, Key(RepoOf(e.repository).value, e.tag.value), d.now)
      case Other => db
  }

  function ApplyAll(db: Images, ds: seq<Delivery>): Images {
    if ds == [] then db else Apply(ApplyAll(db, ds[..|ds| - 1]), ds[|ds| - 1])
  }

  // Set.add on an insertion-ordered set.
  function AddOnce(repos: seq<Repo>, repo: Repo): seq<Repo> {
    if repo in repos then repos else repos + [repo]
  }

  // The repositories whose push reached the database, each once, in first-seen order.
  function Scheduled(ds: seq<Delivery>): seq<Repo> {
    if ds == [] then []
    else
      var before, d := Scheduled(ds[..|ds| - 1]), ds[|ds| - 1];
      if Effective(d.event) && d.event.action.Push? && d.ok
      then AddOnce(before, RepoOf(d.event.repository).value) else before
  }

  // One reap for each scheduled repository, in that order.
  function ReapEach(w: World, reaps: seq<seq<Visit>>): World {
    if reaps == [] then w else ReapAll(ReapEach(w, reaps[..|reaps| - 1]), reaps[|reaps| - 1])
  }

  class Handler {
    const store: Store

    constructor (store: Store)
      ensures this.store == store
    {
      this.store := store;
    }

    method HandlePush(d: Delivery) returns (synced: bool)
      requires d.event.action.Push?
      modifies store
      ensures store.images == Apply(old(store.images), d) && store.manifests == old(store.manifests)
      ensures synced <==> Effective(d.event) && d.ok
    {
      var e := d.event;
      if !Given(e.repository) || !Given(e.tag) { return false; }
      var parsed := InferredProvenance(e.repository.value);
      if parsed.None? || !d.ok { return false; }
      var k := Key(Repo(parsed.value.organization, parsed.value.name), e.tag.value);
      var before := if k in store.images then Some(store.images[k]) else None;
      store.images := store.images[k := Upserted(before, e.tag.value, parsed.value, e.digest, d.now)];
      return true;
    }

    method HandleDelete(d: Delivery)
      requires d.event.action.Delete?
      modifies store
      ensures store.images == Apply(old(store.images), d) && store.manifests == old(store.manifests)
    {
      var e := d.event;
      if !Given(e.repository) || !Given(e.digest) { return; }
      var parsed := InferredProvenance(e.repository.value);
      if parsed.Some? && d.ok {
        var repo := Repo(parsed.value.organization, parsed.value.name);
        store.images := store.images - Naming(store.images, repo, e.digest.value);
      }
    }

    method HandlePull(d: Delivery)
      requires d.event.action.Pull?
      modifies store
      ensures store.images == Apply(old(store.images), d) && store.manifests == old(store.manifests)
    {
      var e := d.event;
      if !Given(e.repository) || !Given(e.tag) || !IsManifestPullMediaType(e.mediaType) { return; }
      var parsed := InferredProvenance(e.repository.value);
      if parsed.Some? && d.ok {
        var repo := Repo(parsed.value.organization, parsed.value.name);
        store.images := Touched(store.images, Key(repo, e.tag.value), d.now);
      }
    }

    // processRegistryEvents: the events in order, then a reap for each repository pushed to.
    method ProcessRegistryEvents(ds: seq<Delivery>, reaps: seq<seq<Visit>>) returns (scheduled: seq<Repo>)
      requires |reaps| == |Scheduled(ds)|
      modifies store
      ensures scheduled == Scheduled(ds)
      ensures store.Contents() ==
              ReapEach(World(ApplyAll(old(store.images), ds), old(store.manifests)), reaps)
    {
      scheduled := [];
      for n := 0 to |ds|
        invariant store.manifests == old(store.manifests)
        invariant store.images == ApplyAll(old(store.images), ds[..n])
        invariant scheduled == Scheduled(ds[..n])
      {
        var d := ds[n];
        assert ds[..n + 1][..n] == ds[..n] && ds[..n + 1][n] == d;
        match d.event.action {
          case Push =>
            var synced := HandlePush(d);
            if synced {
              var repo := RepoOf(d.event.repository).value;
              if repo !in scheduled { scheduled := scheduled + [repo]; }
            }
          case Delete => HandleDelete(d);
          case Pull => HandlePull(d);
          case Other =>
        }
      }
      assert ds[..|ds|] == ds;
      ghost var w := store.Contents();
      for n := 0 to |scheduled|
        invariant store.Contents() == ReapEach(w, reaps[..n])
      {
        assert reaps[..n + 1][..n] == reaps[..n] && reaps[..n + 1][n] == reaps[n];
        var _ := store.Reap(reaps[n]);
      }
      assert reaps[..|scheduled|] == reaps;
    }
  }

  lemma {:induction false} ScheduledExactly(ds: seq<Delivery>)
    ensures forall i, j | 0 <= i < j < |Scheduled(ds)| :: Scheduled(ds)[i] != Scheduled(ds)[j]
    ensures forall r :: r in Scheduled(ds) <==>
              exists d :: d in ds && Effective(d.event) && d.event.action.Push? && d.ok &&
                          RepoOf(d.event.repository) == Some(r)
  {
    if ds != [] {
      var init, last := ds[..|ds| - 1], ds[|ds| - 1];
      ScheduledExactly(init);
      assert ds == init + [last];
    }
  }

  // Scheduling is in first-seen order: what an earlier part of the batch schedules comes first.
  lemma {:induction false} ScheduledFirstSeen(ds: seq<Delivery>, n: nat)
    requires n <= |ds|
    ensures Scheduled(ds[..n]) <= Scheduled(ds)
  {
    if n == |ds| {
      assert ds[..n] == ds;
    } else {
      var init := ds[..|ds| - 1];
      assert init[..n] == ds[..n];
      ScheduledFirstSeen(init, n);
    }
  }

  // Reap n is the loop's run over the rows that the query, scoped to its repository, selected then.
  ghost predicate ScopedReap(w: World, reaps: seq<seq<Visit>>, n: nat, repo: Repo, p: Policy)
    requires n < |reaps|
  {
    var before := ReapEach(w, reaps[..n]);
    Selected(p, before.images, {repo}, reaps[n]) && Truthful(before, reaps[n])
  }

  // Rows of t are rows of w, and w's rows and manifests of repositories outside the list are in t.
  ghost predicate Leaves(w: World, t: World, repos: seq<Repo>) {
    && (forall k | k in t.images :: k in w.images && t.images[k] == w.images[k])
    && (forall k | k in w.images && k.repo !in repos :: k in t.images)
    && (forall m | m in w.manifests && m.repo !in repos :: m in t.manifests)
  }

  lemma OneReapLeaves(w: World, reaps: seq<seq<Visit>>, n: nat, repo: Repo, p: Policy)
    requires n < |reaps| && ScopedReap(w, reaps, n, repo, p)
    ensures Leaves(ReapEach(w, reaps[..n]), ReapEach(w, reaps[..n + 1]), [repo])
  {
    var before := ReapEach(w, reaps[..n]);
    assert reaps[..n + 1][..n] == reaps[..n];
    ScopedReapStaysInScope(p, before, {repo}, reaps[n]);
    ReapOutcome(before, reaps[n]);
  }

  lemma LeavesBoth(w: World, t: World, u: World, repos: seq<Repo>, repo: Repo)
    requires Leaves(w, t, repos) && Leaves(t, u, [repo])
    ensures Leaves(w, u, repos + [repo])
  {}

  lemma {:induction false} ReapsLeave(w: World, reaps: seq<seq<Visit>>, repos: seq<Repo>, n: nat)
    requires n <= |reaps| == |repos|
    requires forall i: nat | i < n :: Leaves(ReapEach(w, reaps[..i]), ReapEach(w, reaps[..i + 1]), [repos[i]])
    ensures Leaves(w, ReapEach(w, reaps[..n]), repos[..n])
  {
    if n > 0 {
      ReapsLeave(w, reaps, repos, n - 1);
      assert n - 1 + 1 == n;
      LeavesBoth(w, ReapEach(w, reaps[..n - 1]), ReapEach(w, reaps[..n]), repos[..n - 1], repos[n - 1]);
      assert repos[..n] == repos[..n - 1] + [repos[n - 1]];
    }
  }

  // The reaps after a batch of events leave every row and manifest of a repository not pushed to as the
  // events left them.
  lemma OtherRepositoriesStay(w: World, repos: seq<Repo>, ps: seq<Policy>, reaps: seq<seq<Visit>>)
    requires |repos| == |ps| == |reaps|
    requires forall n: nat | n < |reaps| :: ScopedReap(w, reaps, n, repos[n], ps[n])
    ensures Leaves(w, ReapEach(w, reaps), repos)
  {
    forall n: nat | n < |reaps|
      ensures Leaves(ReapEach(w, reaps[..n]), ReapEach(w, reaps[..n + 1]), [repos[n]])
    {
      OneReapLeaves(w, reaps, n, repos[n], ps[n]);
    }
    ReapsLeave(w, reaps, repos, |reaps|);
    assert reaps[..|reaps|] == reaps && repos[..|repos|] == repos;
  }

  // So a repository that no push of the batch reached in the database keeps the rows and manifests that
  // the batch's events left it.
  lemma UnpushedStay(db: Images, manifests: set<Manifest>, ds: seq<Delivery>,
                     ps: seq<Policy>, reaps: seq<seq<Visit>>, repo: Repo)
    requires |Scheduled(ds)| == |ps| == |reaps|
    requires forall n: nat | n < |reaps| ::
               ScopedReap(World(ApplyAll(db, ds), manifests), reaps, n, Scheduled(ds)[n], ps[n])
    requires forall d | d in ds && d.event.action.Push? && d.ok && Effective(d.event) ::
               RepoOf(d.event.repository) != Some(repo)
    ensures var t := ReapEach(World(ApplyAll(db, ds), manifests), reaps);
            && (forall k: Key | k.repo == repo :: k in t.images <==> k in ApplyAll(db, ds))
            && (forall k | k in t.images :: k in ApplyAll(db, ds) && t.images[k] == ApplyAll(db, ds)[k])
            && (forall m | m in manifests && m.repo == repo :: m in t.manifests)
  {
    ScheduledExactly(ds);
    OtherRepositoriesStay(World(ApplyAll(db, ds), manifests), Scheduled(ds), ps, reaps);
  }

  // ---- which digest a row names -----------------------------------------------------------

  // A push of the tag, and a removal of the manifest, that reached the database.
  predicate PushOf(d: Delivery, k: Key) {
    d.ok && d.event.action.Push? && Effective(d.event) && Key(RepoOf(d.event.repository).value, d.event.tag.value) == k
  }

  predicate RemovalOf(d: Delivery, repo: Repo, digest: string) {
    && d.ok && d.event.action.Delete? && Effective(d.event)
    && RepoOf(d.event.repository) == Some(repo) && d.event.digest == Some(digest)
  }

  // The event neither pushes another digest to the tag nor removes this one.
  predicate Spares(d: Delivery, k: Key, digest: string) {
    && (PushOf(d, k) && d.event.digest.Some? ==> d.event.digest.value == digest)
    && !RemovalOf(d, k.repo, digest)
  }

  // Push i gave the tag the digest, and nothing after it pushed another digest or removed this one.
  ghost predicate Stands(ds: seq<Delivery>, i: nat, k: Key, digest: string) {
    && i < |ds| && PushOf(ds[i], k) && ds[i].event.digest == Some(digest)
    && forall j | i < j < |ds| :: Spares(ds[j], k, digest)
  }

  predicate Names(db: Images, k: Key, digest: string) { k in db && db[k].digest == Some(digest) }

  lemma NamesAfter(db: Images, d: Delivery, k: Key, digest: string)
    ensures Names(Apply(db, d), k, digest) <==>
            if PushOf(d, k) && d.event.digest.Some? then d.event.digest.value == digest
            else Names(db, k, digest) && !RemovalOf(d, k.repo, digest)
  {}

  lemma StandsAfter(ds: seq<Delivery>, d: Delivery, i: nat, k: Key, digest: string)
    requires i < |ds|
    ensures Stands(ds + [d], i, k, digest) <==> Stands(ds, i, k, digest) && Spares(d, k, digest)
  {
    var all := ds + [d];
    assert forall j | 0 <= j < |ds| :: all[j] == ds[j];
    assert all[|ds|] == d;
  }

  // From an empty table, a row names a digest exactly when the last push of its tag that carried one
  // carried that digest and no later event removed it.
  lemma {:induction false} RowNamesLastPush(ds: seq<Delivery>, k: Key, digest: string)
    ensures Names(ApplyAll(map[], ds), k, digest) <==> exists i :: Stands(ds, i, k, digest)
  {
    if ds != [] {
      var init, d := ds[..|ds| - 1], ds[|ds| - 1];
      assert ds == init + [d];
      RowNamesLastPush(init, k, digest);
      NamesAfter(ApplyAll(map[], init), d, k, digest);
      forall i: nat | i < |init|
        ensures Stands(ds, i, k, digest) <==> Stands(init, i, k, digest) && Spares(d, k, digest)
      {
        StandsAfter(init, d, i, k, digest);
      }
      if PushOf(d, k) && d.event.digest == Some(digest) {
        assert Stands(ds, |init|, k, digest);
      } else if i :| Stands(init, i, k, digest) && Names(ApplyAll(map[], ds), k, digest) {
        assert Stands(ds, i, k, digest);
      }
    }
  }

  // ---- the events in the columns they change -----------------------------------------------

  // The rows of all other keys stay.
  predicate OnlyAt(db: Images, after: Images, k: Key) { after - {k} == db - {k} }

  // A tagged push to a repository of a namespace, with or without a digest: the row is created or kept,
  // pushed now, with the retention of its tag and the provenance of its repository.  An absent digest or
  // reference keeps the old one; creation time and last pull stay.
  lemma PushInColumns(db: Images, e: Event, now: int, i: Inferred)
    requires e.action == Push && e.repository.Some? && e.repository.value != "" && e.tag.Some? && e.tag.value != ""
    requires InferredProvenance(e.repository.value) == Some(i)
    ensures var k := Key(Repo(i.organization, i.name), e.tag.value);
            var after := Apply(db, Delivery(e, now, true));
            var r := ParseTagRetention(e.tag.value, now);
            && k in after && OnlyAt(db, after, k)
            && after[k].lastPushedAt == now && after[k].provenance == i.provenance
            && after[k].mode == r.mode && after[k].seconds == r.seconds && after[k].expiresAt == r.expiresAt
            && (k !in db ==> after[k].createdAt == now && after[k].lastPulledAt == None
                             && after[k].digest == e.digest && after[k].upstreamRef == i.upstreamRef)
            && (k in db ==>
                  && after[k].createdAt == db[k].createdAt && after[k].lastPulledAt == db[k].lastPulledAt
                  && after[k].digest == (if e.digest.Some? then e.digest else db[k].digest)
                  && after[k].upstreamRef == (if i.upstreamRef.Some? then i.upstreamRef else db[k].upstreamRef))
  {}

  // A delete with a digest removes the repository's rows that name it, and only those.
  lemma DeleteInColumns(db: Images, e: Event, now: int, i: Inferred)
    requires e.action == Delete && e.repository.Some? && e.repository.value != ""
    requires e.digest.Some? && e.digest.value != ""
    requires InferredProvenance(e.repository.value) == Some(i)
    ensures var after := Apply(db, Delivery(e, now, true));
            && (forall k :: k in after <==>
                  k in db && !(k.repo == Repo(i.organization, i.name) && db[k].digest == e.digest))
            && (forall k | k in after :: after[k] == db[k])
  {}

  // A tagged pull of a manifest sets the last pull if there was none or it is more than an hour ago.
  lemma PullInColumns(db: Images, e: Event, now: int, i: Inferred)
    requires e.action == Pull && e.repository.Some? && e.repository.value != "" && e.tag.Some? && e.tag.value != ""
    requires InferredProvenance(e.repository.value) == Some(i) && IsManifestPullMediaType(e.mediaType)
    ensures var k := Key(Repo(i.organization, i.name), e.tag.value);
            var after := Apply(db, Delivery(e, now, true));
            && OnlyAt(db, after, k) && (k in after <==> k in db)
            && (k in db && (db[k].lastPulledAt == None || now - db[k].lastPulledAt.value > 60 * 60 * 1000) ==>
                  after[k] == db[k].(lastPulledAt := Some(now)))
            && (k in db && db[k].lastPulledAt.Some? && now - db[k].lastPulledAt.value <= 60 * 60 * 1000 ==>
                  after[k] == db[k])
  {
    assert Touched(db, Key(Repo(i.organization, i.name), e.tag.value), now) == Apply(db, Delivery(e, now, true));
  }

  // Everything else is ignored: other actions, a repository outside any namespace or missing, a push or
  // pull without a tag, a delete without a digest, a pull of something else, and a failed write.
  lemma IgnoredEvents(db: Images, d: Delivery)
    ensures var e := d.event;
            || !d.ok || e.action == Other || e.repository == None || e.repository == Some("")
            || (e.repository.Some? && InferredProvenance(e.repository.value) == None)
            || (e.action != Delete && (e.tag == None || e.tag == Some("")))
            || (e.action == Delete && (e.digest == None || e.digest == Some("")))
            || (e.action == Pull && !IsManifestPullMediaType(e.mediaType))
            ==> Apply(db, d) == db
  {}

  // A media type counts as a manifest's exactly when it contains one of the two words.
  lemma ManifestMediaTypes(mediaType: Option<string>)
    ensures IsManifestPullMediaType(mediaType) <==>
            mediaType.Some? &&
            exists i :: Occurs(mediaType.value, "manifest", i) || Occurs(mediaType.value, "image.index", i)
  {
    if mediaType.Some? {
      var s := mediaType.value;
      assert LastIndex(s, "manifest") >= 0 ==> Occurs(s, "manifest", LastIndex(s, "manifest"));
      assert LastIndex(s, "image.index") >= 0 ==> Occurs(s, "image.index", LastIndex(s, "image.index"));
    }
  }

  // ---- what every row is ------------------------------------------------------------------

  // A row's retention columns are those of its tag at its last push, and its provenance that of its
  // repository.
  predicate RowOf(k: Key, row: Row) {
    var r := ParseTagRetention(k.tag, row.lastPushedAt);
    && row.mode == r.mode && row.seconds == r.seconds && row.expiresAt == r.expiresAt
    && (row.provenance.Mirror? <==> k.repo.organization == "mirror")
    && row.upstreamRef == (if row.provenance.Mirror? then Some(k.repo.name) else None)
  }

  ghost predicate RowsOk(db: Images) { forall k | k in db :: RowOf(k, db[k]) }

  lemma RowIsShaped(k: Key, row: Row)
    requires RowOf(k, row)
    ensures RetentionShape(row)
  {}

  lemma ApplyKeepsRows(db: Images, d: Delivery)
    requires RowsOk(db)
    ensures RowsOk(Apply(db, d))
  {
    var e := d.event;
    if Effective(e) && d.ok && e.action.Push? {
      var i := InferredProvenance(e.repository.value).value;
      var k := Key(Repo(i.organization, i.name), e.tag.value);
      assert RowOf(k, Apply(db, d)[k]);
    }
  }

  // ---- table and registry, over all interleavings -----------------------------------------

  // The registry's manifests, its FIFO queue of notifications, and the image table.
  datatype System = System(images: Images, manifests: set<Manifest>, queue: seq<Event>)

  // Push and Remove change the registry, which notifies; Notify is any other notification, such as a
  // pull, a blob push (which has no tag) or a push without a digest.  Deliver handles the oldest
  // notification, whose database write may fail and is then lost; Redeliver handles it and keeps it for
  // another attempt; DropRow is the reaper deleting a row.
  datatype Step = PushManifest(e: Event) | RemoveManifest(e: Event) | Notify(e: Event)
                | Deliver(now: int, ok: bool) | Redeliver(now: int, ok: bool) | DropRow(k: Key)

  // A notification that the manifest (repo, digest) appeared or went.
  predicate About(e: Event, action: Action, m: Manifest) {
    e.action == action && RepoOf(e.repository) == Some(m.repo) && e.digest == Some(m.digest) && m.digest != ""
  }

  function Concerned(e: Event): set<Manifest> {
    if RepoOf(e.repository).Some? && Given(e.digest) then {Manifest(RepoOf(e.repository).value, e.digest.value)} else {}
  }

  predicate Enabled(s: System, step: Step) {
    match step
    case PushManifest(e) => e.action.Push? && Given(e.digest)
    case RemoveManifest(e) => e.action.Delete? && Given(e.digest)
    case Notify(e) => e.action.Push? ==> !Given(e.digest) || !Given(e.tag)
    case Deliver(_, _) => s.queue != []
    case Redeliver(_, _) => s.queue != []
    case DropRow(_) => true
  }

  function Next(s: System, step: Step): System
    requires Enabled(s, step)
  {
    match step
    case PushManifest(e) => s.(manifests := s.manifests + Concerned(e), queue := s.queue + [e])
    case RemoveManifest(e) => s.(manifests := s.manifests - Concerned(e), queue := s.queue + [e])
    case Notify(e) => s.(queue := s.queue + [e])
    case Deliver(now, ok) => s.(images := Apply(s.images, Delivery(s.queue[0], now, ok)), queue := s.queue[1..])
    case Redeliver(now, ok) => s.(images := Apply(s.images, Delivery(s.queue[0], now, ok)))
    case DropRow(k) => s.(images := s.images - {k})
  }

  predicate Runs(s: System, steps: seq<Step>)
    decreases |steps|
  {
    steps != [] ==> Enabled(s, steps[0]) && Runs(Next(s, steps[0]), steps[1..])
  }

  function Run(s: System, steps: seq<Step>): System
    requires Runs(s, steps)
    decreases |steps|
  {
    if steps == [] then s else Run(Next(s, steps[0]), steps[1..])
  }

  // The manifest is stored, or its removal has yet to be delivered.
  ghost predicate Accounted(manifests: set<Manifest>, queue: seq<Event>, m: Manifest) {
    m in manifests || exists e :: e in queue && About(e, Delete, m)
  }

  ghost predicate RowsAccounted(s: System) {
    forall k | k in s.images && Given(s.images[k].digest) ::
      Accounted(s.manifests, s.queue, Manifest(k.repo, s.images[k].digest.value))
  }

  // A notification that will give a tag the manifest's digest.
  predicate Tags(e: Event, m: Manifest) { About(e, Push, m) && Given(e.tag) }

  // Every queued tag push is of a manifest that is stored or whose removal is queued behind it.
  ghost predicate QueueAccounted(manifests: set<Manifest>, queue: seq<Event>)
    decreases |queue|
  {
    queue != [] ==>
      && (forall m :: Tags(queue[0], m) ==> Accounted(manifests, queue[1..], m))
      && QueueAccounted(manifests, queue[1..])
  }

  ghost predicate Consistent(s: System) {
    RowsAccounted(s) && QueueAccounted(s.manifests, s.queue)
  }

  // A registry step that keeps every accounted manifest accounted: it removes one only with a notice.
  lemma {:induction false} EnqueueKeepsQueue(manifests: set<Manifest>, after: set<Manifest>,
                                             queue: seq<Event>, e: Event)
    requires QueueAccounted(manifests, queue)
    requires forall m :: Tags(e, m) ==> m in after
    requires forall m | m in manifests :: m in after || About(e, Delete, m)
    ensures QueueAccounted(after, queue + [e])
    decreases |queue|
  {
    if queue == [] {
      assert [e][1..] == [];
    } else {
      EnqueueKeepsQueue(manifests, after, queue[1..], e);
      var rest := queue[1..] + [e];
      assert (queue + [e])[1..] == rest;
      assert e in rest && forall x | x in queue[1..] :: x in rest;
    }
  }

  lemma EnqueueKeepsConsistent(s: System, step: Step)
    requires Consistent(s) && Enabled(s, step)
    requires step.PushManifest? || step.RemoveManifest? || step.Notify?
    ensures Consistent(Next(s, step))
  {
    var t := Next(s, step);
    EnqueueKeepsQueue(s.manifests, t.manifests, s.queue, step.e);
    assert step.e in t.queue && forall x | x in s.queue :: x in t.queue;
  }

  // Handling the oldest notification: a pushed row is accounted for by the rest of the queue, and a
  // removal takes every row that only it accounts for.
  lemma HandleKeepsRows(s: System, now: int)
    requires Consistent(s) && s.queue != []
    ensures Consistent(Next(s, Deliver(now, true)))
    ensures Consistent(Next(s, Redeliver(now, true)))
  {
    var e, rest := s.queue[0], s.queue[1..];
    var db := Apply(s.images, Delivery(e, now, true));
    forall k | k in db && Given(db[k].digest)
      ensures Accounted(s.manifests, rest, Manifest(k.repo, db[k].digest.value))
    {
      var m := Manifest(k.repo, db[k].digest.value);
      if !Tags(e, m) {
        assert k in s.images && s.images[k].digest == db[k].digest;
      }
    }
    assert forall x | x in rest :: x in s.queue;
  }

  // Every row that the oldest notification is to remove is also accounted for without it: it names a
  // manifest that is stored again, or that a later notification removes.
  ghost predicate Spared(s: System)
    requires s.queue != []
  {
    forall k | k in s.images && Given(s.images[k].digest) &&
               About(s.queue[0], Delete, Manifest(k.repo, s.images[k].digest.value)) ::
      Accounted(s.manifests, s.queue[1..], Manifest(k.repo, s.images[k].digest.value))
  }

  // A failed write loses its notification.  That keeps table and registry consistent if and only if the
  // notification is spared; the loss of anything but a delete always is.
  lemma LostWrite(s: System, now: int)
    requires Consistent(s) && s.queue != []
    ensures Consistent(Next(s, Deliver(now, false))) <==> Spared(s)
    ensures !s.queue[0].action.Delete? ==> Spared(s)
    ensures Consistent(Next(s, Redeliver(now, false)))
  {
    var rest := s.queue[1..];
    assert s.queue == [s.queue[0]] + rest;
    if Spared(s) {
      forall k | k in s.images && Given(s.images[k].digest)
        ensures Accounted(s.manifests, rest, Manifest(k.repo, s.images[k].digest.value))
      {
        assert Accounted(s.manifests, s.queue, Manifest(k.repo, s.images[k].digest.value));
      }
    }
  }

  // No write is lost that was still needed.
  ghost predicate LosesNothing(s: System, steps: seq<Step>)
    requires Runs(s, steps)
    decreases |steps|
  {
    steps != [] ==>
      && (steps[0].Deliver? && !steps[0].ok ==> Spared(s))
      && LosesNothing(Next(s, steps[0]), steps[1..])
  }

  // Consistent now and after every step.
  ghost predicate AlwaysConsistent(s: System, steps: seq<Step>)
    requires Runs(s, steps)
    decreases |steps|
  {
    Consistent(s) && (steps != [] ==> AlwaysConsistent(Next(s, steps[0]), steps[1..]))
  }

  lemma NextKeepsConsistent(s: System, step: Step)
    requires Consistent(s) && Enabled(s, step)
    ensures Consistent(Next(s, step)) <==> (step.Deliver? && !step.ok ==> Spared(s))
  {
    match step
    case PushManifest(_) => EnqueueKeepsConsistent(s, step);
    case RemoveManifest(_) => EnqueueKeepsConsistent(s, step);
    case Notify(_) => EnqueueKeepsConsistent(s, step);
    case Deliver(now, ok) => HandleKeepsRows(s, now); LostWrite(s, now);
    case Redeliver(now, ok) => HandleKeepsRows(s, now); LostWrite(s, now);
    case DropRow(_) =>
  }

  // Over every interleaving of pushes, deletes, in-order deliveries, failed writes and reaps: each row's
  // digest is stored or its removal is still queued at every moment, if and only if no delete is lost
  // while a row names a digest that is neither stored again nor to be removed again.
  lemma {:induction false} RunKeepsConsistent(s: System, steps: seq<Step>)
    requires Consistent(s) && Runs(s, steps)
    ensures AlwaysConsistent(s, steps) <==> LosesNothing(s, steps)
    ensures LosesNothing(s, steps) ==> Consistent(Run(s, steps))
    decreases |steps|
  {
    if steps != [] {
      NextKeepsConsistent(s, steps[0]);
      if Consistent(Next(s, steps[0])) { RunKeepsConsistent(Next(s, steps[0]), steps[1..]); }
    }
  }

  // Every delete reaches the database; pushes and pulls may fail.
  ghost predicate DeletesWritten(s: System, steps: seq<Step>)
    requires Runs(s, steps)
    decreases |steps|
  {
    steps != [] ==>
      && (steps[0].Deliver? && !steps[0].ok ==> !s.queue[0].action.Delete?)
      && DeletesWritten(Next(s, steps[0]), steps[1..])
  }

  lemma {:induction false} DeletesWrittenLosesNothing(s: System, steps: seq<Step>)
    requires Consistent(s) && Runs(s, steps) && DeletesWritten(s, steps)
    ensures LosesNothing(s, steps)
    decreases |steps|
  {
    if steps != [] {
      NextKeepsConsistent(s, steps[0]);
      DeletesWrittenLosesNothing(Next(s, steps[0]), steps[1..]);
    }
  }

  lemma EmptyTableConsistent(manifests: set<Manifest>)
    ensures Consistent(System(map[], manifests, []))
  {}

  // So from an empty table, with every delete written, once the queue drains every row names a stored
  // manifest.
  lemma DrainedRowsAreStored(manifests: set<Manifest>, steps: seq<Step>, k: Key)
    requires var s := System(map[], manifests, []);
             Runs(s, steps) && DeletesWritten(s, steps) && Run(s, steps).queue == []
    requires var t := Run(System(map[], manifests, []), steps); k in t.images && Given(t.images[k].digest)
    ensures var t := Run(System(map[], manifests, []), steps);
            Manifest(k.repo, t.images[k].digest.value) in t.manifests
  {
    var s := System(map[], manifests, []);
    EmptyTableConsistent(manifests);
    DeletesWrittenLosesNothing(s, steps);
    RunKeepsConsistent(s, steps);
  }

  lemma {:induction false} RunKeepsRows(s: System, steps: seq<Step>)
    requires RowsOk(s.images) && Runs(s, steps)
    ensures RowsOk(Run(s, steps).images)
    decreases |steps|
  {
    if steps != [] {
      if steps[0].Deliver? || steps[0].Redeliver? {
        ApplyKeepsRows(s.images, Delivery(s.queue[0], steps[0].now, steps[0].ok));
      }
      RunKeepsRows(Next(s, steps[0]), steps[1..]);
    }
  }

  // Every row reachable from an empty table has an expiry exactly when ttl and a duration exactly when
  // ttl or idle; so outside protected namespaces the list's expiry of a ttl or idle row is at or before
  // now exactly when the reaper selects the row, whatever its provenance.
  lemma ReachableRows(manifests: set<Manifest>, steps: seq<Step>, p: Policy, k: Key)
    requires var s := System(map[], manifests, []); Runs(s, steps) && k in Run(s, steps).images
    ensures var db := Run(System(map[], manifests, []), steps).images;
            && RetentionShape(db[k])
            && (!db[k].mode.KeepLatest? && !Protected(p, k.repo) ==>
                  && ListedExpiry(db[k]).Some?
                  && (ListedExpiry(db[k]).value <= p.now <==> Query(p, db, {})[k] == 1))
  {
    var s := System(map[], manifests, []);
    RunKeepsRows(s, steps);
    var db := Run(s, steps).images;
    RowIsShaped(k, db[k]);
    if !db[k].mode.KeepLatest? && !Protected(p, k.repo) { ListAgreesWithReaper(p, db, k); }
  }

  // The steps of one reaper visit, e being the registry's notice of the removal.
  function VisitSteps(v: Visit, e: Event): seq<Step> {
    (if v.removed && TargetOf(v).ByDigest? then [RemoveManifest(e)] else []) +
    (if Clears(v) then [DropRow(v.key)] else [])
  }

  lemma ReaperVisitRuns(s: System, v: Visit, e: Event)
    requires TargetOf(v).ByDigest? ==> About(e, Delete, Manifest(v.key.repo, TargetOf(v).digest))
    ensures Runs(s, VisitSteps(v, e))
    ensures var t := Run(s, VisitSteps(v, e)); World(t.images, t.manifests) == ReapOne(World(s.images, s.manifests), v)
  {
    if v.removed && TargetOf(v).ByDigest? {
      var steps, rest := VisitSteps(v, e), if Clears(v) then [DropRow(v.key)] else [];
      assert steps[0] == RemoveManifest(e) && steps[1..] == rest;
      assert Concerned(e) == Aim(v);
      var t := Next(s, RemoveManifest(e));
      assert Run(s, steps) == Run(t, rest) == if Clears(v) then Next(t, DropRow(v.key)) else t;
    }
  }

  lemma RunFour(s: System, a: Step, b: Step, c: Step, d: Step)
    requires Enabled(s, a) && Enabled(Next(s, a), b) && Enabled(Next(Next(s, a), b), c)
    requires Enabled(Next(Next(Next(s, a), b), c), d)
    ensures Runs(s, [a, b, c, d]) && Run(s, [a, b, c, d]) == Next(Next(Next(Next(s, a), b), c), d)
  {
    assert [a, b, c, d][1..] == [b, c, d] && [b, c, d][1..] == [c, d] && [c, d][1..] == [d] && [d][1..] == [];
    assert Runs(Next(Next(Next(Next(s, a), b), c), d), []);
    assert Runs(Next(Next(Next(s, a), b), c), [d]);
    assert Runs(Next(Next(s, a), b), [c, d]);
    assert Runs(Next(s, a), [b, c, d]);
    assert Run(s, [a, b, c, d]) == Run(Next(s, a), [b, c, d]) == Run(Next(Next(s, a), b), [c, d]);
    assert Run(Next(Next(s, a), b), [c, d]) == Run(Next(Next(Next(s, a), b), c), [d]);
  }

  // A tag is pushed, its manifest is deleted, and the delete's write fails: the queue is empty, and the
  // row names a manifest that is gone until a later push or a reap replaces or drops it.
  lemma LostDeleteLeavesDeadRow(push: Event, removal: Event, m: Manifest, now: int)
    requires Tags(push, m) && About(removal, Delete, m)
    ensures var s := System(map[], {}, []);
            var steps := [PushManifest(push), Deliver(now, true), RemoveManifest(removal), Deliver(now, false)];
            && Runs(s, steps) && Run(s, steps).queue == []
            && Names(Run(s, steps).images, Key(m.repo, push.tag.value), m.digest)
            && m !in Run(s, steps).manifests
  {
    var s := System(map[], {}, []);
    var s1 := Next(s, PushManifest(push));
    assert s1 == System(map[], {m}, [push]);
    var s2 := Next(s1, Deliver(now, true));
    assert Names(s2.images, Key(m.repo, push.tag.value), m.digest) && s2.queue == [] && s2.manifests == {m};
    var s3 := Next(s2, RemoveManifest(removal));
    assert s3 == System(s2.images, {}, [removal]);
    RunFour(s, PushManifest(push), Deliver(now, true), RemoveManifest(removal), Deliver(now, false));
  }

  // ---- the debounced clock ----------------------------------------------------------------

  // The table, the true time of each row's last tagged manifest pull, and the clock so far.
  datatype History = History(images: Images, pulls: map<Key, int>, clock: int)

  function PullOf(e: Event): set<Key> {
    if Effective(e) && e.action.Pull? then {Key(RepoOf(e.repository).value, e.tag.value)} else {}
  }

  // A successful delivery at or after the clock.
  function Observe(h: History, e: Event, now: int): History {
    var images := Apply(h.images, Delivery(e, now, true));
    History(images,
            map k | k in images && (k in PullOf(e) || (k in h.images && k in h.pulls)) ::
              if k in PullOf(e) then now else h.pulls[k],
            now)
  }

  function Drop(h: History, gone: set<Key>): History {
    History(h.images - gone, h.pulls - gone, h.clock)
  }

  // last_pulled_at is never ahead of the last pull and never more than an hour behind it.
  predicate DebouncedRow(h: History, k: Key)
    requires k in h.images
  {
    if k in h.pulls
    then h.images[k].lastPulledAt.Some? &&
         h.images[k].lastPulledAt.value <= h.pulls[k] <= h.images[k].lastPulledAt.value + 3600 * 1000 &&
         h.pulls[k] <= h.clock
    else h.images[k].lastPulledAt.None?
  }

  ghost predicate Debounced(h: History) {
    h.pulls.Keys <= h.images.Keys && forall k | k in h.images :: DebouncedRow(h, k)
  }

  // A row that the event did not create keeps its recorded pull, unless the event is its pull.
  lemma ApplyPulled(db: Images, d: Delivery, k: Key)
    requires k in Apply(db, d)
    ensures k !in db ==> Apply(db, d)[k].lastPulledAt.None? && k !in PullOf(d.event)
    ensures k in db && k !in PullOf(d.event) ==> Apply(db, d)[k].lastPulledAt == db[k].lastPulledAt
    ensures k in db && k in PullOf(d.event) && d.ok ==> Apply(db, d) == Touched(db, k, d.now)
  {}

  lemma ObserveKeepsDebounced(h: History, e: Event, now: int)
    requires Debounced(h) && h.clock <= now
    ensures Debounced(Observe(h, e, now))
  {
    var g := Observe(h, e, now);
    forall k | k in g.images
      ensures DebouncedRow(g, k)
    {
      ApplyPulled(h.images, Delivery(e, now, true), k);
      if k in h.images { assert DebouncedRow(h, k); }
    }
  }

  // An event at some time, or rows dropped by a reap.
  datatype Tick = Seen(e: Event, now: int) | Gone(keys: set<Key>)

  predicate Monotone(clock: int, ticks: seq<Tick>)
    decreases |ticks|
  {
    ticks != [] ==>
      match ticks[0]
      case Seen(_, now) => clock <= now && Monotone(now, ticks[1..])
      case Gone(_) => Monotone(clock, ticks[1..])
  }

  function Replay(h: History, ticks: seq<Tick>): History
    decreases |ticks|
  {
    if ticks == [] then h
    else
      match ticks[0]
      case Seen(e, now) => Replay(Observe(h, e, now), ticks[1..])
      case Gone(keys) => Replay(Drop(h, keys), ticks[1..])
  }

  lemma {:induction false} ReplayKeepsDebounced(h: History, ticks: seq<Tick>)
    requires Debounced(h) && RowsOk(h.images) && Monotone(h.clock, ticks)
    ensures Debounced(Replay(h, ticks)) && RowsOk(Replay(h, ticks).images)
    decreases |ticks|
  {
    if ticks != [] {
      match ticks[0]
      case Seen(e, now) =>
        ObserveKeepsDebounced(h, e, now);
        ApplyKeepsRows(h.images, Delivery(e, now, true));
        ReplayKeepsDebounced(Observe(h, e, now), ticks[1..]);
      case Gone(keys) =>
        ReplayKeepsDebounced(Drop(h, keys), ticks[1..]);
    }
  }

  // Rows are created no later than they are pushed, and pushed no later than now.
  ghost predicate Aged(h: History) {
    forall k | k in h.images :: h.images[k].createdAt <= h.images[k].lastPushedAt <= h.clock
  }

  lemma {:induction false} ReplayKeepsAged(h: History, ticks: seq<Tick>)
    requires Aged(h) && Monotone(h.clock, ticks)
    ensures Aged(Replay(h, ticks))
    decreases |ticks|
  {
    if ticks != [] {
      match ticks[0]
      case Seen(e, now) => ReplayKeepsAged(Observe(h, e, now), ticks[1..]);
      case Gone(keys) => ReplayKeepsAged(Drop(h, keys), ticks[1..]);
    }
  }

  // So for an idle row of such a run the reaper's clock is the most recent timestamp, as the query's
  // comment promises, exactly when no push is later than the recorded pull.
  lemma ReachableIdleClock(ticks: seq<Tick>, start: int, k: Key)
    requires Monotone(start, ticks)
    requires k in Replay(History(map[], map[], start), ticks).images
    ensures var row := Replay(History(map[], map[], start), ticks).images[k];
            Clock(row) == MostRecent(row) <==> (row.lastPulledAt.Some? ==> row.lastPushedAt <= row.lastPulledAt.value)
  {
    ReplayKeepsAged(History(map[], map[], start), ticks);
  }

  // An idle tag pushed, pulled at once, and pushed again when its window is over.
  function Repush(push: Event, pull: Event, start: int, window: int): seq<Tick> {
    [Seen(push, start), Seen(pull, start), Seen(push, start + window)]
  }

  // A push of an idle tag leaves a row of that tag, pulled as before.
  lemma PushSeen(h: History, push: Event, base: string, suffix: string, now: int)
    requires suffix in SUFFIX_SECONDS && OneLine(base)
    requires push.action.Push? && RepoOf(push.repository).Some? && push.tag == Some(Suffixed(base, Idle, suffix))
    ensures var k := Key(RepoOf(push.repository).value, push.tag.value);
            var db := Observe(h, push, now).images;
            && k in db && db[k].mode.Idle? && db[k].seconds == Some(SUFFIX_SECONDS[suffix]) && db[k].lastPushedAt == now
            && db[k].lastPulledAt == (if k in h.images then h.images[k].lastPulledAt else None)
            && (db[k].provenance.Mirror? ==> k.repo.organization == "mirror")
  {
    SuffixRoundTrip(base, Idle, suffix, now);
  }

  lemma PullSeen(h: History, pull: Event, now: int)
    requires Effective(pull) && pull.action.Pull?
    ensures var k := Key(RepoOf(pull.repository).value, pull.tag.value);
            k in h.images && h.images[k].lastPulledAt.None? ==>
              k in Observe(h, pull, now).images && Observe(h, pull, now).images[k].lastPulledAt == Some(now)
  {}

  // The query takes an image at the very moment of its last push: the old pull outranks it.
  lemma FreshPushIsTaken(push: Event, pull: Event, base: string, suffix: string, p: Policy, start: int)
    requires suffix in SUFFIX_SECONDS && OneLine(base)
    requires push.action.Push? && push.tag == Some(Suffixed(base, Idle, suffix)) && Given(push.tag)
    requires pull.action.Pull? && pull.tag == push.tag && pull.repository == push.repository
    requires IsManifestPullMediaType(pull.mediaType)
    requires RepoOf(push.repository).Some? && RepoOf(push.repository).value.organization != "mirror"
    requires !Protected(p, RepoOf(push.repository).value) && p.now == start + SUFFIX_SECONDS[suffix] * 1000
    ensures var ticks := Repush(push, pull, start, SUFFIX_SECONDS[suffix] * 1000);
            var db := Replay(History(map[], map[], start), ticks).images;
            var k := Key(RepoOf(push.repository).value, push.tag.value);
            Monotone(start, ticks) && k in db && db[k].lastPushedAt == p.now && Query(p, db, {})[k] == 1
  {
    var again := p.now;
    var k := Key(RepoOf(push.repository).value, push.tag.value);
    var h := History(map[], map[], start);
    var h1 := Observe(h, push, start);
    var h2 := Observe(h1, pull, start);
    var h3 := Observe(h2, push, again);
    PushSeen(h, push, base, suffix, start);
    PullSeen(h1, pull, start);
    PushSeen(h2, push, base, suffix, again);
    SelectionExact(p, h3.images, {}, k);
    RepushReplayed(push, pull, start, again - start);
  }

  lemma RepushReplayed(push: Event, pull: Event, start: int, window: nat)
    ensures Monotone(start, Repush(push, pull, start, window))
    ensures var h := History(map[], map[], start);
            Replay(h, Repush(push, pull, start, window)) ==
            Observe(Observe(Observe(h, push, start), pull, start), push, start + window)
  {
    var a, b, c := Seen(push, start), Seen(pull, start), Seen(push, start + window);
    assert [a, b, c][1..] == [b, c] && [b, c][1..] == [c] && [c][1..] == [];
    assert Monotone(start + window, []) && Monotone(start, [c]) && Monotone(start, [b, c]);
    assert Monotone(start, [a, b, c]);
    var h1 := Observe(History(map[], map[], start), push, start);
    var h2 := Observe(h1, pull, start);
    assert Replay(History(map[], map[], start), [a, b, c]) == Replay(h1, [b, c]);
    assert Replay(h1, [b, c]) == Replay(h2, [c]) == Replay(Observe(h2, push, start + window), []);
  }

  // Over every run from an empty table with a monotone clock, an unprotected idle image is never
  // selected while its true last pull is younger than its window less one hour, and always selected
  // once that pull is as old as the window.
  lemma DebouncedIdle(ticks: seq<Tick>, start: int, p: Policy, k: Key)
    requires Monotone(start, ticks)
    requires var h := Replay(History(map[], map[], start), ticks);
             k in h.images && k in h.pulls && h.images[k].mode.Idle? && !Protected(p, k.repo)
    ensures var h := Replay(History(map[], map[], start), ticks);
            && h.images[k].seconds.Some?
            && (var window := h.images[k].seconds.value * 1000;
                && (p.now - h.pulls[k] < window - 3600 * 1000 ==> Query(p, h.images, {})[k] == 0)
                && (p.now - h.pulls[k] >= window ==> Query(p, h.images, {})[k] == 1))
  {
    var empty := History(map[], map[], start);
    ReplayKeepsDebounced(empty, ticks);
    var h := Replay(empty, ticks);
    assert RowOf(k, h.images[k]);
    SelectionExact(p, h.images, {}, k);
  }
}
