// The reaper's delete loop (hooks/src/util/imageRetention.ts): what one run does to the database
// and to the registry, for every reply of the registry.
module Reaper {
  import opened Options
  import opened Selection

  datatype Manifest = Manifest(repo: Repo, digest: string)

  // The image table, and the manifests stored in the registry.
  datatype World = World(images: Images, manifests: set<Manifest>)

  // getDigestForTag: the registry's reply to HEAD on a tag.
  datatype Head = NotFound | Header(digest: string) | NoHeader | HeadFault

  // One selected row with the registry's replies while the loop handles it: the answer to HEAD if it
  // is asked, the status of DELETE (None when the call fails), and whether the manifest was removed.
  datatype Visit = Visit(key: Key, digest: Option<string>, head: Head, status: Option<nat>, removed: bool)

  datatype Target = ByDigest(digest: string) | Untagged | Failed

  // row.manifest_digest || await getDigestForTag(...): an empty digest counts as missing.
  function TargetOf(v: Visit): Target {
    if v.digest.Some? && v.digest.value != "" then ByDigest(v.digest.value)
    else match v.head
      case NotFound => Untagged
      case Header(d) => ByDigest(d)
      case NoHeader => Failed
      case HeadFault => Failed
  }

  predicate Accepted(status: Option<nat>) {
    status.Some? && (status.value == 202 || status.value == 204 || status.value == 404)
  }

  // The visit ends with the row deleted.
  predicate Clears(v: Visit) {
    TargetOf(v).Untagged? || (TargetOf(v).ByDigest? && Accepted(v.status))
  }

  function Aim(v: Visit): set<Manifest> {
    if TargetOf(v).ByDigest? then {Manifest(v.key.repo, TargetOf(v).digest)} else {}
  }

  function ReapOne(w: World, v: Visit): World {
    World(if Clears(v) then w.images - {v.key} else w.images,
          if v.removed then w.manifests - Aim(v) else w.manifests)
  }

  function ReapAll(w: World, visits: seq<Visit>): World {
    if visits == [] then w
    else ReapOne(ReapAll(w, visits[..|visits| - 1]), visits[|visits| - 1])
  }

  // The row has a digest of its own: an empty one counts as none.
  predicate Recorded(v: Visit) { v.digest.Some? && v.digest.value != "" }

  // The loop asks the registry to delete this digest: the row's own, or else the one HEAD gives.
  predicate Asked(v: Visit, digest: string) {
    if Recorded(v) then v.digest == Some(digest) else v.head == Header(digest)
  }

  predicate Done(status: Option<nat>) { status in {Some(202), Some(204), Some(404)} }

  // The row goes when the deletion asked for is done, or nothing was asked because there is no such tag.
  // A HEAD that fails or names no digest, and a deletion with another status or none, keep the row.
  predicate RowGoes(v: Visit) {
    if Recorded(v) then Done(v.status)
    else v.head == NotFound || (v.head.Header? && Done(v.status))
  }

  // 202 and 204 say the manifest was deleted, 404 that it was not there.  After any other status, or
  // none, the manifest may be gone or not.
  ghost predicate Truthful(w: World, visits: seq<Visit>) {
    visits != [] ==>
      var before, v := visits[..|visits| - 1], visits[|visits| - 1];
      && Truthful(w, before)
      && (Done(v.status) && !v.removed ==>
            forall d | Asked(v, d) :: Manifest(v.key.repo, d) !in ReapAll(w, before).manifests)
  }

  ghost predicate Distinct(visits: seq<Visit>) {
    forall i, j | 0 <= i < j < |visits| :: visits[i].key != visits[j].key
  }

  // What the query gave the loop: distinct stale rows in scope, 500 or all of them, with their digests.
  ghost predicate Selected(p: Policy, db: Images, scope: set<Repo>, visits: seq<Visit>) {
    && Distinct(visits)
    && (forall v | v in visits :: v.key in db && Query(p, db, scope)[v.key] > 0 && v.digest == db[v.key].digest)
    && |visits| == Min(LIMIT, |Query(p, db, scope)|)
  }

  class Store {
    var images: Images
    var manifests: set<Manifest>

    ghost function Contents(): World
      reads this
    {
      World(images, manifests)
    }

    // The loop of reapObsoleteImages over the rows of its query.
    method Reap(visits: seq<Visit>) returns (found: nat)
      modifies this
      ensures Contents() == ReapAll(old(Contents()), visits)
      ensures found == |visits|
    {
      var i := 0;
      while i < |visits|
        invariant 0 <= i <= |visits|
        invariant Contents() == ReapAll(old(Contents()), visits[..i])
      {
        var v := visits[i];
        assert visits[..i + 1][..i] == visits[..i] && visits[..i + 1][i] == v;
        i := i + 1;
        var digest := v.digest;
        if digest.None? || digest.value == "" {
          match v.head {
            case NotFound =>
              images := images - {v.key};
              continue;
            case Header(d) => digest := Some(d);
            case NoHeader => continue;
            case HeadFault => continue;
          }
        }
        if v.removed { manifests := manifests - {Manifest(v.key.repo, digest.value)}; }
        if Accepted(v.status) { images := images - {v.key}; }
      }
      assert visits[..i] == visits;
      return |visits|;
    }
  }

  function Cleared(visits: seq<Visit>): set<Key> {
    set v | v in visits && Clears(v) :: v.key
  }

  ghost predicate Aimed(visits: seq<Visit>, m: Manifest) {
    exists v :: v in visits && m in Aim(v)
  }

  // For every sequence of replies: exactly the cleared rows leave the table, no manifest appears or
  // disappears unless the loop aimed at it, and no row leaves before its manifest is gone.
  lemma {:induction false} ReapOutcome(w: World, visits: seq<Visit>)
    requires Truthful(w, visits)
    ensures ReapAll(w, visits).images == w.images - Cleared(visits)
    ensures forall m :: m in ReapAll(w, visits).manifests ==> m in w.manifests
    ensures forall m :: m in w.manifests && !Aimed(visits, m) ==> m in ReapAll(w, visits).manifests
    ensures forall v | v in visits && Clears(v) :: Aim(v) !! ReapAll(w, visits).manifests
    ensures forall v, d | v in visits && RowGoes(v) && Asked(v, d) ::
              Manifest(v.key.repo, d) !in ReapAll(w, visits).manifests
  {
    if visits == [] {
      assert w.images - {} == w.images;
    } else {
      var before, v := visits[..|visits| - 1], visits[|visits| - 1];
      ReapOutcome(w, before);
      AimIsAsked(v);
      assert visits == before + [v];
      assert Cleared(visits) == Cleared(before) + (if Clears(v) then {v.key} else {});
      forall m | m in w.manifests && !Aimed(visits, m)
        ensures m in ReapAll(w, visits).manifests
      {
        assert v in visits && !Aimed(before, m);
      }
    }
  }

  lemma AimIsAsked(v: Visit)
    ensures Clears(v) <==> RowGoes(v)
    ensures Accepted(v.status) <==> Done(v.status)
    ensures forall m :: m in Aim(v) <==> m.repo == v.key.repo && Asked(v, m.digest)
  {}

  // The registry removed the manifest when a visit asked for it.
  ghost predicate TakenAway(visits: seq<Visit>, m: Manifest) {
    exists v :: v in visits && v.removed && v.key.repo == m.repo && Asked(v, m.digest)
  }

  // In the registry's replies: for every sequence of them, exactly the rows of visits as above leave the
  // table, and exactly the manifests that a visit asked for and the registry removed are gone.
  lemma {:induction false} ReapInReplies(w: World, visits: seq<Visit>)
    ensures forall k :: k in ReapAll(w, visits).images <==>
                          k in w.images && !exists v :: v in visits && v.key == k && RowGoes(v)
    ensures forall k | k in ReapAll(w, visits).images :: ReapAll(w, visits).images[k] == w.images[k]
    ensures forall m :: m in ReapAll(w, visits).manifests <==> m in w.manifests && !TakenAway(visits, m)
  {
    if visits != [] {
      var before, v := visits[..|visits| - 1], visits[|visits| - 1];
      ReapInReplies(w, before);
      AimIsAsked(v);
      assert visits == before + [v];
      assert forall u :: u in visits <==> u in before || u == v;
    }
  }

  // A row whose visit fails stays as it was: a faulty HEAD, no digest in its answer, or a deletion that
  // is not answered with 202, 204 or 404.
  lemma FailureKeepsRow(w: World, visits: seq<Visit>, v: Visit)
    requires Distinct(visits) && v in visits && v.key in w.images
    requires if Recorded(v) then v.status !in {Some(202), Some(204), Some(404)}
             else v.head == HeadFault || v.head == NoHeader ||
                  (v.head.Header? && v.status !in {Some(202), Some(204), Some(404)})
    ensures v.key in ReapAll(w, visits).images && ReapAll(w, visits).images[v.key] == w.images[v.key]
  {
    ReapInReplies(w, visits);
  }

  // A reap triggered by a push leaves every other repository as it was.
  lemma ScopedReapStaysInScope(p: Policy, w: World, scope: set<Repo>, visits: seq<Visit>)
    requires Selected(p, w.images, scope, visits) && Truthful(w, visits) && scope != {}
    ensures forall k | k in w.images && k.repo !in scope :: k in ReapAll(w, visits).images
    ensures forall m | m in w.manifests && m.repo !in scope :: m in ReapAll(w, visits).manifests
  {
    ReapOutcome(w, visits);
    forall v | v in visits
      ensures v.key.repo in scope
    {
      QueryAt(p, w.images, scope, v.key);
    }
  }

  lemma {:induction false} DistinctKeys(visits: seq<Visit>)
    requires Distinct(visits)
    ensures |set v | v in visits :: v.key| == |visits|
  {
    if visits != [] {
      var before, v := visits[..|visits| - 1], visits[|visits| - 1];
      DistinctKeys(before);
      assert visits == before + [v];
      assert (set u | u in visits :: u.key) == (set u | u in before :: u.key) + {v.key};
    }
  }

  lemma QueryIsStale(p: Policy, db: Images)
    ensures Query(p, db, {}) == multiset(StaleImages(p, db))
    ensures |Query(p, db, {})| == |StaleImages(p, db)|
  {
    forall k
      ensures Query(p, db, {})[k] == multiset(StaleImages(p, db))[k]
    {
      SelectionExact(p, db, {}, k);
    }
  }

  predicate Clean(visits: seq<Visit>) { forall v | v in visits :: Clears(v) }

  // A run in which every delete succeeds is one round of the drain, and the manifests it leaves are
  // those no visited row aimed at.
  lemma CleanRunIsABatch(p: Policy, w: World, visits: seq<Visit>)
    requires Selected(p, w.images, {}, visits) && Truthful(w, visits) && Clean(visits)
    ensures Batch(p, w.images, Cleared(visits))
    ensures ReapAll(w, visits).images == w.images - Cleared(visits)
    ensures forall m :: m in ReapAll(w, visits).manifests <==> m in w.manifests && !Aimed(visits, m)
  {
    ReapOutcome(w, visits);
    QueryIsStale(p, w.images);
    DistinctKeys(visits);
    assert Cleared(visits) == set v | v in visits :: v.key;
    forall m | m in ReapAll(w, visits).manifests
      ensures !Aimed(visits, m)
    {
      forall v | v in visits
        ensures m !in Aim(v)
      {
        assert Clears(v);
      }
    }
  }

  // ---- whole drains -----------------------------------------------------------------------

  ghost predicate CleanRuns(p: Policy, w: World, runs: seq<seq<Visit>>)
    decreases |runs|
  {
    runs != [] ==>
      && Selected(p, w.images, {}, runs[0]) && Truthful(w, runs[0]) && Clean(runs[0])
      && CleanRuns(p, ReapAll(w, runs[0]), runs[1..])
  }

  function Reaped(w: World, runs: seq<seq<Visit>>): World
    decreases |runs|
  {
    if runs == [] then w else Reaped(ReapAll(w, runs[0]), runs[1..])
  }

  function Batches(runs: seq<seq<Visit>>): seq<set<Key>> {
    if runs == [] then [] else [Cleared(runs[0])] + Batches(runs[1..])
  }

  lemma {:induction false} RunsDrain(p: Policy, w: World, runs: seq<seq<Visit>>)
    requires CleanRuns(p, w, runs)
    ensures |Batches(runs)| == |runs| && Drains(p, w.images, Batches(runs))
    ensures Reaped(w, runs).images == After(w.images, Batches(runs))
    decreases |runs|
  {
    if runs != [] {
      CleanRunIsABatch(p, w, runs[0]);
      RunsDrain(p, ReapAll(w, runs[0]), runs[1..]);
    }
  }

  // At a fixed clock with every delete succeeding, the loop needs exactly ceil(n / 500) runs to leave
  // precisely the rows the policy keeps, and from then on selects nothing.
  lemma ReaperDrains(p: Policy, w: World, runs: seq<seq<Visit>>)
    requires Collates(p.collate) && CleanRuns(p, w, runs)
    ensures Reaped(w, runs).images == Kept(p, w.images) <==> |runs| >= Rounds(|StaleImages(p, w.images)|)
    ensures |runs| >= Rounds(|StaleImages(p, w.images)|) ==>
              |Query(p, Reaped(w, runs).images, {})| == 0
  {
    RunsDrain(p, w, runs);
    DrainExact(p, w.images, Batches(runs));
    QueryIsStale(p, Reaped(w, runs).images);
  }

  // ---- what a reap does to the newest image's manifest ------------------------------------

  ghost predicate DigestsRecorded(db: Images) {
    forall k | k in db :: db[k].digest.Some? && db[k].digest.value != ""
  }

  ghost predicate Named(db: Images, rows: set<Key>, m: Manifest) {
    exists k :: k in rows && k in db && k.repo == m.repo && db[k].digest == Some(m.digest)
  }

  lemma AimedIsNamed(p: Policy, w: World, visits: seq<Visit>, m: Manifest)
    requires Selected(p, w.images, {}, visits) && Clean(visits) && DigestsRecorded(w.images)
    ensures Aimed(visits, m) <==> Named(w.images, Cleared(visits), m)
  {
    if Aimed(visits, m) {
      var v :| v in visits && m in Aim(v);
      assert v.key in Cleared(visits) && w.images[v.key].digest == v.digest;
    }
    if Named(w.images, Cleared(visits), m) {
      var k :| k in Cleared(visits) && k in w.images && k.repo == m.repo && w.images[k].digest == Some(m.digest);
      var v :| v in visits && Clears(v) && v.key == k;
      assert m in Aim(v);
    }
  }

  lemma {:induction false} DrainTakesNamed(p: Policy, w: World, runs: seq<seq<Visit>>, m: Manifest)
    requires CleanRuns(p, w, runs) && DigestsRecorded(w.images)
    ensures Reaped(w, runs).images.Keys <= w.images.Keys
    ensures m in Reaped(w, runs).manifests <==>
            m in w.manifests && !Named(w.images, w.images.Keys - Reaped(w, runs).images.Keys, m)
    decreases |runs|
  {
    if runs != [] {
      var next := ReapAll(w, runs[0]);
      CleanRunIsABatch(p, w, runs[0]);
      DrainTakesNamed(p, next, runs[1..], m);
      AimedIsNamed(p, w, runs[0], m);
      NamedSplits(w.images, Cleared(runs[0]), Reaped(w, runs).images.Keys, m);
    }
  }

  lemma NamedSplits(db: Images, gone: set<Key>, last: set<Key>, m: Manifest)
    requires gone <= db.Keys && last <= db.Keys - gone
    ensures Named(db, db.Keys - last, m) <==>
            Named(db, gone, m) || Named(db - gone, (db - gone).Keys - last, m)
  {
    if Named(db, db.Keys - last, m) {
      var k :| k in db.Keys - last && k.repo == m.repo && db[k].digest == Some(m.digest);
      if k !in gone { assert (db - gone)[k] == db[k] && k in (db - gone).Keys - last; }
    }
    if Named(db - gone, (db - gone).Keys - last, m) {
      var k :| k in (db - gone).Keys - last && k.repo == m.repo && (db - gone)[k].digest == Some(m.digest);
      assert k in db.Keys - last && db[k].digest == Some(m.digest);
    }
  }

  lemma FullDrain(p: Policy, w: World, runs: seq<seq<Visit>>)
    requires Collates(p.collate) && CleanRuns(p, w, runs)
    requires |runs| >= Rounds(|StaleImages(p, w.images)|)
    ensures Reaped(w, runs).images == Kept(p, w.images)
    ensures w.images.Keys - Reaped(w, runs).images.Keys == StaleImages(p, w.images)
  {
    ReaperDrains(p, w, runs);
  }

  // Some run aimed a delete at the manifest, by a row's digest or by the registry's answer for its tag.
  ghost predicate AimedByRuns(runs: seq<seq<Visit>>, m: Manifest) {
    exists visits :: visits in runs && Aimed(visits, m)
  }

  lemma {:induction false} DrainTakesAimed(p: Policy, w: World, runs: seq<seq<Visit>>, m: Manifest)
    requires CleanRuns(p, w, runs)
    ensures m in Reaped(w, runs).manifests <==> m in w.manifests && !AimedByRuns(runs, m)
    decreases |runs|
  {
    if runs != [] {
      CleanRunIsABatch(p, w, runs[0]);
      DrainTakesAimed(p, ReapAll(w, runs[0]), runs[1..], m);
      assert forall visits :: visits in runs <==> visits == runs[0] || visits in runs[1..];
    }
  }

  // Deletion is by digest, so a full drain takes any manifest, that of an image it keeps included,
  // exactly when some visit aimed at it; with every row's digest recorded that is exactly when a stale
  // tag of the same repository names the same digest.
  lemma KeptManifestSurvives(p: Policy, w: World, runs: seq<seq<Visit>>, top: Key, digest: string)
    requires Collates(p.collate) && CleanRuns(p, w, runs)
    requires |runs| >= Rounds(|StaleImages(p, w.images)|)
    requires top in Kept(p, w.images) && Manifest(top.repo, digest) in w.manifests
    ensures top in Reaped(w, runs).images
    ensures Manifest(top.repo, digest) in Reaped(w, runs).manifests <==> !AimedByRuns(runs, Manifest(top.repo, digest))
    ensures DigestsRecorded(w.images) ==>
              (AimedByRuns(runs, Manifest(top.repo, digest)) <==>
               Named(w.images, StaleImages(p, w.images), Manifest(top.repo, digest)))
  {
    FullDrain(p, w, runs);
    DrainTakesAimed(p, w, runs, Manifest(top.repo, digest));
    if DigestsRecorded(w.images) { DrainTakesNamed(p, w, runs, Manifest(top.repo, digest)); }
  }

  // Two plain tags of one repository that name the same digest, `newer` pushed last.
  function TwoTags(repo: Repo, older: string, newer: string, digest: string): Images {
    var row := Row(0, 0, None, TagRetention.KeepLatest, None, None, Some(digest), TagRetention.Pushed, None);
    map[Key(repo, older) := row, Key(repo, newer) := row.(lastPushedAt := 1)]
  }

  lemma OlderIsStale(p: Policy, repo: Repo, older: string, newer: string, digest: string)
    requires Collates(p.collate) && older != newer && !Protected(p, repo)
    ensures Newest(p, TwoTags(repo, older, newer, digest), Key(repo, newer))
    ensures StaleImages(p, TwoTags(repo, older, newer, digest)) == {Key(repo, older)}
  {
    var db := TwoTags(repo, older, newer, digest);
    assert Before(p, db, Key(repo, newer), Key(repo, older));
    NewestIsUnbeaten(p, db, Key(repo, newer));
    assert Beaten(p, db, Key(repo, older));
  }

  // The visit that removes the older tag's manifest.
  function OlderVisit(repo: Repo, older: string, digest: string): Visit {
    Visit(Key(repo, older), Some(digest), NotFound, Some(202), true)
  }

  lemma OlderIsSelected(p: Policy, repo: Repo, older: string, newer: string, digest: string)
    requires Collates(p.collate) && older != newer && !Protected(p, repo)
    ensures Selected(p, TwoTags(repo, older, newer, digest), {}, [OlderVisit(repo, older, digest)])
  {
    var db := TwoTags(repo, older, newer, digest);
    OlderIsStale(p, repo, older, newer, digest);
    QueryIsStale(p, db);
    assert Query(p, db, {})[Key(repo, older)] == 1 && |Query(p, db, {})| == 1;
  }

  lemma OneVisit(w: World, v: Visit)
    ensures ReapAll(w, [v]) == ReapOne(w, v)
    ensures Accepted(v.status) && v.removed ==> Truthful(w, [v])
  {
    assert [v][..0] == [];
  }

  // The newest plain tag keeps its row but loses its manifest to an older tag of the same digest.
  lemma NewestLosesItsManifest(p: Policy, repo: Repo, older: string, newer: string, digest: string)
    returns (w: World, visit: Visit)
    requires Collates(p.collate) && older != newer && digest != "" && !Protected(p, repo)
    ensures Selected(p, w.images, {}, [visit]) && Truthful(w, [visit])
    ensures Newest(p, w.images, Key(repo, newer)) && w.images[Key(repo, newer)].digest == Some(digest)
    ensures Manifest(repo, digest) in w.manifests && Manifest(repo, digest) !in ReapAll(w, [visit]).manifests
    ensures Key(repo, newer) in ReapAll(w, [visit]).images
  {
    w := World(TwoTags(repo, older, newer, digest), {Manifest(repo, digest)});
    visit := OlderVisit(repo, older, digest);
    OlderIsStale(p, repo, older, newer, digest);
    OlderIsSelected(p, repo, older, newer, digest);
    OneVisit(w, visit);
  }
}
