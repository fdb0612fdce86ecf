// Which images the reaper's query selects (hooks/src/util/imageRetention.ts) and when the image
// list says they expire (auth/src/imageList.ts).  Times are in milliseconds.
module Selection {
  import opened Options
  import opened TagRetention
  import opened SqlLike

  datatype Repo = Repo(organization: string, name: string)

  function Path(repo: Repo): string { repo.organization + "/" + repo.name }

  // The table images joined with repositories: unique in (organization, name) and (repository, tag).
  datatype Key = Key(repo: Repo, tag: string)

  datatype Row = Row(
    createdAt: int, lastPushedAt: int, lastPulledAt: Option<int>,
    mode: Mode, seconds: Option<nat>, expiresAt: Option<int>,
    digest: Option<string>, provenance: Provenance, upstreamRef: Option<string>)

  type Images = map<Key, Row>

  // What one run of the query is given: the clock, the configuration, and the database's collation.
  datatype Policy = Policy(
    now: int, mirrorDefault: nat, overrides: map<string, nat>, protected: seq<string>,
    collate: (string, string) -> bool)

  // A deterministic collation tells every two different tags apart.
  ghost predicate Collates(less: (string, string) -> bool) {
    && (forall a :: !less(a, a))
    && (forall a, b :: a != b ==> less(a, b) || less(b, a))
    && (forall a, b, c :: less(a, b) && less(b, c) ==> less(a, c))
  }

  // An entry of MIRROR_UPSTREAM_RETENTION_JSON; its value is None when it is not a finite number.
  datatype Setting = Setting(upstream: string, seconds: Option<real>)

  // parseMirrorUpstreamRetentionMap, over the entries of a JSON object (whose names are distinct).
  method ParseMirrorRetention(entries: seq<Setting>) returns (out: map<string, nat>)
    requires forall i, j | 0 <= i < j < |entries| :: entries[i].upstream != entries[j].upstream
    ensures forall u :: u in out <==>
              exists e :: e in entries && e.upstream == u && e.seconds.Some? && e.seconds.value > 0.0
    ensures forall e | e in entries && e.upstream in out ::
              e.seconds.Some? && out[e.upstream] as real <= e.seconds.value < out[e.upstream] as real + 1.0
  {
    out := map[];
    for n := 0 to |entries|
      invariant forall u :: u in out <==>
                  exists e :: e in entries[..n] && e.upstream == u && e.seconds.Some? && e.seconds.value > 0.0
      invariant forall i | 0 <= i < n && entries[i].upstream in out ::
                  && entries[i].seconds.Some?
                  && out[entries[i].upstream] as real <= entries[i].seconds.value
                  && entries[i].seconds.value < out[entries[i].upstream] as real + 1.0
    {
      var e := entries[n];
      assert entries[..n + 1] == entries[..n] + [e];
      if e.seconds.None? || e.seconds.value <= 0.0 { continue; }
      out := out[e.upstream := e.seconds.value.Floor];
    }
    assert entries[..|entries|] == entries;
  }

  // ---- the query, clause by clause --------------------------------------------------------

  // COALESCE(last_pulled_at, last_pushed_at, created_at); last_pushed_at is never null.
  function Clock(row: Row): int {
    match row.lastPulledAt
    case Some(t) => t
    case None => row.lastPushedAt
  }

  // Every CTE applies the repository scope; an empty list of ids means no scope.
  predicate InScope(scope: set<Repo>, repo: Repo) { scope == {} || repo in scope }

  predicate Ranked(row: Row) { row.mode.KeepLatest? && !row.provenance.Mirror? }

  // ORDER BY last_pushed_at DESC, created_at DESC, tag DESC
  predicate Before(p: Policy, db: Images, a: Key, b: Key)
    requires a in db && b in db
  {
    var x, y := db[a], db[b];
    x.lastPushedAt > y.lastPushedAt ||
    (x.lastPushedAt == y.lastPushedAt &&
     (x.createdAt > y.createdAt || (x.createdAt == y.createdAt && p.collate(b.tag, a.tag))))
  }

  function KeepLatestRows(db: Images, scope: set<Repo>): set<Key> {
    set k | k in db && InScope(scope, k.repo) && Ranked(db[k])
  }

  // ROW_NUMBER() OVER (PARTITION BY repository_id ORDER BY ...)
  function RowNumber(p: Policy, db: Images, rows: set<Key>, k: Key): nat
    requires k in rows && rows <= db.Keys
  {
    1 + |set j | j in rows && j.repo == k.repo && Before(p, db, j, k)|
  }

  function BeatenImages(p: Policy, db: Images, scope: set<Repo>): set<Key> {
    var rows := KeepLatestRows(db, scope);
    set k | k in rows && RowNumber(p, db, rows, k) > 1
  }

  function TtlImages(p: Policy, db: Images, scope: set<Repo>): set<Key> {
    set k | k in db && InScope(scope, k.repo) &&
            db[k].mode.Ttl? && db[k].expiresAt.Some? && db[k].expiresAt.value <= p.now
  }

  function IdleImages(p: Policy, db: Images, scope: set<Repo>): set<Key> {
    set k | k in db && InScope(scope, k.repo) && db[k].mode.Idle? && db[k].seconds.Some? &&
            Clock(db[k]) + db[k].seconds.value * 1000 <= p.now && !db[k].provenance.Mirror?
  }

  function Matching(overrides: map<string, nat>, upstreamRef: Option<string>): set<string> {
    set o | o in overrides && upstreamRef.Some? && Like(upstreamRef.value, o + "%")
  }

  lemma {:induction false} LongestExists(names: set<string>) returns (longest: string)
    requires names != {}
    ensures longest in names && forall o | o in names :: |o| <= |longest|
    decreases |names|
  {
    longest :| longest in names;
    if names != {longest} {
      var other := LongestExists(names - {longest});
      if |longest| < |other| { longest := other; }
    }
  }

  // mirror_resolved_retention: the longest matching override, or the default.
  ghost function ResolvedSeconds(p: Policy, upstreamRef: Option<string>): nat {
    var names := Matching(p.overrides, upstreamRef);
    if names == {} then p.mirrorDefault
    else
      assert exists o :: o in names && forall n | n in names :: |n| <= |o| by {
        var _ := LongestExists(names);
      }
      var longest :| longest in names && forall n | n in names :: |n| <= |longest|;
      p.overrides[longest]
  }

  // COALESCE(retention_value_seconds, the resolved seconds)
  ghost function MirrorSeconds(p: Policy, row: Row): nat {
    match row.seconds
    case Some(s) => s
    case None => ResolvedSeconds(p, row.upstreamRef)
  }

  ghost function MirrorImages(p: Policy, db: Images, scope: set<Repo>): set<Key> {
    set k | k in db && InScope(scope, k.repo) && db[k].provenance.Mirror? && !db[k].mode.Ttl? &&
            Clock(db[k]) + MirrorSeconds(p, db[k]) * 1000 <= p.now
  }

  // reap_candidates: UNION ALL keeps repetitions.
  ghost function UnionAll(p: Policy, db: Images, scope: set<Repo>): multiset<Key> {
    multiset(BeatenImages(p, db, scope)) + multiset(TtlImages(p, db, scope)) +
    multiset(IdleImages(p, db, scope)) + multiset(MirrorImages(p, db, scope))
  }

  predicate Protected(p: Policy, repo: Repo) {
    exists prefix | prefix in p.protected :: Path(repo) == prefix || Like(Path(repo), prefix + "/%")
  }

  ghost function Where(keep: Key -> bool, rows: multiset<Key>): (r: multiset<Key>)
    ensures forall k :: r[k] == if keep(k) then rows[k] else 0
    decreases |rows|
  {
    if rows == multiset{} then rows
    else
      var k :| k in rows;
      assert rows[k := 0] < rows;
      var rest := Where(keep, rows[k := 0]);
      if keep(k) then rest[k := rows[k]] else rest
  }

  // The whole query before LIMIT.
  ghost function Query(p: Policy, db: Images, scope: set<Repo>): multiset<Key> {
    Where((k: Key) => !Protected(p, k.repo), UnionAll(p, db, scope))
  }

  // ---- the policy it is meant to express --------------------------------------------------

  ghost predicate Beaten(p: Policy, db: Images, k: Key)
    requires k in db
  {
    exists j :: j in db && j.repo == k.repo && Ranked(db[j]) && Before(p, db, j, k)
  }

  ghost predicate Stale(p: Policy, db: Images, k: Key)
    requires k in db
  {
    var row := db[k];
    && !Protected(p, k.repo)
    && (if row.mode.Ttl? then row.expiresAt.Some? && row.expiresAt.value <= p.now
        else if row.provenance.Mirror? then Clock(row) + MirrorSeconds(p, row) * 1000 <= p.now
        else if row.mode.Idle? then row.seconds.Some? && Clock(row) + row.seconds.value * 1000 <= p.now
        else Beaten(p, db, k))
  }

  ghost function StaleImages(p: Policy, db: Images): set<Key> {
    set k | k in db && Stale(p, db, k)
  }

  lemma RowNumberOfBeaten(p: Policy, db: Images, scope: set<Repo>, k: Key)
    requires k in KeepLatestRows(db, scope)
    ensures RowNumber(p, db, KeepLatestRows(db, scope), k) > 1 <==> Beaten(p, db, k)
  {
    var rows := KeepLatestRows(db, scope);
    var ahead := set j | j in rows && j.repo == k.repo && Before(p, db, j, k);
    if Beaten(p, db, k) {
      var j :| j in db && j.repo == k.repo && Ranked(db[j]) && Before(p, db, j, k);
      assert j in ahead;
    }
    if |ahead| > 0 {
      var j :| j in ahead;
    }
  }

  // The query returns every row at most once, and exactly when the policy calls it stale; a scoped
  // query is the unscoped one restricted to those repositories, although its window is computed
  // over fewer rows.
  lemma SelectionExact(p: Policy, db: Images, scope: set<Repo>, k: Key)
    ensures Query(p, db, scope)[k] ==
            if k in db && InScope(scope, k.repo) && Stale(p, db, k) then 1 else 0
    ensures InScope(scope, k.repo) ==> Query(p, db, scope)[k] == Query(p, db, {})[k]
  {
    QueryAt(p, db, scope, k);
    QueryAt(p, db, {}, k);
  }

  lemma QueryAt(p: Policy, db: Images, scope: set<Repo>, k: Key)
    ensures Query(p, db, scope)[k] ==
            if k in db && InScope(scope, k.repo) && Stale(p, db, k) then 1 else 0
  {
    if k in KeepLatestRows(db, scope) {
      RowNumberOfBeaten(p, db, scope, k);
    }
  }

  // The longest override that the upstream reference starts like decides.  Two wildcard prefixes of
  // one length may both fit, and then either does; prefixes without wildcards are fitting prefixes.
  lemma LongestOverride(p: Policy, upstreamRef: string, o: string)
    requires o in p.overrides && StartsLike(upstreamRef, o)
    requires forall q | q in p.overrides && StartsLike(upstreamRef, q) :: |q| <= |o|
    ensures exists q :: q in p.overrides && StartsLike(upstreamRef, q) && |q| == |o| &&
                        ResolvedSeconds(p, Some(upstreamRef)) == p.overrides[q]
    ensures (forall q | q in p.overrides && StartsLike(upstreamRef, q) && |q| == |o| :: q == o) ==>
              ResolvedSeconds(p, Some(upstreamRef)) == p.overrides[o]
    ensures (forall q | q in p.overrides :: Plain(q)) ==>
              o <= upstreamRef && ResolvedSeconds(p, Some(upstreamRef)) == p.overrides[o]
  {
    var names := Matching(p.overrides, Some(upstreamRef));
    forall q | q in p.overrides
      ensures q in names <==> StartsLike(upstreamRef, q)
      ensures Plain(q) ==> (q in names <==> q <= upstreamRef)
    {
      LikeOpen(upstreamRef, q);
      if Plain(q) { LikePrefix(upstreamRef, q); }
    }
    assert o in names;
    assert exists q :: q in names && (forall n | n in names :: |n| <= |q|) &&
                       ResolvedSeconds(p, Some(upstreamRef)) == p.overrides[q];
    assert forall q | q <= upstreamRef && o <= upstreamRef && |q| == |o| :: q == o;
  }

  // The default decides exactly for a reference that is absent or starts like no override.
  lemma NoOverride(p: Policy, upstreamRef: Option<string>)
    requires upstreamRef.None? || forall q | q in p.overrides :: !StartsLike(upstreamRef.value, q)
    ensures ResolvedSeconds(p, upstreamRef) == p.mirrorDefault
  {
    if upstreamRef.Some? {
      forall q | q in p.overrides
        ensures q !in Matching(p.overrides, upstreamRef)
      {
        LikeOpen(upstreamRef.value, q);
      }
    }
  }

  ghost predicate SomewhereBelow(path: string, prefix: string) {
    exists k: nat :: BelowAt(path, k, prefix)
  }

  // A protected prefix covers itself and what stands below a path that it matches; without wildcards
  // that is what stands below it, not its textual neighbours.
  lemma ProtectedExactly(p: Policy, repo: Repo)
    ensures Protected(p, repo) <==>
            exists q | q in p.protected :: Path(repo) == q || SomewhereBelow(Path(repo), q)
    ensures (forall q | q in p.protected :: Plain(q)) ==>
              (Protected(p, repo) <==> exists q | q in p.protected :: Path(repo) == q || q + "/" <= Path(repo))
  {
    forall q | q in p.protected
      ensures Like(Path(repo), q + "/%") <==> SomewhereBelow(Path(repo), q)
      ensures Plain(q) ==> (Like(Path(repo), q + "/%") <==> q + "/" <= Path(repo))
    {
      LikeBelow(Path(repo), q);
      if Plain(q) {
        assert q + "/%" == (q + "/") + "%";
        LikePrefix(Path(repo), q + "/");
      }
    }
  }

  // No image of organization/name is selected while a protected prefix is that path or matches a path
  // above it, whatever its columns say.
  lemma ProtectedNotSelected(p: Policy, db: Images, scope: set<Repo>, k: Key, q: string)
    requires q in p.protected
    requires var path := k.repo.organization + "/" + k.repo.name; path == q || SomewhereBelow(path, q)
    ensures Query(p, db, scope)[k] == 0
  {
    ProtectedExactly(p, k.repo);
    QueryAt(p, db, scope, k);
  }

  // ---- the query in the columns of its rows -------------------------------------------------

  // t is COALESCE(last_pulled_at, last_pushed_at).
  predicate Since(row: Row, t: int) {
    row.lastPulledAt == Some(t) || (row.lastPulledAt == None && row.lastPushedAt == t)
  }

  // A ttl image, of any provenance, is selected exactly when its expiry has come.
  lemma TtlSelected(p: Policy, db: Images, k: Key)
    requires k in db && db[k].mode == Ttl && !Protected(p, k.repo)
    ensures Query(p, db, {})[k] == 1 <==> db[k].expiresAt.Some? && db[k].expiresAt.value <= p.now
  {
    SelectionExact(p, db, {}, k);
  }

  // An idle image that is not a mirror's is selected exactly when its duration has passed since then.
  lemma IdleSelected(p: Policy, db: Images, k: Key, t: int)
    requires k in db && db[k].mode == Idle && db[k].provenance != Mirror && !Protected(p, k.repo) && Since(db[k], t)
    ensures Query(p, db, {})[k] == 1 <==> db[k].seconds.Some? && t + db[k].seconds.value * 1000 <= p.now
  {
    SelectionExact(p, db, {}, k);
  }

  // A mirrored image without ttl goes after its own duration if it has one; else after that of the only
  // longest override that its upstream reference starts like; else after the default.
  lemma MirrorSelected(p: Policy, db: Images, k: Key, t: int)
    requires k in db && db[k].provenance == Mirror && db[k].mode != Ttl && !Protected(p, k.repo) && Since(db[k], t)
    ensures forall s | db[k].seconds == Some(s) :: Query(p, db, {})[k] == 1 <==> t + s * 1000 <= p.now
    ensures forall r, o | db[k].seconds == None && db[k].upstreamRef == Some(r) && OnlyLongest(p.overrides, r, o) ::
              Query(p, db, {})[k] == 1 <==> t + p.overrides[o] * 1000 <= p.now
    ensures db[k].seconds == None && (forall o | o in p.overrides :: !Fits(db[k].upstreamRef, o)) ==>
              (Query(p, db, {})[k] == 1 <==> t + p.mirrorDefault * 1000 <= p.now)
  {
    SelectionExact(p, db, {}, k);
    forall ref, o | db[k].seconds == None && db[k].upstreamRef == Some(ref) && OnlyLongest(p.overrides, ref, o)
      ensures ResolvedSeconds(p, Some(ref)) == p.overrides[o]
    {
      LongestOverride(p, ref, o);
    }
    if forall o | o in p.overrides :: !Fits(db[k].upstreamRef, o) { NoOverride(p, db[k].upstreamRef); }
  }

  ghost predicate Fits(upstreamRef: Option<string>, o: string) {
    upstreamRef.Some? && StartsLike(upstreamRef.value, o)
  }

  // o is the one longest override that the reference starts like.
  ghost predicate OnlyLongest(overrides: map<string, nat>, upstreamRef: string, o: string) {
    && o in overrides && StartsLike(upstreamRef, o)
    && forall q | q in overrides && StartsLike(upstreamRef, q) && q != o :: |q| < |o|
  }

  // A scope keeps exactly the selected rows of its repositories; no scope keeps all.
  lemma ScopeSelects(p: Policy, db: Images, scope: set<Repo>, k: Key)
    ensures Query(p, db, scope)[k] == if scope == {} || k.repo in scope then Query(p, db, {})[k] else 0
  {
    QueryAt(p, db, scope, k);
    QueryAt(p, db, {}, k);
  }

  // ---- exactly one keep-latest image per repository stays ---------------------------------

  ghost predicate Newest(p: Policy, db: Images, k: Key) {
    k in db && Ranked(db[k]) &&
    forall j | j in db && j.repo == k.repo && Ranked(db[j]) && j != k :: Before(p, db, k, j)
  }

  lemma BeforeIsTotal(p: Policy, db: Images, a: Key, b: Key)
    requires Collates(p.collate) && a in db && b in db && a.repo == b.repo && a != b
    ensures Before(p, db, a, b) <==> !Before(p, db, b, a)
  {}

  lemma BeforeIsTransitive(p: Policy, db: Images, a: Key, b: Key, c: Key)
    requires Collates(p.collate) && a in db && b in db && c in db
    requires Before(p, db, a, b) && Before(p, db, b, c)
    ensures Before(p, db, a, c)
  {}

  lemma {:induction false} NewestAmong(p: Policy, db: Images, repo: Repo, rows: set<Key>) returns (top: Key)
    requires Collates(p.collate) && rows != {} && forall k | k in rows :: k in db && k.repo == repo
    ensures top in rows && forall j | j in rows && j != top :: Before(p, db, top, j)
    decreases |rows|
  {
    top :| top in rows;
    if rows != {top} {
      var other := NewestAmong(p, db, repo, rows - {top});
      BeforeIsTotal(p, db, other, top);
      if Before(p, db, other, top) {
        top := other;
      } else {
        forall j | j in rows && j != top
          ensures Before(p, db, top, j)
        {
          if j != other { BeforeIsTransitive(p, db, top, other, j); }
        }
      }
    }
  }

  lemma NewestExists(p: Policy, db: Images, k: Key) returns (top: Key)
    requires Collates(p.collate) && k in db && Ranked(db[k])
    ensures top.repo == k.repo && Newest(p, db, top)
  {
    var rows := set j | j in db && j.repo == k.repo && Ranked(db[j]);
    assert k in rows;
    top := NewestAmong(p, db, k.repo, rows);
  }

  lemma NewestIsUnbeaten(p: Policy, db: Images, k: Key)
    requires Collates(p.collate) && k in db && Ranked(db[k])
    ensures Newest(p, db, k) <==> !Beaten(p, db, k)
  {
    if Newest(p, db, k) && Beaten(p, db, k) {
      var j :| j in db && j.repo == k.repo && Ranked(db[j]) && Before(p, db, j, k);
      if j != k { BeforeIsTotal(p, db, j, k); }
    }
    if !Beaten(p, db, k) {
      forall j | j in db && j.repo == k.repo && Ranked(db[j]) && j != k
        ensures Before(p, db, k, j)
      {
        BeforeIsTotal(p, db, k, j);
      }
    }
  }

  // In an unprotected repository with a plain tag that is not a mirror's, the query leaves exactly
  // one such image: the last pushed, of those the last created, of those the greatest tag.
  lemma KeepsExactlyTheNewest(p: Policy, db: Images, k: Key) returns (top: Key)
    requires Collates(p.collate) && k in db && Ranked(db[k]) && !Protected(p, k.repo)
    ensures top in db && top.repo == k.repo && Ranked(db[top])
    ensures forall j | j in db && j.repo == k.repo && Ranked(db[j]) ::
              && (Stale(p, db, j) <==> j != top)
              && db[j].lastPushedAt <= db[top].lastPushedAt
              && (db[j].lastPushedAt == db[top].lastPushedAt ==> db[j].createdAt <= db[top].createdAt)
              && (db[j].lastPushedAt == db[top].lastPushedAt && db[j].createdAt == db[top].createdAt && j != top ==>
                    p.collate(j.tag, top.tag))
  {
    top := NewestExists(p, db, k);
    forall j | j in db && j.repo == k.repo && Ranked(db[j])
      ensures Stale(p, db, j) <==> j != top
    {
      NewestIsUnbeaten(p, db, j);
      if j != top { BeforeIsTotal(p, db, j, top); }
    }
  }

  // ---- deleting candidates creates none ---------------------------------------------------

  lemma StaleAfterDelete(p: Policy, db: Images, gone: set<Key>, k: Key)
    requires Collates(p.collate) && gone <= StaleImages(p, db) && k in db && k !in gone
    ensures Stale(p, db - gone, k) <==> Stale(p, db, k)
  {
    var rest := db - gone;
    assert rest[k] == db[k];
    if Ranked(db[k]) && !Protected(p, k.repo) {
      if Beaten(p, rest, k) {
        var j :| j in rest && j.repo == k.repo && Ranked(rest[j]) && Before(p, rest, j, k);
        assert j in db && Before(p, db, j, k);
      }
      if Beaten(p, db, k) {
        var top := NewestExists(p, db, k);
        NewestIsUnbeaten(p, db, top);
        NewestIsUnbeaten(p, db, k);
        assert !Stale(p, db, top) && top in rest && Before(p, rest, top, k);
      }
    }
  }

  lemma DeletingCreatesNoCandidates(p: Policy, db: Images, gone: set<Key>)
    requires Collates(p.collate) && gone <= StaleImages(p, db)
    ensures StaleImages(p, db - gone) == StaleImages(p, db) - gone
  {
    forall k | k in db && k !in gone
      ensures Stale(p, db - gone, k) <==> Stale(p, db, k)
    {
      StaleAfterDelete(p, db, gone, k);
    }
  }

  // ---- draining in rounds of LIMIT rows ---------------------------------------------------

  const LIMIT := 500

  function Min(a: nat, b: nat): nat { if a < b then a else b }

  // ORDER BY ... LIMIT 500 takes some 500 of the selected rows, or all of them.
  ghost predicate Batch(p: Policy, db: Images, batch: set<Key>) {
    batch <= StaleImages(p, db) && |batch| == Min(LIMIT, |StaleImages(p, db)|)
  }

  // Consecutive runs at one clock, every delete succeeding.
  ghost predicate Drains(p: Policy, db: Images, batches: seq<set<Key>>) {
    batches != [] ==> Batch(p, db, batches[0]) && Drains(p, db - batches[0], batches[1..])
  }

  function After(db: Images, batches: seq<set<Key>>): Images {
    if batches == [] then db else After(db - batches[0], batches[1..])
  }

  // After n runs min(500 n, all) stale rows are gone, none but stale rows are, and what is still
  // stale is exactly what is left of the first selection.
  lemma {:induction false} DrainProgress(p: Policy, db: Images, batches: seq<set<Key>>)
    requires Collates(p.collate) && Drains(p, db, batches)
    ensures var rest := After(db, batches);
            && StaleImages(p, rest) <= StaleImages(p, db)
            && rest == db - (StaleImages(p, db) - StaleImages(p, rest))
            && |StaleImages(p, rest)| == |StaleImages(p, db)| - Min(LIMIT * |batches|, |StaleImages(p, db)|)
  {
    if batches == [] {
      assert db - (StaleImages(p, db) - StaleImages(p, db)) == db;
    } else {
      var stale, batch := StaleImages(p, db), batches[0];
      DeletingCreatesNoCandidates(p, db, batch);
      DrainProgress(p, db - batch, batches[1..]);
      assert |stale - batch| == |stale| - |batch|;
      var left := StaleImages(p, After(db, batches));
      assert (db - batch) - ((stale - batch) - left) == db - (stale - left);
    }
  }

  // The rows the policy keeps.
  ghost function Kept(p: Policy, db: Images): (kept: Images)
    ensures kept.Keys == db.Keys - StaleImages(p, db)
  {
    map k | k in db && !Stale(p, db, k) :: db[k]
  }

  // The least number of rounds of 500 that takes n rows.
  function Rounds(n: nat): (r: nat)
    ensures n <= 500 * r && (r > 0 ==> 500 * (r - 1) < n)
  {
    (n + LIMIT - 1) / LIMIT
  }

  // ceil(n / 500) runs are enough and fewer are not: they leave exactly the rows the policy keeps,
  // and a further run finds nothing.
  lemma DrainExact(p: Policy, db: Images, batches: seq<set<Key>>)
    requires Collates(p.collate) && Drains(p, db, batches)
    ensures After(db, batches) == Kept(p, db) <==> |batches| >= Rounds(|StaleImages(p, db)|)
    ensures |batches| >= Rounds(|StaleImages(p, db)|) ==> StaleImages(p, After(db, batches)) == {}
  {
    var stale, rest := StaleImages(p, db), After(db, batches);
    DrainProgress(p, db, batches);
    assert db - stale == Kept(p, db);
    if StaleImages(p, rest) == {} {
      assert stale - {} == stale;
    } else {
      var k :| k in StaleImages(p, rest);
      assert k in rest && k !in Kept(p, db);
    }
  }

  // ---- the idle clock ---------------------------------------------------------------------

  function Max(a: int, b: int): int { if a < b then b else a }

  // The query's comment promises the most recent of the three timestamps.
  function MostRecent(row: Row): int {
    var stored := Max(row.lastPushedAt, row.createdAt);
    match row.lastPulledAt
    case Some(t) => Max(t, stored)
    case None => stored
  }

  function At(p: Policy, now: int): Policy { p.(now := now) }

  // COALESCE is that clock exactly when the first timestamp present is the largest; otherwise
  // there is a moment at which an image pushed or created within its window is taken.
  lemma IdleClockIsMostRecent(p: Policy, db: Images, k: Key)
    requires k in db && db[k].mode.Idle? && db[k].seconds.Some? && db[k].seconds.value > 0
    requires !db[k].provenance.Mirror? && !Protected(p, k.repo)
    ensures (forall now: int ::
               Stale(At(p, now), db, k) ==> MostRecent(db[k]) + db[k].seconds.value * 1000 <= now)
            <==> Clock(db[k]) >= Max(db[k].lastPushedAt, db[k].createdAt)
  {
    var row := db[k];
    var now := Clock(row) + row.seconds.value * 1000;
    assert Stale(At(p, now), db, k);
  }

  // ---- the list agrees with the reaper ----------------------------------------------------

  // The expires_at column of the image list.
  function ListedExpiry(row: Row): Option<int> {
    match row.mode
    case Ttl => row.expiresAt
    case Idle => if row.seconds.None? then None else Some(Clock(row) + row.seconds.value * 1000)
    case KeepLatest => None
  }

  // An expiry exactly when ttl and a duration exactly when ttl or idle.
  predicate RetentionShape(row: Row) {
    (row.mode.Ttl? <==> row.expiresAt.Some?) && (!row.mode.KeepLatest? <==> row.seconds.Some?)
  }

  lemma ListAgreesWithReaper(p: Policy, db: Images, k: Key)
    requires k in db && RetentionShape(db[k]) && !db[k].mode.KeepLatest? && !Protected(p, k.repo)
    ensures ListedExpiry(db[k]).Some?
    ensures ListedExpiry(db[k]).value <= p.now <==> Query(p, db, {})[k] == 1
  {
    SelectionExact(p, db, {}, k);
  }
}
