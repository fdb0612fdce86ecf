// Wrapped-upstream authentication (auth/src/upstreamAuth/strategy.ts): each requested
// repository must be covered by a cached proof or by a probe of the upstream.  Requests
// share one proof cache and interleave at every `await probe`.  A request is a Request
// below, the whole service a Service; an Event is one uninterrupted piece of one request.
module WrappedUpstream {
  import opened Options
  import Routing
  import opened ProofCache

  datatype Reason = RouteMismatch | Unauthorized | Unreachable | Unsupported
  datatype Answer = Ok(bearer: string) | Refuse(reason: Reason)

  // How a repository was proved: by the cache or by this request's own probe, with the
  // position of the mark in the cache's log.
  datatype Evidence = ByHit(at: nat) | ByProbe(at: nat)

  datatype Pc = Running | Awaiting | Accepted(cacheHit: bool) | Refused(reason: Reason)

  // began: the length of the log when the request started.
  datatype Request = Request(
    id: Identity, names: seq<string>, routes: seq<Routing.Route>, began: nat, evidence: seq<Evidence>, pc: Pc)

  datatype Probe = Probe(req: nat, id: Identity, host: string, repo: string)

  // probes: every probe sent; oks: for each Recorded mark of the log, the probe it came from.
  datatype Service = Service(history: History, reqs: seq<Request>, probes: seq<Probe>, oks: map<nat, Probe>)

  datatype Event =
    | Begin(id: Identity, names: seq<string>)
    | Advance(r: nat, now: int)
    | Reply(r: nat, now: int, answer: Answer)

  // The Kelvin sign is the one character outside ASCII whose lower case is an ASCII character.
  const KELVIN := '\U{212A}'

  function LowerChar(c: char): char {
    if 'A' <= c <= 'Z' then (c as int + 32) as char else if c == KELVIN then 'k' else c
  }

  function Lower(s: string): string {
    seq(|s|, i requires 0 <= i < |s| => LowerChar(s[i]))
  }

  predicate MatchesHost(route: Routing.Route, envelopeHost: string) {
    Lower(route.host) == Lower(envelopeHost)
  }

  // All routes, or None when one is unknown or disagrees with the envelope.
  function Routes(names: seq<string>, host: string): Option<seq<Routing.Route>> {
    if names == [] then Some([])
    else
      var route := Routing.RouteMirrorRepo(names[0]);
      if route.None? || !MatchesHost(route.value, host) then None
      else
        var rest := Routes(names[1..], host);
        if rest.None? then None else Some([route.value] + rest.value)
  }

  function Start(y: Service, id: Identity, names: seq<string>): Request {
    var routes := Routes(names, id.host);
    if names == [] || routes.None? then Request(id, names, [], |y.history.log|, [], Refused(RouteMismatch))
    else Request(id, names, routes.value, |y.history.log|, [], Running)
  }

  predicate AllHits(evidence: seq<Evidence>) {
    forall e | e in evidence :: e.ByHit?
  }

  function Update(y: Service, r: nat, q: Request): Service
    requires r < |y.reqs|
  {
    y.(reqs := y.reqs[r := q])
  }

  function Next(y: Service, e: Event, ttl: int, capacity: int): Service {
    match e
    case Begin(id, names) => y.(reqs := y.reqs + [Start(y, id, names)])
    case Advance(r, now) =>
      if r < |y.reqs| && y.reqs[r].pc.Running? && |y.reqs[r].evidence| <= |y.reqs[r].routes|
      then Resume(y, r, now, ttl, capacity) else y
    case Reply(r, now, answer) =>
      if r < |y.reqs| && y.reqs[r].pc.Awaiting? && |y.reqs[r].evidence| < |y.reqs[r].routes|
      then Answered(y, r, now, answer, ttl, capacity) else y
  }

  // The top of the loop: the next route, or the end.
  function Resume(y: Service, r: nat, now: int, ttl: int, capacity: int): Service
    requires r < |y.reqs| && |y.reqs[r].evidence| <= |y.reqs[r].routes|
  {
    var q := y.reqs[r];
    var k := |q.evidence|;
    if k == |q.routes| then Update(y, r, q.(pc := Accepted(AllHits(q.evidence))))
    else
      var op := Get(now, q.id, q.routes[k].upstreamRepo);
      var z := y.(history := Step(y.history, op, ttl, capacity));
      if IsHit(y.history.cache, now, q.id, q.routes[k].upstreamRepo)
      then Update(z, r, q.(evidence := q.evidence + [ByHit(|y.history.log|)]))
      else
        var probe := Probe(r, q.id, q.routes[k].host, q.routes[k].upstreamRepo);
        Update(z, r, q.(pc := Awaiting)).(probes := y.probes + [probe])
  }

  // The probe came back.
  function Answered(y: Service, r: nat, now: int, answer: Answer, ttl: int, capacity: int): Service
    requires r < |y.reqs| && |y.reqs[r].evidence| < |y.reqs[r].routes|
  {
    var q := y.reqs[r];
    var route := q.routes[|q.evidence|];
    match answer
    case Ok(bearer) =>
      var z := y.(history := Step(y.history, Record(now, q.id, route.upstreamRepo, bearer), ttl, capacity),
                  oks := y.oks[|y.history.log| := Probe(r, q.id, route.host, route.upstreamRepo)]);
      Update(z, r, q.(evidence := q.evidence + [ByProbe(|y.history.log|)], pc := Running))
    case Refuse(reason) =>
      var h := if reason.Unauthorized? then Step(y.history, Invalidate(q.id), ttl, capacity) else y.history;
      Update(y.(history := h), r, q.(pc := Refused(reason)))
  }

  function Run(es: seq<Event>, ttl: int, capacity: int): Service {
    if es == [] then Service(History([], []), [], [], map[])
    else Next(Run(es[..|es| - 1], ttl, capacity), es[|es| - 1], ttl, capacity)
  }

  // ---- invariants ---------------------------------------------------------------------------

  // The log grows, and these are the only marks it can gain.
  lemma StepExtendsLog(h: History, op: Op, ttl: int, capacity: int)
    requires !op.RecordScope?
    ensures var g := Step(h, op, ttl, capacity).log;
      && |h.log| <= |g| && g[..|h.log|] == h.log
      && (op.Get? && IsHit(h.cache, op.t, op.id, op.repo) ==> g == h.log + [Hit(op.t, op.id, op.repo)])
      && (op.Record? ==> |g| > |h.log| && g[|h.log|] == Recorded(op.t, op.id, op.repo, op.bearer))
      && (forall i | |h.log| <= i < |g| ::
            g[i].Dropped? || (i == |h.log| && op.Record? && g[i].Recorded?)
            || (i == |h.log| && op.Get? && IsHit(h.cache, op.t, op.id, op.repo)))
  {
    if op.Record? && !Has(h.cache, op.id) {
      EvictDropsOnly(Inserted(h, op.t, ttl, op.id, op.repo, op.bearer), capacity);
    }
  }

  lemma {:induction false} EvictDropsOnly(h: History, capacity: int)
    ensures var g := EvictAll(h, capacity).log;
      |h.log| <= |g| && g[..|h.log|] == h.log && forall i | |h.log| <= i < |g| :: g[i].Dropped?
    decreases |h.cache|
  {
    if |h.cache| > Max(capacity, 0) { EvictDropsOnly(Drop(h, 0), capacity); }
  }

  // The log is accounted for: every record by a probe that was sent, of the same identity and
  // repository on the identity's host; every hit by such a record with no drop in between.
  ghost predicate Accounted(y: Service) {
    && (forall i | 0 <= i < |y.history.log| && y.history.log[i].Recorded? ::
          i in y.oks && y.oks[i].id == y.history.log[i].id && y.oks[i].repo == y.history.log[i].repo
          && Lower(y.oks[i].host) == Lower(y.oks[i].id.host) && y.oks[i] in y.probes)
    && (forall i | 0 <= i < |y.history.log| :: !y.history.log[i].Widened?)
    && (forall i | 0 <= i < |y.history.log| && y.history.log[i].Hit? ::
          Traced(y.history.log, i, y.history.log[i].id, y.history.log[i].repo))
  }

  // Some record of id and repo lies before position n with no drop of id in between.
  ghost predicate Traced(log: seq<Mark>, n: nat, id: Identity, repo: string) {
    exists i :: 0 <= i < n <= |log| && log[i].Recorded? && log[i].id == id && log[i].repo == repo
      && forall j | i < j < n :: !(log[j].Dropped? && log[j].id == id)
  }

  lemma {:induction false} ProvenIsTraced(log: seq<Mark>, id: Identity, repo: string)
    requires repo in Proven(log, id) && forall i | 0 <= i < |log| :: !log[i].Widened?
    ensures Traced(log, |log|, id, repo)
  {
    var n := |log| - 1;
    if !(log[n].Recorded? && log[n].id == id && log[n].repo == repo) {
      ProvenIsTraced(log[..n], id, repo);
      var i :| 0 <= i < n && log[..n][i].Recorded? && log[..n][i].id == id && log[..n][i].repo == repo
        && forall j | i < j < n :: !(log[..n][j].Dropped? && log[..n][j].id == id);
      assert log[i].Recorded? && forall j | i < j < n :: !(log[j].Dropped? && log[j].id == id) by {
        forall j | i < j < n ensures !(log[j].Dropped? && log[j].id == id) { assert log[..n][j] == log[j]; }
      }
    }
  }

  lemma TracedLater(log: seq<Mark>, more: seq<Mark>, n: nat, id: Identity, repo: string)
    requires Traced(log, n, id, repo) && |log| <= |more| && more[..|log|] == log
    ensures Traced(more, n, id, repo)
  {
    var i :| 0 <= i < n <= |log| && log[i].Recorded? && log[i].id == id && log[i].repo == repo
      && forall j | i < j < n :: !(log[j].Dropped? && log[j].id == id);
    assert forall j | 0 <= j < |log| :: more[j] == log[j];
  }

  // What is known of each piece of evidence of request r.
  ghost predicate Backed(y: Service, r: nat, q: Request, k: nat)
    requires k < |q.evidence| && k < |q.routes|
  {
    var at := q.evidence[k].at;
    && q.began <= at < |y.history.log|
    && y.history.log[at].id == q.id
    && (q.evidence[k].ByHit? ==> y.history.log[at].Hit? && y.history.log[at].repo == q.routes[k].upstreamRepo)
    && (q.evidence[k].ByProbe? ==>
          y.history.log[at].Recorded? && y.history.log[at].repo == q.routes[k].upstreamRepo
          && at in y.oks && y.oks[at].req == r)
  }

  // The probe that an awaiting request has sent for its next route.
  function Sent(r: nat, q: Request): Probe
    requires |q.evidence| < |q.routes|
  {
    Probe(r, q.id, q.routes[|q.evidence|].host, q.routes[|q.evidence|].upstreamRepo)
  }

  ghost predicate RequestInv(y: Service, r: nat, q: Request) {
    && q.began <= |y.history.log|
    && (q.routes != [] || q.pc != Refused(RouteMismatch) ==>
          q.names != [] && Routes(q.names, q.id.host) == Some(q.routes))
    && |q.evidence| <= |q.routes|
    && (q.pc.Awaiting? ==> |q.evidence| < |q.routes| && Sent(r, q) in y.probes)
    && (q.pc.Accepted? ==> |q.evidence| == |q.routes| && q.pc.cacheHit == AllHits(q.evidence))
    && forall k | 0 <= k < |q.evidence| :: Backed(y, r, q, k)
  }

  ghost predicate Inv(y: Service, ttl: int, capacity: int) {
    && Faithful(y.history, ttl) && |y.history.cache| <= Max(capacity, 0)
    && Accounted(y)
    && (forall r | 0 <= r < |y.reqs| :: RequestInv(y, r, y.reqs[r]))
    && (forall p | p in y.probes :: p.req < |y.reqs| && y.reqs[p.req].routes != [])
  }

  lemma {:induction false} RoutesAt(names: seq<string>, host: string, k: nat)
    requires Routes(names, host).Some? && k < |names|
    ensures var rs := Routes(names, host).value;
            |rs| == |names| && Routing.RouteMirrorRepo(names[k]) == Some(rs[k]) && MatchesHost(rs[k], host)
  {
    if k == 0 { RoutesLength(names, host); } else { RoutesAt(names[1..], host, k - 1); }
  }

  lemma {:induction false} RoutesLength(names: seq<string>, host: string)
    requires Routes(names, host).Some?
    ensures |Routes(names, host).value| == |names|
  {
    if names != [] { RoutesLength(names[1..], host); }
  }

  // The bookkeeping common to all events: z comes from y by one cache operation.
  ghost predicate Extends(y: Service, z: Service) {
    && |y.history.log| <= |z.history.log| && z.history.log[..|y.history.log|] == y.history.log
    && (forall i | i in y.oks && i < |y.history.log| :: i in z.oks && z.oks[i] == y.oks[i])
    && (forall p | p in y.probes :: p in z.probes)
  }

  // Requests are unaffected by what the others add.
  lemma BackedLater(y: Service, z: Service, r: nat, q: Request)
    requires RequestInv(y, r, q) && Extends(y, z)
    ensures RequestInv(z, r, q)
  {
    forall k | 0 <= k < |q.evidence| ensures Backed(z, r, q, k) {
      assert Backed(y, r, q, k);
      assert z.history.log[q.evidence[k].at] == y.history.log[q.evidence[k].at];
    }
  }

  lemma AccountedLater(y: Service, z: Service)
    requires Accounted(y) && Extends(y, z)
    requires forall i | |y.history.log| <= i < |z.history.log| && z.history.log[i].Recorded? ::
               i in z.oks && z.oks[i].id == z.history.log[i].id && z.oks[i].repo == z.history.log[i].repo
               && Lower(z.oks[i].host) == Lower(z.oks[i].id.host) && z.oks[i] in z.probes
    requires forall i | |y.history.log| <= i < |z.history.log| :: !z.history.log[i].Widened?
    requires forall i | |y.history.log| <= i < |z.history.log| && z.history.log[i].Hit? ::
               Traced(z.history.log, i, z.history.log[i].id, z.history.log[i].repo)
    ensures Accounted(z)
  {
    var n := |y.history.log|;
    assert forall i | 0 <= i < n :: z.history.log[i] == y.history.log[i];
    forall i | 0 <= i < |z.history.log| && z.history.log[i].Hit?
      ensures Traced(z.history.log, i, z.history.log[i].id, z.history.log[i].repo)
    {
      if i < n { TracedLater(y.history.log, z.history.log, i, y.history.log[i].id, y.history.log[i].repo); }
    }
  }

  lemma BeginKeepsInv(y: Service, id: Identity, names: seq<string>, ttl: int, capacity: int)
    requires Inv(y, ttl, capacity)
    ensures Inv(Next(y, Begin(id, names), ttl, capacity), ttl, capacity)
  {
    var z := Next(y, Begin(id, names), ttl, capacity);
    forall r | 0 <= r < |z.reqs| ensures RequestInv(z, r, z.reqs[r]) {
      if r < |y.reqs| { BackedLater(y, z, r, y.reqs[r]); }
    }
  }

  // Replacing one request in a service that extends an invariant one.
  lemma UpdateKeepsInv(y: Service, z: Service, r: nat, q: Request, ttl: int, capacity: int)
    requires Inv(y, ttl, capacity) && Extends(y, z) && Accounted(z)
    requires Faithful(z.history, ttl) && |z.history.cache| <= Max(capacity, 0)
    requires r < |y.reqs| && z.reqs == y.reqs[r := q] && q.routes == y.reqs[r].routes
    requires RequestInv(z, r, q)
    requires forall p | p in z.probes :: p in y.probes || (p.req == r && q.routes != [])
    ensures Inv(z, ttl, capacity)
  {
    forall j | 0 <= j < |z.reqs| ensures RequestInv(z, j, z.reqs[j]) {
      if j != r { BackedLater(y, z, j, y.reqs[j]); }
    }
  }

  lemma HitIsTraced(h: History, ttl: int, now: int, id: Identity, repo: string)
    requires Faithful(h, ttl) && IsHit(h.cache, now, id, repo) && forall i | 0 <= i < |h.log| :: !h.log[i].Widened?
    ensures Traced(h.log, |h.log|, id, repo)
  {
    assert EntryFaithful(h.cache[Index(h.cache, id)], h.log, ttl);
    ProvenIsTraced(h.log, id, repo);
  }

  // Moving to another pc with the same evidence.
  lemma PcChanged(z: Service, r: nat, q: Request, pc: Pc)
    requires RequestInv(z, r, q) && !q.pc.Refused? && pc != Refused(RouteMismatch)
    requires pc.Awaiting? ==> |q.evidence| < |q.routes| && Sent(r, q) in z.probes
    requires pc.Accepted? ==> |q.evidence| == |q.routes| && pc.cacheHit == AllHits(q.evidence)
    ensures RequestInv(z, r, q.(pc := pc))
  {
    forall k | 0 <= k < |q.evidence| ensures Backed(z, r, q.(pc := pc), k) { assert Backed(z, r, q, k); }
  }

  lemma EvidenceAdded(z: Service, r: nat, q: Request, e: Evidence)
    requires RequestInv(z, r, q) && |q.evidence| < |q.routes| && (q.pc.Running? || q.pc.Awaiting?)
    requires Backed(z, r, q.(evidence := q.evidence + [e], pc := Running), |q.evidence|)
    ensures RequestInv(z, r, q.(evidence := q.evidence + [e], pc := Running))
  {
    var q' := q.(evidence := q.evidence + [e], pc := Running);
    forall k | 0 <= k < |q'.evidence| ensures Backed(z, r, q', k) {
      if k < |q.evidence| { assert Backed(z, r, q, k); }
    }
  }

  lemma FinishKeepsInv(y: Service, r: nat, now: int, ttl: int, capacity: int)
    requires Inv(y, ttl, capacity) && r < |y.reqs| && y.reqs[r].pc.Running?
    requires |y.reqs[r].evidence| == |y.reqs[r].routes|
    ensures Inv(Resume(y, r, now, ttl, capacity), ttl, capacity)
  {
    var q, z := y.reqs[r], Resume(y, r, now, ttl, capacity);
    BackedLater(y, z, r, q);
    AccountedLater(y, z);
    PcChanged(z, r, q, Accepted(AllHits(q.evidence)));
    UpdateKeepsInv(y, z, r, z.reqs[r], ttl, capacity);
  }

  lemma HitKeepsInv(y: Service, r: nat, now: int, ttl: int, capacity: int)
    requires Inv(y, ttl, capacity) && r < |y.reqs| && y.reqs[r].pc.Running? && |y.reqs[r].evidence| < |y.reqs[r].routes|
    requires IsHit(y.history.cache, now, y.reqs[r].id, y.reqs[r].routes[|y.reqs[r].evidence|].upstreamRepo)
    ensures Inv(Resume(y, r, now, ttl, capacity), ttl, capacity)
  {
    var q, z := y.reqs[r], Resume(y, r, now, ttl, capacity);
    var op := Get(now, q.id, q.routes[|q.evidence|].upstreamRepo);
    StepExtendsLog(y.history, op, ttl, capacity);
    StepFaithful(y.history, op, ttl, capacity);
    HitIsTraced(y.history, ttl, now, q.id, op.repo);
    TracedLater(y.history.log, z.history.log, |y.history.log|, q.id, op.repo);
    AccountedLater(y, z);
    BackedLater(y, z, r, q);
    EvidenceAdded(z, r, q, ByHit(|y.history.log|));
    UpdateKeepsInv(y, z, r, z.reqs[r], ttl, capacity);
  }

  lemma MissKeepsInv(y: Service, r: nat, now: int, ttl: int, capacity: int)
    requires Inv(y, ttl, capacity) && r < |y.reqs| && y.reqs[r].pc.Running? && |y.reqs[r].evidence| < |y.reqs[r].routes|
    requires !IsHit(y.history.cache, now, y.reqs[r].id, y.reqs[r].routes[|y.reqs[r].evidence|].upstreamRepo)
    ensures Inv(Resume(y, r, now, ttl, capacity), ttl, capacity)
  {
    var q, z := y.reqs[r], Resume(y, r, now, ttl, capacity);
    var op := Get(now, q.id, q.routes[|q.evidence|].upstreamRepo);
    StepExtendsLog(y.history, op, ttl, capacity);
    StepFaithful(y.history, op, ttl, capacity);
    AccountedLater(y, z);
    BackedLater(y, z, r, q);
    PcChanged(z, r, q, Awaiting);
    UpdateKeepsInv(y, z, r, z.reqs[r], ttl, capacity);
  }

  lemma OkKeepsInv(y: Service, r: nat, now: int, bearer: string, ttl: int, capacity: int)
    requires Inv(y, ttl, capacity) && r < |y.reqs| && y.reqs[r].pc.Awaiting?
    ensures Inv(Answered(y, r, now, Ok(bearer), ttl, capacity), ttl, capacity)
  {
    var q, z := y.reqs[r], Answered(y, r, now, Ok(bearer), ttl, capacity);
    var op := Record(now, q.id, q.routes[|q.evidence|].upstreamRepo, bearer);
    StepExtendsLog(y.history, op, ttl, capacity);
    StepFaithful(y.history, op, ttl, capacity);
    RoutesLength(q.names, q.id.host);
    RoutesAt(q.names, q.id.host, |q.evidence|);
    AccountedLater(y, z);
    BackedLater(y, z, r, q);
    EvidenceAdded(z, r, q, ByProbe(|y.history.log|));
    UpdateKeepsInv(y, z, r, z.reqs[r], ttl, capacity);
  }

  lemma RefuseKeepsInv(y: Service, r: nat, now: int, reason: Reason, ttl: int, capacity: int)
    requires Inv(y, ttl, capacity) && r < |y.reqs| && y.reqs[r].pc.Awaiting? && !reason.RouteMismatch?
    ensures Inv(Answered(y, r, now, Refuse(reason), ttl, capacity), ttl, capacity)
  {
    var q, z := y.reqs[r], Answered(y, r, now, Refuse(reason), ttl, capacity);
    StepExtendsLog(y.history, Invalidate(q.id), ttl, capacity);
    StepFaithful(y.history, Invalidate(q.id), ttl, capacity);
    AccountedLater(y, z);
    BackedLater(y, z, r, q);
    PcChanged(z, r, q, Refused(reason));
    UpdateKeepsInv(y, z, r, z.reqs[r], ttl, capacity);
  }

  lemma NextKeepsInv(y: Service, e: Event, ttl: int, capacity: int)
    requires Inv(y, ttl, capacity) && Sensible(e)
    ensures Inv(Next(y, e, ttl, capacity), ttl, capacity)
  {
    match e
    case Begin(id, names) => BeginKeepsInv(y, id, names, ttl, capacity);
    case Advance(r, now) =>
      if r < |y.reqs| && y.reqs[r].pc.Running? {
        var q := y.reqs[r];
        assert RequestInv(y, r, q);
        if |q.evidence| == |q.routes| { FinishKeepsInv(y, r, now, ttl, capacity); }
        else if IsHit(y.history.cache, now, q.id, q.routes[|q.evidence|].upstreamRepo) {
          HitKeepsInv(y, r, now, ttl, capacity);
        }
        else { MissKeepsInv(y, r, now, ttl, capacity); }
      }
    case Reply(r, now, answer) =>
      if r < |y.reqs| && y.reqs[r].pc.Awaiting? {
        assert RequestInv(y, r, y.reqs[r]);
        if answer.Ok? { OkKeepsInv(y, r, now, answer.bearer, ttl, capacity); }
        else { RefuseKeepsInv(y, r, now, answer.reason, ttl, capacity); }
      }
  }

  // A probe answers ok, unauthorized, unreachable or unsupported.
  predicate Sensible(e: Event) {
    e.Reply? && e.answer.Refuse? ==> !e.answer.reason.RouteMismatch?
  }

  lemma {:induction false} RunKeepsInv(es: seq<Event>, ttl: int, capacity: int)
    requires forall e | e in es :: Sensible(e)
    ensures Inv(Run(es, ttl, capacity), ttl, capacity)
  {
    if es != [] {
      assert es[|es| - 1] in es;
      RunKeepsInv(es[..|es| - 1], ttl, capacity);
      NextKeepsInv(Run(es[..|es| - 1], ttl, capacity), es[|es| - 1], ttl, capacity);
    }
  }

  // ---- what an accepted request rests on ------------------------------------------------------

  // i is the position of the record, made from a probe that answered ok, that the k-th piece
  // of evidence of request r rests on.
  ghost predicate RestsOn(y: Service, r: nat, q: Request, k: nat, i: nat)
    requires k < |q.evidence| && k < |q.routes|
  {
    var at := q.evidence[k].at;
    && i <= at <= |y.history.log| && i in y.oks && y.oks[i] in y.probes
    && y.oks[i].id == q.id && y.oks[i].repo == q.routes[k].upstreamRepo && MatchesHost(q.routes[k], y.oks[i].host)
    && (q.evidence[k].ByProbe? ==> i == at && y.oks[i].req == r)
    && (forall j | i < j < at :: !(y.history.log[j].Dropped? && y.history.log[j].id == q.id))
  }

  lemma FindSource(y: Service, r: nat, k: nat) returns (i: nat)
    requires Accounted(y) && r < |y.reqs| && k < |y.reqs[r].evidence| && k < |y.reqs[r].routes|
    requires Backed(y, r, y.reqs[r], k) && MatchesHost(y.reqs[r].routes[k], y.reqs[r].id.host)
    ensures RestsOn(y, r, y.reqs[r], k, i)
  {
    var q := y.reqs[r];
    var log, at := y.history.log, q.evidence[k].at;
    if q.evidence[k].ByProbe? {
      i := at;
    } else {
      assert Traced(log, at, log[at].id, log[at].repo);
      i :| 0 <= i < at && log[i].Recorded? && log[i].id == q.id && log[i].repo == q.routes[k].upstreamRepo
        && forall j | i < j < at :: !(log[j].Dropped? && log[j].id == q.id);
    }
  }

  // In every interleaving: each name of an accepted request routes to the envelope's host, and
  // since the request began its repository was either probed ok by this very request or found
  // in the cache, where it had been recorded, with no drop since, from a probe of the same
  // credentials and repository on the same host.  cacheHit says that no probe was needed.
  lemma ProofSoundness(es: seq<Event>, ttl: int, capacity: int, r: nat, k: nat)
    requires forall e | e in es :: Sensible(e)
    requires var y := Run(es, ttl, capacity);
             r < |y.reqs| && y.reqs[r].pc.Accepted? && k < |y.reqs[r].names|
    ensures var y := Run(es, ttl, capacity); var q := y.reqs[r];
      && |q.evidence| == |q.routes| == |q.names|
      && Routing.RouteMirrorRepo(q.names[k]) == Some(q.routes[k]) && MatchesHost(q.routes[k], q.id.host)
      && q.began <= q.evidence[k].at < |y.history.log|
      && (q.pc.cacheHit <==> AllHits(q.evidence))
      && exists i :: RestsOn(y, r, q, k, i)
  {
    var y := Run(es, ttl, capacity);
    RunKeepsInv(es, ttl, capacity);
    assert RequestInv(y, r, y.reqs[r]);
    RoutesLength(y.reqs[r].names, y.reqs[r].id.host);
    RoutesAt(y.reqs[r].names, y.reqs[r].id.host, k);
    assert Backed(y, r, y.reqs[r], k);
    var i := FindSource(y, r, k);
  }

  // A scope that does not route, or routes elsewhere, costs no probe at all.
  lemma BadScopeSendsNoProbe(es: seq<Event>, ttl: int, capacity: int, r: nat)
    requires forall e | e in es :: Sensible(e)
    requires var y := Run(es, ttl, capacity);
             r < |y.reqs| && (y.reqs[r].names == [] || Routes(y.reqs[r].names, y.reqs[r].id.host).None?)
    ensures var y := Run(es, ttl, capacity);
      y.reqs[r].pc == Refused(RouteMismatch) && forall p | p in y.probes :: p.req != r
  {
    RunKeepsInv(es, ttl, capacity);
    var y := Run(es, ttl, capacity);
    assert RequestInv(y, r, y.reqs[r]);
  }

  // One letter, whatever its case; the Kelvin sign counts as a k.
  predicate SameLetter(a: char, b: char) {
    || a == b
    || ('A' <= a <= 'Z' && b as int == a as int + 32) || ('A' <= b <= 'Z' && a as int == b as int + 32)
    || {a, b} <= {'k', 'K', '\U{212A}'}
  }

  // The envelope names the host, letter by letter.
  predicate NamesHost(envelopeHost: string, host: string) {
    |envelopeHost| == |host| && forall i | 0 <= i < |host| :: SameLetter(host[i], envelopeHost[i])
  }

  lemma LowerMeansSameLetter(a: char, b: char)
    ensures LowerChar(a) == LowerChar(b) <==> SameLetter(a, b)
  {}

  lemma MatchingMeansNaming(route: Routing.Route, envelopeHost: string)
    ensures MatchesHost(route, envelopeHost) <==> NamesHost(envelopeHost, route.host)
  {
    var a, b := route.host, envelopeHost;
    forall i | 0 <= i < |a| && i < |b|
      ensures Lower(a)[i] == Lower(b)[i] <==> SameLetter(a[i], b[i])
    {
      LowerMeansSameLetter(a[i], b[i]);
    }
    if MatchesHost(route, b) {
      assert |a| == |Lower(a)| == |Lower(b)| == |b|;
    }
  }

  lemma LowerOfHosts(host: string)
    requires host in Routing.HOSTS
    ensures forall i | 0 <= i < |host| :: !('A' <= host[i] <= 'Z') && host[i] != '\U{212A}'
  {}

  // An envelope names at most one of the hosts.
  lemma OneHostNamed(envelopeHost: string, a: string, b: string)
    requires a in Routing.HOSTS && b in Routing.HOSTS && NamesHost(envelopeHost, a) && NamesHost(envelopeHost, b)
    ensures a == b
  {
    LowerOfHosts(a);
    LowerOfHosts(b);
    forall i | 0 <= i < |a|
      ensures a[i] == b[i]
    {
      assert SameLetter(a[i], envelopeHost[i]) && SameLetter(b[i], envelopeHost[i]);
    }
  }

  // Every name of an accepted request routes to the one known host that its envelope names.
  lemma AcceptedHost(es: seq<Event>, ttl: int, capacity: int, r: nat, k: nat)
    requires forall e | e in es :: Sensible(e)
    requires var y := Run(es, ttl, capacity);
             r < |y.reqs| && y.reqs[r].pc.Accepted? && k < |y.reqs[r].names|
    ensures var q := Run(es, ttl, capacity).reqs[r];
      && Routing.RouteMirrorRepo(q.names[k]).Some?
      && var host := Routing.RouteMirrorRepo(q.names[k]).value.host;
         && host in Routing.HOSTS && NamesHost(q.id.host, host)
         && forall other | other in Routing.HOSTS && NamesHost(q.id.host, other) :: other == host
  {
    ProofSoundness(es, ttl, capacity, r, k);
    var q := Run(es, ttl, capacity).reqs[r];
    Routing.RoutedHostIsKnown(q.names[k]);
    MatchingMeansNaming(q.routes[k], q.id.host);
    forall other | other in Routing.HOSTS && NamesHost(q.id.host, other)
      ensures other == q.routes[k].host
    {
      OneHostNamed(q.id.host, other, q.routes[k].host);
    }
  }

  // A request with one name that routes nowhere, or to a host that its envelope does not name, is
  // refused and sends no probe, whatever its other names.
  lemma OtherHostSendsNoProbe(es: seq<Event>, ttl: int, capacity: int, r: nat, name: string)
    requires forall e | e in es :: Sensible(e)
    requires r < |Run(es, ttl, capacity).reqs| && name in Run(es, ttl, capacity).reqs[r].names
    requires var route := Routing.RouteMirrorRepo(name);
             route.None? || !NamesHost(Run(es, ttl, capacity).reqs[r].id.host, route.value.host)
    ensures var y := Run(es, ttl, capacity);
      y.reqs[r].pc == Refused(RouteMismatch) && forall p | p in y.probes :: p.req != r
  {
    var q := Run(es, ttl, capacity).reqs[r];
    RoutesNeedAll(q.names, q.id.host, name);
    BadScopeSendsNoProbe(es, ttl, capacity, r);
  }

  lemma {:induction false} RoutesNeedAll(names: seq<string>, host: string, name: string)
    requires name in names
    requires Routing.RouteMirrorRepo(name).None? || !NamesHost(host, Routing.RouteMirrorRepo(name).value.host)
    ensures Routes(names, host).None?
  {
    if names[0] == name {
      if Routing.RouteMirrorRepo(name).Some? { MatchingMeansNaming(Routing.RouteMirrorRepo(name).value, host); }
    } else {
      RoutesNeedAll(names[1..], host, name);
    }
  }

  // An unauthorized answer removes exactly the identity's entry, the others keeping content and order;
  // the other refusals touch nothing.
  lemma RefusalEffects(es: seq<Event>, ttl: int, capacity: int, r: nat, now: int, reason: Reason)
    requires forall e | e in es :: Sensible(e)
    requires var y := Run(es, ttl, capacity); r < |y.reqs| && y.reqs[r].pc.Awaiting?
    ensures var y := Run(es, ttl, capacity); var z := Next(y, Reply(r, now, Refuse(reason)), ttl, capacity);
      && z.reqs[r].pc == Refused(reason)
      && (reason.Unauthorized? ==> z.history.cache == Others(y.history.cache, y.reqs[r].id))
      && (reason.Unauthorized? ==> !Has(z.history.cache, y.reqs[r].id))
      && (forall id | id != y.reqs[r].id || !reason.Unauthorized? ::
            Has(z.history.cache, id) == Has(y.history.cache, id))
      && (!reason.Unauthorized? ==> z.history == y.history)
  {
    RunKeepsInv(es, ttl, capacity);
    var y := Run(es, ttl, capacity);
    var q := y.reqs[r];
    assert RequestInv(y, r, q);
    var k := Index(y.history.cache, q.id);
    if k < |y.history.cache| {
      OthersOfPresent(y.history.cache, k);
      forall id
        ensures Has(Without(y.history.cache, k), id) <==> id != q.id && Has(y.history.cache, id)
      {
        HasWithout(y.history.cache, k, id);
      }
    } else {
      OthersOfAbsent(y.history.cache, q.id);
    }
  }

  // ---- how long a proof is served ------------------------------------------------------------

  // Four events of one request: it starts, asks the cache, gets an ok from its probe, and finishes.
  function Probed(y: Service, id: Identity, name: string, t: int, ttl: int, capacity: int): Service {
    var r := |y.reqs|;
    var asked := Next(Next(y, Begin(id, [name]), ttl, capacity), Advance(r, t), ttl, capacity);
    Next(Next(asked, Reply(r, t, Ok("")), ttl, capacity), Advance(r, t), ttl, capacity)
  }

  // Requests of one identity, one after the other, every so many milliseconds, each for another
  // repository.
  function Sequential(id: Identity, names: seq<string>, every: int): seq<Event> {
    if names == [] then []
    else
      var r := |names| - 1;
      var asked := Sequential(id, names[..r], every) + [Begin(id, [names[r]])] + [Advance(r, r * every)];
      asked + [Reply(r, r * every, Ok(""))] + [Advance(r, r * every)]
  }

  function UpstreamRepo(name: string): string {
    match Routing.RouteMirrorRepo(name)
    case None => ""
    case Some(route) => route.upstreamRepo
  }

  function Repos(names: seq<string>): set<string> { set n | n in names :: UpstreamRepo(n) }

  // Every name routes to the identity's host, each to a repository of its own.
  ghost predicate Apart(id: Identity, names: seq<string>) {
    && (forall n | n in names :: Routes([n], id.host).Some?)
    && forall i, j | 0 <= i < j < |names| :: UpstreamRepo(names[i]) != UpstreamRepo(names[j])
  }

  lemma RunStep(es: seq<Event>, e: Event, ttl: int, capacity: int)
    ensures Run(es + [e], ttl, capacity) == Next(Run(es, ttl, capacity), e, ttl, capacity)
  {
    assert (es + [e])[..|es|] == es;
  }

  lemma RunSequential(id: Identity, names: seq<string>, every: int, ttl: int, capacity: int)
    requires names != []
    requires |Run(Sequential(id, names[..|names| - 1], every), ttl, capacity).reqs| == |names| - 1
    ensures Run(Sequential(id, names, every), ttl, capacity) ==
            Probed(Run(Sequential(id, names[..|names| - 1], every), ttl, capacity),
                   id, names[|names| - 1], (|names| - 1) * every, ttl, capacity)
  {
    var r := |names| - 1;
    var t := r * every;
    var e0 := Sequential(id, names[..r], every);
    var e1 := e0 + [Begin(id, [names[r]])];
    var e2 := e1 + [Advance(r, t)];
    var e3 := e2 + [Reply(r, t, Ok(""))];
    RunStep(e0, Begin(id, [names[r]]), ttl, capacity);
    RunStep(e1, Advance(r, t), ttl, capacity);
    RunStep(e2, Reply(r, t, Ok("")), ttl, capacity);
    RunStep(e3, Advance(r, t), ttl, capacity);
  }

  lemma StartOne(y: Service, id: Identity, name: string)
    requires Routes([name], id.host).Some?
    ensures var route := Routing.RouteMirrorRepo(name);
            route.Some? && Start(y, id, [name]) == Request(id, [name], [route.value], |y.history.log|, [], Running)
  {
    assert Routes([name][1..], id.host) == Some([]);
  }

  // A request that misses, is probed successfully and finishes.
  lemma ProbedRequest(y: Service, id: Identity, name: string, t: int, ttl: int, capacity: int)
    requires Routes([name], id.host).Some? && !IsHit(y.history.cache, t, id, UpstreamRepo(name))
    ensures var z := Probed(y, id, name, t, ttl, capacity);
            && |z.reqs| == |y.reqs| + 1 && z.reqs[|y.reqs|].pc == Accepted(false)
            && z.history == Step(Step(y.history, Get(t, id, UpstreamRepo(name)), ttl, capacity),
                                 Record(t, id, UpstreamRepo(name), ""), ttl, capacity)
  {
    var r := |y.reqs|;
    var q := Start(y, id, [name]);
    StartOne(y, id, name);
    var y1 := Next(y, Begin(id, [name]), ttl, capacity);
    assert y1.reqs[r] == q && y1.history == y.history;
    var y2 := Next(y1, Advance(r, t), ttl, capacity);
    assert y2 == Resume(y1, r, t, ttl, capacity);
    assert y2.reqs[r] == q.(pc := Awaiting);
    var y3 := Next(y2, Reply(r, t, Ok("")), ttl, capacity);
    var e := ByProbe(|y2.history.log|);
    assert y3.reqs[r] == q.(pc := Running, evidence := [] + [e]);
    assert e in y3.reqs[r].evidence && !AllHits(y3.reqs[r].evidence);
  }

  lemma LaterRequest(e: Entry, t: int, repo: string, ttl: int, capacity: int, log: seq<Mark>)
    requires t < e.expiresAt && repo !in e.repos
    ensures !IsHit([e], t, e.identity, repo)
    ensures Step(Step(History([e], log), Get(t, e.identity, repo), ttl, capacity),
                 Record(t, e.identity, repo, ""), ttl, capacity).cache
            == [e.(repos := e.repos + {repo}, bearer := "", expiresAt := t + ttl)]
  {
    assert Without([e], 0) == [];
  }

  lemma FirstRequest(id: Identity, t: int, repo: string, ttl: int, capacity: int, log: seq<Mark>)
    requires 0 < capacity
    ensures !IsHit([], t, id, repo)
    ensures Step(Step(History([], log), Get(t, id, repo), ttl, capacity), Record(t, id, repo, ""), ttl, capacity).cache
            == [Entry(id, t, t + ttl, "", {repo})]
  {}

  lemma ReposStep(init: seq<string>, name: string)
    ensures Repos(init + [name]) == Repos(init) + {UpstreamRepo(name)}
    ensures (forall i | 0 <= i < |init| :: UpstreamRepo(init[i]) != UpstreamRepo(name)) ==>
              UpstreamRepo(name) !in Repos(init)
  {}

  lemma NextKeepsEntry(y: Service, id: Identity, name: string, e: Entry, t: int, ttl: int, capacity: int)
    requires y.history.cache == [e] && e.identity == id && t < e.expiresAt && UpstreamRepo(name) !in e.repos
    requires Routes([name], id.host).Some?
    ensures var z := Probed(y, id, name, t, ttl, capacity);
            && |z.reqs| == |y.reqs| + 1 && z.reqs[|y.reqs|].pc == Accepted(false)
            && z.history.cache == [e.(repos := e.repos + {UpstreamRepo(name)}, bearer := "", expiresAt := t + ttl)]
  {
    LaterRequest(e, t, UpstreamRepo(name), ttl, capacity, y.history.log);
    ProbedRequest(y, id, name, t, ttl, capacity);
  }

  lemma FirstKeepsEntry(y: Service, id: Identity, name: string, t: int, ttl: int, capacity: int)
    requires y.history.cache == [] && Routes([name], id.host).Some? && 0 < capacity
    ensures var z := Probed(y, id, name, t, ttl, capacity);
            && |z.reqs| == |y.reqs| + 1 && z.reqs[|y.reqs|].pc == Accepted(false)
            && z.history.cache == [Entry(id, t, t + ttl, "", {UpstreamRepo(name)})]
  {
    FirstRequest(id, t, UpstreamRepo(name), ttl, capacity, y.history.log);
    ProbedRequest(y, id, name, t, ttl, capacity);
  }

  lemma ApartInit(id: Identity, init: seq<string>, name: string)
    requires Apart(id, init + [name])
    ensures Apart(id, init) && Routes([name], id.host).Some? && UpstreamRepo(name) !in Repos(init)
  {
    var names := init + [name];
    assert forall n | n in init :: n in names;
    assert name in names && names[|init|] == name;
    assert forall i | 0 <= i < |init| :: names[i] == init[i];
    ReposStep(init, name);
  }

  // The one entry of the cache after the requests for these names.
  function OneEntry(id: Identity, names: seq<string>, every: int, ttl: int): Entry {
    Entry(id, 0, (|names| - 1) * every + ttl, "", Repos(names))
  }

  predicate HoldsOne(y: Service, id: Identity, names: seq<string>, every: int, ttl: int) {
    && names != [] && |y.reqs| == |names| && y.reqs[|names| - 1].pc == Accepted(false)
    && y.history.cache == [OneEntry(id, names, every, ttl)]
  }

  lemma FirstProbed(y: Service, id: Identity, name: string, every: int, ttl: int, capacity: int)
    requires y.history.cache == [] && y.reqs == [] && Routes([name], id.host).Some? && 0 < capacity
    ensures HoldsOne(Probed(y, id, name, 0, ttl, capacity), id, [name], every, ttl)
  {
    assert Repos([name]) == {UpstreamRepo(name)};
    assert (|[name]| - 1) * every == 0;
    FirstKeepsEntry(y, id, name, 0, ttl, capacity);
  }

  lemma SequentialFirst(id: Identity, name: string, every: int, ttl: int, capacity: int)
    requires Apart(id, [name]) && 0 < capacity
    ensures HoldsOne(Run(Sequential(id, [name], every), ttl, capacity), id, [name], every, ttl)
  {
    assert [name][..0] == [] && name in [name];
    FirstProbed(Run([], ttl, capacity), id, name, every, ttl, capacity);
    assert 0 * every == 0;
    RunSequential(id, [name], every, ttl, capacity);
  }

  lemma OneMoreProbed(y: Service, id: Identity, init: seq<string>, name: string, every: int, ttl: int, capacity: int)
    requires HoldsOne(y, id, init, every, ttl) && Apart(id, init + [name]) && 0 <= every < ttl
    ensures HoldsOne(Probed(y, id, name, |init| * every, ttl, capacity), id, init + [name], every, ttl)
  {
    ApartInit(id, init, name);
    ReposStep(init, name);
    assert (|init| - 1) * every + every == |init| * every;
    NextKeepsEntry(y, id, name, OneEntry(id, init, every, ttl), |init| * every, ttl, capacity);
  }

  // None of the names is in the cache when it is asked for, so each is probed and renews the entry.
  lemma {:induction false} SequentialKeepsEntry(id: Identity, names: seq<string>, every: int, ttl: int, capacity: int)
    requires names != [] && Apart(id, names) && 0 <= every < ttl && 0 < capacity
    ensures HoldsOne(Run(Sequential(id, names, every), ttl, capacity), id, names, every, ttl)
  {
    var r := |names| - 1;
    var init, name := names[..r], names[r];
    assert names == init + [name];
    if r == 0 {
      SequentialFirst(id, name, every, ttl, capacity);
    } else {
      ApartInit(id, init, name);
      SequentialKeepsEntry(id, init, every, ttl, capacity);
      OneMoreProbed(Run(Sequential(id, init, every), ttl, capacity), id, init, name, every, ttl, capacity);
      RunSequential(id, names, every, ttl, capacity);
    }
  }

  // A request that hits is accepted without a probe.
  lemma HitRequest(y: Service, id: Identity, name: string, t: int, ttl: int, capacity: int)
    requires Routes([name], id.host).Some? && IsHit(y.history.cache, t, id, UpstreamRepo(name))
    ensures var r := |y.reqs|;
            var asked := Next(Next(y, Begin(id, [name]), ttl, capacity), Advance(r, t), ttl, capacity);
            var z := Next(asked, Advance(r, t), ttl, capacity);
            |z.reqs| == r + 1 && z.reqs[r].pc == Accepted(true) && z.probes == y.probes
  {
    var r := |y.reqs|;
    var q := Start(y, id, [name]);
    StartOne(y, id, name);
    var y1 := Next(y, Begin(id, [name]), ttl, capacity);
    assert y1.reqs[r] == q && y1.history == y.history;
    var y2 := Next(y1, Advance(r, t), ttl, capacity);
    assert y2.reqs[r] == q.(evidence := [] + [ByHit(|y.history.log|)]);
  }

  // A proof is served however old it is: after such a run the first name, probed at time 0 and never
  // again, is accepted from the cache without a probe at the time of the last request.
  lemma OldProofIsServed(id: Identity, names: seq<string>, every: int, ttl: int, capacity: int)
    requires names != [] && Apart(id, names) && 0 <= every < ttl && 0 < capacity
    ensures var y := Run(Sequential(id, names, every), ttl, capacity);
            var r, t := |y.reqs|, (|names| - 1) * every;
            var asked := Next(Next(y, Begin(id, [names[0]]), ttl, capacity), Advance(r, t), ttl, capacity);
            var z := Next(asked, Advance(r, t), ttl, capacity);
            |z.reqs| == r + 1 && z.reqs[r].pc == Accepted(true) && z.probes == y.probes
  {
    SequentialKeepsEntry(id, names, every, ttl, capacity);
    assert names[0] in names && UpstreamRepo(names[0]) in Repos(names);
    HitRequest(Run(Sequential(id, names, every), ttl, capacity), id, names[0], (|names| - 1) * every, ttl, capacity);
  }
}
