// The proof-of-access cache (auth/src/upstreamAuth/proofCache.ts): an LRU with a TTL kept in
// the insertion order of a JavaScript Map.  The class ProofCache is the code; History below
// is its meaning: the entries from least to most recently used, and the log of everything
// that happened.  LastTouch, Live and Proven say, from the log alone, what the cache must hold.
module ProofCache {
  import opened Options

  // Stands for credIdentity, the SHA-256 of host, username and password, taken as injective.
  datatype Identity = Identity(host: string, username: string, password: string)

  datatype Entry = Entry(identity: Identity, provenAt: int, expiresAt: int, bearer: string, repos: set<string>)

  // Recorded: a successful probe was stored; Widened: recordScope added a repository;
  // Hit: get returned the proof; Dropped: the entry was removed, for whatever reason.
  datatype Mark =
    | Recorded(t: int, id: Identity, repo: string, bearer: string)
    | Widened(id: Identity, repo: string)
    | Hit(t: int, id: Identity, repo: string)
    | Dropped(id: Identity)

  datatype History = History(cache: seq<Entry>, log: seq<Mark>)

  datatype Op =
    | Get(t: int, id: Identity, repo: string)
    | Record(t: int, id: Identity, repo: string, bearer: string)
    | RecordScope(id: Identity, repo: string)
    | Invalidate(id: Identity)

  // ---- the entries as a list, least recently used first --------------------------------

  function Index(cache: seq<Entry>, id: Identity): (k: nat)
    ensures k <= |cache|
    ensures k < |cache| ==> cache[k].identity == id
    ensures forall j | 0 <= j < k :: cache[j].identity != id
  {
    if cache == [] || cache[0].identity == id then 0 else 1 + Index(cache[1..], id)
  }

  predicate Has(cache: seq<Entry>, id: Identity) { Index(cache, id) < |cache| }

  function Without(cache: seq<Entry>, k: nat): seq<Entry>
    requires k < |cache|
  {
    cache[..k] + cache[k + 1..]
  }

  function Max(a: int, b: int): int { if a < b then b else a }

  // ---- one operation -------------------------------------------------------------------

  function Drop(h: History, k: nat): History
    requires k < |h.cache|
  {
    History(Without(h.cache, k), h.log + [Dropped(h.cache[k].identity)])
  }

  // Move entry k to the most recent end, replaced by e, and note why.
  function Renew(h: History, k: nat, e: Entry, m: Mark): History
    requires k < |h.cache|
  {
    History(Without(h.cache, k) + [e], h.log + [m])
  }

  function Inserted(h: History, t: int, ttl: int, id: Identity, repo: string, bearer: string): History {
    History(h.cache + [Entry(id, t, t + ttl, bearer, {repo})], h.log + [Recorded(t, id, repo, bearer)])
  }

  // The entry that `record` leaves behind when one was there already.
  function Refreshed(e: Entry, t: int, ttl: int, repo: string, bearer: string): Entry {
    e.(repos := e.repos + {repo}, bearer := bearer, expiresAt := t + ttl)
  }

  function EvictAll(h: History, capacity: int): History
    decreases |h.cache|
  {
    if |h.cache| > Max(capacity, 0) then EvictAll(Drop(h, 0), capacity) else h
  }

  predicate IsHit(cache: seq<Entry>, t: int, id: Identity, repo: string) {
    var k := Index(cache, id);
    k < |cache| && t < cache[k].expiresAt && repo in cache[k].repos
  }

  function Step(h: History, op: Op, ttl: int, capacity: int): History {
    var k := Index(h.cache, op.id);
    var found := k < |h.cache|;
    match op
    case Get(t, id, repo) =>
      if !found then h
      else if t >= h.cache[k].expiresAt then Drop(h, k)
      else if repo !in h.cache[k].repos then h
      else Renew(h, k, h.cache[k], Hit(t, id, repo))
    case Record(t, id, repo, bearer) =>
      if found then
        Renew(h, k, Refreshed(h.cache[k], t, ttl, repo, bearer), Recorded(t, id, repo, bearer))
      else
        EvictAll(Inserted(h, t, ttl, id, repo, bearer), capacity)
    case RecordScope(id, repo) =>
      if !found then h
      else History(h.cache[k := h.cache[k].(repos := h.cache[k].repos + {repo})], h.log + [Widened(id, repo)])
    case Invalidate(id) =>
      if found then Drop(h, k) else h
  }

  function Run(ops: seq<Op>, ttl: int, capacity: int): History {
    if ops == [] then History([], [])
    else Step(Run(ops[..|ops| - 1], ttl, capacity), ops[|ops| - 1], ttl, capacity)
  }

  // ---- what the log says ---------------------------------------------------------------

  // The position of the last hit or record of id.
  function LastTouch(log: seq<Mark>, id: Identity): int {
    if log == [] then -1
    else
      var m := log[|log| - 1];
      if (m.Recorded? || m.Hit?) && m.id == id then |log| - 1 else LastTouch(log[..|log| - 1], id)
  }

  datatype Last = Last(t: int, bearer: string)

  // The last record of id since its entry was last dropped.
  function Live(log: seq<Mark>, id: Identity): Option<Last> {
    if log == [] then None
    else
      var m := log[|log| - 1];
      if m.id == id && m.Recorded? then Some(Last(m.t, m.bearer))
      else if m.id == id && m.Dropped? then None
      else Live(log[..|log| - 1], id)
  }

  // The repositories recorded or widened for id since its entry was last dropped.
  function Proven(log: seq<Mark>, id: Identity): set<string> {
    if log == [] then {}
    else
      var m := log[|log| - 1];
      var before := Proven(log[..|log| - 1], id);
      if m.id != id || m.Hit? then before
      else if m.Dropped? then {}
      else before + {m.repo}
  }

  // The cache is what the log says: for each identity its last record since the last drop,
  // in the order in which the identities were last touched.
  ghost predicate Faithful(h: History, ttl: int) {
    Distinct(h.cache) && ByRecency(h.cache, h.log) && SameLive(h.cache, h.log) && EntriesFaithful(h.cache, h.log, ttl)
  }

  ghost predicate Distinct(cache: seq<Entry>) {
    forall i, j | 0 <= i < j < |cache| :: cache[i].identity != cache[j].identity
  }

  ghost predicate ByRecency(cache: seq<Entry>, log: seq<Mark>) {
    forall i, j | 0 <= i < j < |cache| :: LastTouch(log, cache[i].identity) < LastTouch(log, cache[j].identity)
  }

  ghost predicate SameLive(cache: seq<Entry>, log: seq<Mark>) {
    && (forall id :: Live(log, id).Some? <==> Has(cache, id))
    && (forall id :: Live(log, id).None? ==> Proven(log, id) == {})
  }

  ghost predicate EntriesFaithful(cache: seq<Entry>, log: seq<Mark>, ttl: int) {
    forall k | 0 <= k < |cache| :: EntryFaithful(cache[k], log, ttl)
  }

  ghost predicate EntryFaithful(e: Entry, log: seq<Mark>, ttl: int) {
    var r := Live(log, e.identity);
    && r.Some? && e.bearer == r.value.bearer && e.expiresAt == r.value.t + ttl
    && e.repos == Proven(log, e.identity)
  }

  // The entries of all other identities, in their order.
  function Others(cache: seq<Entry>, id: Identity): seq<Entry> {
    if cache == [] then []
    else (if cache[0].identity == id then [] else [cache[0]]) + Others(cache[1..], id)
  }

  lemma {:induction false} OthersOfAbsent(cache: seq<Entry>, id: Identity)
    requires forall e | e in cache :: e.identity != id
    ensures Others(cache, id) == cache
  {
    if cache != [] {
      assert cache[0] in cache && forall e | e in cache[1..] :: e in cache;
      OthersOfAbsent(cache[1..], id);
    }
  }

  lemma {:induction false} OthersOfPresent(cache: seq<Entry>, k: nat)
    requires Distinct(cache) && k < |cache|
    ensures Others(cache, cache[k].identity) == Without(cache, k)
  {
    var id := cache[k].identity;
    if k == 0 {
      OthersOfAbsent(cache[1..], id);
    } else {
      OthersOfPresent(cache[1..], k - 1);
      assert Without(cache, k) == [cache[0]] + Without(cache[1..], k - 1);
    }
  }

  // ---- the operations in the entries' own terms -------------------------------------------

  predicate Absent(cache: seq<Entry>, id: Identity) { forall e | e in cache :: e.identity != id }

  lemma AbsentHasNot(cache: seq<Entry>, id: Identity)
    requires Absent(cache, id)
    ensures !Has(cache, id)
  {}

  lemma FoundAt(cache: seq<Entry>, e: Entry)
    requires Distinct(cache) && e in cache
    ensures Has(cache, e.identity) && cache[Index(cache, e.identity)] == e
    ensures Without(cache, Index(cache, e.identity)) == Others(cache, e.identity)
  {
    var k :| 0 <= k < |cache| && cache[k] == e;
    OthersOfPresent(cache, k);
  }

  // get: an expired entry goes, another repository's lookup changes nothing, and a hit moves the entry
  // to the end.
  lemma GetInWords(h: History, t: int, repo: string, ttl: int, capacity: int, e: Entry)
    requires Distinct(h.cache) && e in h.cache
    ensures Step(h, Get(t, e.identity, repo), ttl, capacity) ==
            if t >= e.expiresAt then History(Others(h.cache, e.identity), h.log + [Dropped(e.identity)])
            else if repo !in e.repos then h
            else History(Others(h.cache, e.identity) + [e], h.log + [Hit(t, e.identity, repo)])
    ensures IsHit(h.cache, t, e.identity, repo) <==> t < e.expiresAt && repo in e.repos
  {
    FoundAt(h.cache, e);
  }

  // record of a known identity: the entry moves to the end, with one repository more, the new bearer
  // and a renewed expiry; the time of its first proof stays.
  lemma RecordKnownInWords(h: History, t: int, repo: string, bearer: string, ttl: int, capacity: int, e: Entry)
    requires Distinct(h.cache) && e in h.cache
    ensures Step(h, Record(t, e.identity, repo, bearer), ttl, capacity) ==
            History(Others(h.cache, e.identity) + [Entry(e.identity, e.provenAt, t + ttl, bearer, e.repos + {repo})],
                    h.log + [Recorded(t, e.identity, repo, bearer)])
  {
    FoundAt(h.cache, e);
  }

  function Drops(cache: seq<Entry>): seq<Mark> {
    seq(|cache|, i requires 0 <= i < |cache| => Dropped(cache[i].identity))
  }

  // What stands before the last capacity entries is evicted, in order.
  lemma {:induction false} EvictInWords(h: History, capacity: int)
    ensures var n := if |h.cache| > Max(capacity, 0) then |h.cache| - Max(capacity, 0) else 0;
            EvictAll(h, capacity) == History(h.cache[n..], h.log + Drops(h.cache[..n]))
    decreases |h.cache|
  {
    if |h.cache| > Max(capacity, 0) {
      var n := |h.cache| - Max(capacity, 0);
      EvictInWords(Drop(h, 0), capacity);
      assert Without(h.cache, 0) == h.cache[1..];
      assert h.cache[1..][n - 1..] == h.cache[n..];
      assert Drops(h.cache[..n]) == [Dropped(h.cache[0].identity)] + Drops(h.cache[1..][..n - 1]);
    } else {
      assert Drops(h.cache[..0]) == [];
    }
  }

  // record of a new identity: the entry comes last, and the oldest go while there are too many.
  lemma RecordNewInWords(h: History, t: int, id: Identity, repo: string, bearer: string, ttl: int, capacity: int)
    requires Absent(h.cache, id)
    ensures var all := h.cache + [Entry(id, t, t + ttl, bearer, {repo})];
            var n := if |all| > Max(capacity, 0) then |all| - Max(capacity, 0) else 0;
            Step(h, Record(t, id, repo, bearer), ttl, capacity) ==
              History(all[n..], h.log + [Recorded(t, id, repo, bearer)] + Drops(all[..n]))
  {
    AbsentHasNot(h.cache, id);
    EvictInWords(Inserted(h, t, ttl, id, repo, bearer), capacity);
  }

  // recordScope and invalidate, and operations on an identity that is not there.
  lemma OthersInWords(h: History, repo: string, ttl: int, capacity: int, k: nat)
    requires Distinct(h.cache) && k < |h.cache|
    ensures var e := h.cache[k];
            && Step(h, RecordScope(e.identity, repo), ttl, capacity) ==
                 History(h.cache[k := e.(repos := e.repos + {repo})], h.log + [Widened(e.identity, repo)])
            && Step(h, Invalidate(e.identity), ttl, capacity) ==
                 History(Others(h.cache, e.identity), h.log + [Dropped(e.identity)])
  {
    Unique(h.cache, k);
    OthersOfPresent(h.cache, k);
  }

  lemma AbsentInWords(h: History, t: int, id: Identity, repo: string, ttl: int, capacity: int)
    requires Absent(h.cache, id)
    ensures Step(h, Get(t, id, repo), ttl, capacity) == h && !IsHit(h.cache, t, id, repo)
    ensures Step(h, RecordScope(id, repo), ttl, capacity) == h
    ensures Step(h, Invalidate(id), ttl, capacity) == h
  {
    AbsentHasNot(h.cache, id);
  }

  // The log functions after one more mark.
  lemma OneMore(log: seq<Mark>, m: Mark, id: Identity)
    ensures LastTouch(log + [m], id) == if (m.Recorded? || m.Hit?) && m.id == id then |log| else LastTouch(log, id)
    ensures m.id != id ==> Live(log + [m], id) == Live(log, id) && Proven(log + [m], id) == Proven(log, id)
    ensures m.id == id && m.Recorded? ==>
              Live(log + [m], id) == Some(Last(m.t, m.bearer)) && Proven(log + [m], id) == Proven(log, id) + {m.repo}
    ensures m.id == id && m.Widened? ==>
              Live(log + [m], id) == Live(log, id) && Proven(log + [m], id) == Proven(log, id) + {m.repo}
    ensures m.id == id && m.Hit? ==> Live(log + [m], id) == Live(log, id) && Proven(log + [m], id) == Proven(log, id)
    ensures m.id == id && m.Dropped? ==> Live(log + [m], id) == None && Proven(log + [m], id) == {}
  {
    assert (log + [m])[..|log|] == log;
  }

  lemma {:induction false} TouchBelow(log: seq<Mark>, id: Identity)
    ensures LastTouch(log, id) < |log|
  {
    if log != [] { TouchBelow(log[..|log| - 1], id); }
  }

  lemma HasIff(cache: seq<Entry>, id: Identity)
    ensures Has(cache, id) <==> exists k :: 0 <= k < |cache| && cache[k].identity == id
  {
  }

  lemma Unique(cache: seq<Entry>, k: nat)
    requires Distinct(cache) && k < |cache|
    ensures Index(cache, cache[k].identity) == k
  {
  }

  lemma HasWithout(cache: seq<Entry>, k: nat, id: Identity)
    requires Distinct(cache) && k < |cache|
    ensures Has(Without(cache, k), id) <==> id != cache[k].identity && Has(cache, id)
  {
    var rest := Without(cache, k);
    HasIff(cache, id);
    HasIff(rest, id);
    if id != cache[k].identity && Has(cache, id) {
      var j := Index(cache, id);
      assert rest[if j < k then j else j - 1] == cache[j];
    }
    if Has(rest, id) {
      var j := Index(rest, id);
      assert rest[j] == cache[if j < k then j else j + 1];
    }
  }

  lemma HasAppended(cache: seq<Entry>, e: Entry, id: Identity)
    ensures Has(cache + [e], id) <==> id == e.identity || Has(cache, id)
  {
    HasIff(cache, id);
    HasIff(cache + [e], id);
    if id == e.identity { assert (cache + [e])[|cache|] == e; }
    if Has(cache, id) { assert (cache + [e])[Index(cache, id)].identity == id; }
  }

  // A mark of another identity leaves an entry faithful.
  lemma OtherEntry(e: Entry, log: seq<Mark>, m: Mark, ttl: int)
    requires EntryFaithful(e, log, ttl) && m.id != e.identity
    ensures EntryFaithful(e, log + [m], ttl) && LastTouch(log + [m], e.identity) == LastTouch(log, e.identity)
  {
    OneMore(log, m, e.identity);
  }

  // Where the entries of Without(cache, k) come from.
  function From(k: nat, j: nat): nat { if j < k then j else j + 1 }

  lemma WithoutPair(cache: seq<Entry>, log: seq<Mark>, m: Mark, ttl: int, k: nat, i: nat, j: nat)
    requires Distinct(cache) && ByRecency(cache, log) && EntriesFaithful(cache, log, ttl)
    requires k < |cache| && m.id == cache[k].identity && i < j < |cache| - 1
    ensures var rest := Without(cache, k);
            && rest[i].identity != rest[j].identity
            && LastTouch(log + [m], rest[i].identity) < LastTouch(log + [m], rest[j].identity)
  {
    WithoutEntry(cache, log, m, ttl, k, i);
    WithoutEntry(cache, log, m, ttl, k, j);
    assert From(k, i) < From(k, j);
  }

  lemma WithoutFaithful(cache: seq<Entry>, log: seq<Mark>, m: Mark, ttl: int, k: nat)
    requires Distinct(cache) && ByRecency(cache, log) && EntriesFaithful(cache, log, ttl)
    requires k < |cache| && m.id == cache[k].identity
    ensures var rest := Without(cache, k);
            && Distinct(rest) && ByRecency(rest, log + [m]) && EntriesFaithful(rest, log + [m], ttl)
            && (forall j | 0 <= j < |rest| ::
                  LastTouch(log + [m], rest[j].identity) < |log| && rest[j].identity != m.id)
  {
    var rest := Without(cache, k);
    forall j | 0 <= j < |rest|
      ensures EntryFaithful(rest[j], log + [m], ttl) && rest[j].identity != m.id
      ensures LastTouch(log + [m], rest[j].identity) < |log|
    {
      WithoutEntry(cache, log, m, ttl, k, j);
    }
    forall i, j | 0 <= i < j < |rest|
      ensures rest[i].identity != rest[j].identity
      ensures LastTouch(log + [m], rest[i].identity) < LastTouch(log + [m], rest[j].identity)
    {
      WithoutPair(cache, log, m, ttl, k, i, j);
    }
  }

  lemma WithoutEntry(cache: seq<Entry>, log: seq<Mark>, m: Mark, ttl: int, k: nat, j: nat)
    requires Distinct(cache) && EntriesFaithful(cache, log, ttl)
    requires k < |cache| && m.id == cache[k].identity && j < |cache| - 1
    ensures var e := Without(cache, k)[j];
            && e == cache[From(k, j)] && e.identity != m.id && EntryFaithful(e, log + [m], ttl)
            && LastTouch(log + [m], e.identity) == LastTouch(log, e.identity) < |log|
  {
    WithoutAt(cache, k, j);
    var e := cache[From(k, j)];
    OtherEntry(e, log, m, ttl);
    TouchBelow(log, e.identity);
  }

  lemma WithoutAt(cache: seq<Entry>, k: nat, j: nat)
    requires Distinct(cache) && k < |cache| && j < |cache| - 1
    ensures Without(cache, k)[j] == cache[From(k, j)] && cache[From(k, j)].identity != cache[k].identity
  {
  }

  lemma DropFaithful(h: History, ttl: int, k: nat)
    requires Faithful(h, ttl) && k < |h.cache|
    ensures Faithful(Drop(h, k), ttl)
  {
    var m := Dropped(h.cache[k].identity);
    WithoutFaithful(h.cache, h.log, m, ttl, k);
    forall id
      ensures Live(h.log + [m], id).Some? <==> Has(Without(h.cache, k), id)
      ensures Live(h.log + [m], id).None? ==> Proven(h.log + [m], id) == {}
    {
      HasWithout(h.cache, k, id);
      OneMore(h.log, m, id);
    }
  }

  // An entry put at the most recent end, just touched.
  lemma AppendFaithful(rest: seq<Entry>, log: seq<Mark>, ttl: int, e: Entry)
    requires Distinct(rest) && ByRecency(rest, log) && EntriesFaithful(rest, log, ttl) && EntryFaithful(e, log, ttl)
    requires forall j | 0 <= j < |rest| ::
               rest[j].identity != e.identity && LastTouch(log, rest[j].identity) < LastTouch(log, e.identity)
    ensures Distinct(rest + [e]) && ByRecency(rest + [e], log) && EntriesFaithful(rest + [e], log, ttl)
  {
  }

  lemma RenewFaithful(h: History, ttl: int, k: nat, e: Entry, m: Mark)
    requires Faithful(h, ttl) && k < |h.cache| && e.identity == h.cache[k].identity == m.id
    requires m.Hit? || m.Recorded?
    requires EntryFaithful(e, h.log + [m], ttl)
    ensures Faithful(Renew(h, k, e, m), ttl)
  {
    var rest, log := Without(h.cache, k), h.log + [m];
    WithoutFaithful(h.cache, h.log, m, ttl, k);
    OneMore(h.log, m, m.id);
    AppendFaithful(rest, log, ttl, e);
    forall id
      ensures Live(log, id).Some? <==> Has(rest + [e], id)
      ensures Live(log, id).None? ==> Proven(log, id) == {}
    {
      HasWithout(h.cache, k, id);
      HasAppended(rest, e, id);
      Unique(h.cache, k);
      OneMore(h.log, m, id);
    }
  }

  lemma InsertFaithful(h: History, ttl: int, t: int, id: Identity, repo: string, bearer: string)
    requires Faithful(h, ttl) && !Has(h.cache, id)
    ensures Faithful(Inserted(h, t, ttl, id, repo, bearer), ttl)
  {
    var m, e := Recorded(t, id, repo, bearer), Entry(id, t, t + ttl, bearer, {repo});
    var log := h.log + [m];
    OneMore(h.log, m, id);
    forall j | 0 <= j < |h.cache|
      ensures h.cache[j].identity != id && EntryFaithful(h.cache[j], log, ttl)
      ensures LastTouch(log, h.cache[j].identity) == LastTouch(h.log, h.cache[j].identity) < |h.log|
    {
      HasIff(h.cache, id);
      OtherEntry(h.cache[j], h.log, m, ttl);
      TouchBelow(h.log, h.cache[j].identity);
    }
    AppendFaithful(h.cache, log, ttl, e);
    forall other
      ensures Live(log, other).Some? <==> Has(h.cache + [e], other)
      ensures Live(log, other).None? ==> Proven(log, other) == {}
    {
      HasAppended(h.cache, e, other);
      OneMore(h.log, m, other);
    }
  }

  lemma {:induction false} SameIdentities(cache: seq<Entry>, c: seq<Entry>, id: Identity)
    requires |c| == |cache| && forall j | 0 <= j < |c| :: c[j].identity == cache[j].identity
    ensures Index(c, id) == Index(cache, id)
  {
    if cache != [] { SameIdentities(cache[1..], c[1..], id); }
  }

  // Widening entry k changes only its repositories, and its mark touches nothing else.
  lemma WidenEntry(h: History, ttl: int, k: nat, repo: string, j: nat)
    requires EntriesFaithful(h.cache, h.log, ttl) && Distinct(h.cache) && k < |h.cache| && j < |h.cache|
    ensures var c := h.cache[k := h.cache[k].(repos := h.cache[k].repos + {repo})];
            var log := h.log + [Widened(h.cache[k].identity, repo)];
            EntryFaithful(c[j], log, ttl) && LastTouch(log, c[j].identity) == LastTouch(h.log, h.cache[j].identity)
  {
    OneMore(h.log, Widened(h.cache[k].identity, repo), h.cache[j].identity);
    assert EntryFaithful(h.cache[j], h.log, ttl);
  }

  lemma WidenLive(h: History, ttl: int, k: nat, repo: string, id: Identity)
    requires SameLive(h.cache, h.log) && k < |h.cache|
    ensures var c := h.cache[k := h.cache[k].(repos := h.cache[k].repos + {repo})];
            var log := h.log + [Widened(h.cache[k].identity, repo)];
            (Live(log, id).Some? <==> Has(c, id)) && (Live(log, id).None? ==> Proven(log, id) == {})
  {
    var c := h.cache[k := h.cache[k].(repos := h.cache[k].repos + {repo})];
    OneMore(h.log, Widened(h.cache[k].identity, repo), id);
    SameIdentities(h.cache, c, id);
    HasIff(h.cache, id);
  }

  lemma WidenFaithful(h: History, ttl: int, k: nat, repo: string)
    requires Faithful(h, ttl) && k < |h.cache|
    ensures Faithful(History(h.cache[k := h.cache[k].(repos := h.cache[k].repos + {repo})],
                             h.log + [Widened(h.cache[k].identity, repo)]), ttl)
  {
    var c := h.cache[k := h.cache[k].(repos := h.cache[k].repos + {repo})];
    var log := h.log + [Widened(h.cache[k].identity, repo)];
    forall j | 0 <= j < |c|
      ensures EntryFaithful(c[j], log, ttl) && LastTouch(log, c[j].identity) == LastTouch(h.log, h.cache[j].identity)
    {
      WidenEntry(h, ttl, k, repo, j);
    }
    forall id
      ensures (Live(log, id).Some? <==> Has(c, id)) && (Live(log, id).None? ==> Proven(log, id) == {})
    {
      WidenLive(h, ttl, k, repo, id);
    }
  }

  lemma {:induction false} EvictFaithful(h: History, ttl: int, capacity: int)
    requires Faithful(h, ttl)
    ensures Faithful(EvictAll(h, capacity), ttl) && |EvictAll(h, capacity).cache| <= Max(capacity, 0)
    decreases |h.cache|
  {
    if |h.cache| > Max(capacity, 0) {
      DropFaithful(h, ttl, 0);
      EvictFaithful(Drop(h, 0), ttl, capacity);
    }
  }

  lemma GetFaithful(h: History, ttl: int, t: int, id: Identity, repo: string)
    requires Faithful(h, ttl) && IsHit(h.cache, t, id, repo)
    ensures Faithful(Renew(h, Index(h.cache, id), h.cache[Index(h.cache, id)], Hit(t, id, repo)), ttl)
  {
    var k := Index(h.cache, id);
    OneMore(h.log, Hit(t, id, repo), id);
    assert EntryFaithful(h.cache[k], h.log, ttl);
    RenewFaithful(h, ttl, k, h.cache[k], Hit(t, id, repo));
  }

  lemma RefreshFaithful(h: History, ttl: int, k: nat, t: int, repo: string, bearer: string)
    requires Faithful(h, ttl) && k < |h.cache|
    ensures Faithful(Renew(h, k, Refreshed(h.cache[k], t, ttl, repo, bearer),
                           Recorded(t, h.cache[k].identity, repo, bearer)), ttl)
  {
    var m := Recorded(t, h.cache[k].identity, repo, bearer);
    OneMore(h.log, m, m.id);
    assert EntryFaithful(h.cache[k], h.log, ttl);
    RenewFaithful(h, ttl, k, Refreshed(h.cache[k], t, ttl, repo, bearer), m);
  }

  lemma StepFaithful(h: History, op: Op, ttl: int, capacity: int)
    requires Faithful(h, ttl) && |h.cache| <= Max(capacity, 0)
    ensures Faithful(Step(h, op, ttl, capacity), ttl) && |Step(h, op, ttl, capacity).cache| <= Max(capacity, 0)
  {
    var k := Index(h.cache, op.id);
    match op
    case Get(t, id, repo) =>
      if IsHit(h.cache, t, id, repo) { GetFaithful(h, ttl, t, id, repo); }
      else if k < |h.cache| { DropFaithful(h, ttl, k); }
    case Record(t, id, repo, bearer) =>
      if k < |h.cache| { RefreshFaithful(h, ttl, k, t, repo, bearer); }
      else {
        InsertFaithful(h, ttl, t, id, repo, bearer);
        EvictFaithful(Inserted(h, t, ttl, id, repo, bearer), ttl, capacity);
      }
    case RecordScope(id, repo) => if k < |h.cache| { WidenFaithful(h, ttl, k, repo); }
    case Invalidate(id) => if k < |h.cache| { DropFaithful(h, ttl, k); }
  }

  // The main refinement: after every sequence of operations the Map holds exactly what the
  // log dictates, in order of recency, and never more than its capacity.
  lemma {:induction false} RunFaithful(ops: seq<Op>, ttl: int, capacity: int)
    ensures Faithful(Run(ops, ttl, capacity), ttl) && |Run(ops, ttl, capacity).cache| <= Max(capacity, 0)
  {
    if ops != [] {
      RunFaithful(ops[..|ops| - 1], ttl, capacity);
      StepFaithful(Run(ops[..|ops| - 1], ttl, capacity), ops[|ops| - 1], ttl, capacity);
    }
  }

  // When exactly get returns a proof, in terms of the past alone, and with which bearer: the
  // repository was recorded or widened since the last drop, and the last record of the
  // identity, for whatever repository, is less than the TTL ago.
  lemma HitExactly(ops: seq<Op>, ttl: int, capacity: int, t: int, id: Identity, repo: string)
    ensures var h := Run(ops, ttl, capacity); var last := Live(h.log, id);
            && (IsHit(h.cache, t, id, repo) <==> last.Some? && t < last.value.t + ttl && repo in Proven(h.log, id))
            && (IsHit(h.cache, t, id, repo) ==> h.cache[Index(h.cache, id)].bearer == last.value.bearer)
  {
    var h := Run(ops, ttl, capacity);
    RunFaithful(ops, ttl, capacity);
    if Has(h.cache, id) { assert EntryFaithful(h.cache[Index(h.cache, id)], h.log, ttl); }
  }

  lemma RecordExistingKeeps(h: History, op: Op, ttl: int, capacity: int, id: Identity)
    requires Distinct(h.cache) && op.Record? && Has(h.cache, op.id) && Has(h.cache, id)
    ensures Has(Step(h, op, ttl, capacity).cache, id)
  {
    var k := Index(h.cache, op.id);
    var e := Refreshed(h.cache[k], op.t, ttl, op.repo, op.bearer);
    HasWithout(h.cache, k, id);
    HasAppended(Without(h.cache, k), e, id);
  }

  // A new identity in a full cache displaces the identity touched longest ago.
  lemma EvictsLeastRecent(ops: seq<Op>, ttl: int, capacity: int, op: Op, gone: Identity)
    requires var h := Run(ops, ttl, capacity);
             op.Record? && Has(h.cache, gone) && gone != op.id && !Has(Step(h, op, ttl, capacity).cache, gone)
    ensures var h := Run(ops, ttl, capacity);
            && |h.cache| == Max(capacity, 0) && !Has(h.cache, op.id)
            && forall id | Has(h.cache, id) && id != gone :: LastTouch(h.log, gone) < LastTouch(h.log, id)
  {
    var h := Run(ops, ttl, capacity);
    RunFaithful(ops, ttl, capacity);
    if Has(h.cache, op.id) { RecordExistingKeeps(h, op, ttl, capacity, gone); }
    var g := Inserted(h, op.t, ttl, op.id, op.repo, op.bearer);
    HasAppended(h.cache, g.cache[|h.cache|], gone);
    InsertFaithful(h, ttl, op.t, op.id, op.repo, op.bearer);
    HasWithout(g.cache, 0, gone);
    assert g.cache[0].identity == h.cache[0].identity == gone by {
      assert EvictAll(g, capacity) == EvictAll(Drop(g, 0), capacity);
      assert |Drop(g, 0).cache| <= Max(capacity, 0);
    }
    forall id | Has(h.cache, id) && id != gone ensures LastTouch(h.log, gone) < LastTouch(h.log, id) {
      assert h.cache[Index(h.cache, id)].identity == id;
    }
  }

  // ---- how old a proof can be ------------------------------------------------------------

  // The last record of this very repository since the entry was last dropped.
  function OwnLast(log: seq<Mark>, id: Identity, repo: string): Option<int> {
    if log == [] then None
    else
      var m := log[|log| - 1];
      if m.id == id && m.Recorded? && m.repo == repo then Some(m.t)
      else if m.id == id && m.Dropped? then None
      else OwnLast(log[..|log| - 1], id, repo)
  }

  // No proof of the identity is used once its own record is a TTL old.
  ghost predicate Fresh(h: History, ttl: int, id: Identity) {
    forall u, s :: IsHit(h.cache, u, id, s) ==> OwnLast(h.log, id, s).Some? && u < OwnLast(h.log, id, s).value + ttl
  }

  lemma OwnLastMore(log: seq<Mark>, m: Mark, id: Identity, repo: string)
    ensures OwnLast(log + [m], id, repo) ==
            if m.id == id && m.Recorded? && m.repo == repo then Some(m.t)
            else if m.id == id && m.Dropped? then None else OwnLast(log, id, repo)
  {
    assert (log + [m])[..|log|] == log;
  }

  // Evicting others leaves an entry and its records.
  lemma {:induction false} EvictKeepsOwn(h: History, capacity: int, id: Identity, repo: string)
    requires Distinct(h.cache)
    ensures var g := EvictAll(h, capacity);
            Has(g.cache, id) ==>
              && Has(h.cache, id) && OwnLast(g.log, id, repo) == OwnLast(h.log, id, repo)
              && g.cache[Index(g.cache, id)] == h.cache[Index(h.cache, id)]
    decreases |h.cache|
  {
    if |h.cache| > Max(capacity, 0) {
      var d := Drop(h, 0);
      WithoutDistinct(h.cache, 0);
      EvictKeepsOwn(d, capacity, id, repo);
      HasWithout(h.cache, 0, id);
      OwnLastMore(h.log, Dropped(h.cache[0].identity), id, repo);
      if Has(d.cache, id) {
        assert d.cache[Index(d.cache, id)] == h.cache[Index(d.cache, id) + 1];
        Unique(h.cache, Index(d.cache, id) + 1);
      }
    }
  }

  lemma WithoutDistinct(cache: seq<Entry>, k: nat)
    requires Distinct(cache) && k < |cache|
    ensures Distinct(Without(cache, k))
  {
    forall j | 0 <= j < |cache| - 1
      ensures Without(cache, k)[j] == cache[From(k, j)]
    { WithoutAt(cache, k, j); }
  }

  // A record of an absent identity makes only fresh proofs.
  lemma InsertIsFresh(h: History, op: Op, ttl: int, capacity: int)
    requires Distinct(h.cache) && op.Record? && !Has(h.cache, op.id)
    ensures Fresh(Step(h, op, ttl, capacity), ttl, op.id)
  {
    var i := Inserted(h, op.t, ttl, op.id, op.repo, op.bearer);
    HasIff(h.cache, op.id);
    Unique(i.cache, |h.cache|);
    EvictKeepsOwn(i, capacity, op.id, op.repo);
    OwnLastMore(h.log, Recorded(op.t, op.id, op.repo, op.bearer), op.id, op.repo);
  }

  // The entry after recording again, found at the end.
  lemma RenewIsFresh(h: History, op: Op, ttl: int, capacity: int)
    requires Distinct(h.cache) && op.Record? && Has(h.cache, op.id) && 0 < ttl && Fresh(h, ttl, op.id)
    requires h.cache[Index(h.cache, op.id)].repos <= {op.repo}
    ensures Fresh(Step(h, op, ttl, capacity), ttl, op.id)
  {
    var k := Index(h.cache, op.id);
    var e := Refreshed(h.cache[k], op.t, ttl, op.repo, op.bearer);
    RenewedLast(h.cache, k, e);
    OwnLastMore(h.log, Recorded(op.t, op.id, op.repo, op.bearer), op.id, op.repo);
  }

  lemma RenewIsStale(h: History, op: Op, ttl: int, capacity: int, s: string)
    requires Distinct(h.cache) && op.Record? && Has(h.cache, op.id) && 0 < ttl
    requires s in h.cache[Index(h.cache, op.id)].repos && s != op.repo
    requires OwnLast(h.log, op.id, s).Some? ==> OwnLast(h.log, op.id, s).value < op.t
    ensures !Fresh(Step(h, op, ttl, capacity), ttl, op.id)
  {
    var k := Index(h.cache, op.id);
    var e := Refreshed(h.cache[k], op.t, ttl, op.repo, op.bearer);
    RenewedLast(h.cache, k, e);
    OwnLastMore(h.log, Recorded(op.t, op.id, op.repo, op.bearer), op.id, s);
    assert IsHit(Step(h, op, ttl, capacity).cache, op.t + ttl - 1, op.id, s);
  }

  // Recording again extends the life of an older proof exactly when the entry also holds another
  // repository: this is the branch of `record` that keeps the old repositories.
  lemma FreshAfterRecord(ops: seq<Op>, ttl: int, capacity: int, op: Op)
    requires op.Record? && 0 < ttl
    requires var h := Run(ops, ttl, capacity);
             Fresh(h, ttl, op.id) &&
             forall s | OwnLast(h.log, op.id, s).Some? :: OwnLast(h.log, op.id, s).value < op.t
    ensures var h := Run(ops, ttl, capacity);
            Fresh(Step(h, op, ttl, capacity), ttl, op.id) <==>
            !(Has(h.cache, op.id) && exists s :: s in h.cache[Index(h.cache, op.id)].repos && s != op.repo)
  {
    var h := Run(ops, ttl, capacity);
    RunFaithful(ops, ttl, capacity);
    if !Has(h.cache, op.id) {
      InsertIsFresh(h, op, ttl, capacity);
    } else if s :| s in h.cache[Index(h.cache, op.id)].repos && s != op.repo {
      RenewIsStale(h, op, ttl, capacity, s);
    } else {
      RenewIsFresh(h, op, ttl, capacity);
    }
  }

  // Every repository the entry holds was itself recorded no earlier than the entry's last renewal.
  ghost predicate OwnRecent(log: seq<Mark>, id: Identity) {
    Live(log, id).None? || forall s | s in Proven(log, id) :: OwnRecentFor(log, id, s, Live(log, id).value.t)
  }

  predicate OwnRecentFor(log: seq<Mark>, id: Identity, repo: string, t: int) {
    OwnLast(log, id, repo).Some? && OwnLast(log, id, repo).value >= t
  }

  // Over every run of all four operations: no proof of an identity outlives its own record if and only
  // if that holds.  A repository added by recordScope has no record of its own, so it breaks this too.
  lemma FreshExactly(ops: seq<Op>, ttl: int, capacity: int, id: Identity)
    ensures Fresh(Run(ops, ttl, capacity), ttl, id) <==> OwnRecent(Run(ops, ttl, capacity).log, id)
  {
    var h := Run(ops, ttl, capacity);
    var last := Live(h.log, id);
    if Fresh(h, ttl, id) && last.Some? {
      forall s | s in Proven(h.log, id)
        ensures OwnRecentFor(h.log, id, s, last.value.t)
      {
        HitExactly(ops, ttl, capacity, last.value.t + ttl - 1, id, s);
      }
    }
    if OwnRecent(h.log, id) {
      forall u, s | IsHit(h.cache, u, id, s)
        ensures OwnLast(h.log, id, s).Some? && u < OwnLast(h.log, id, s).value + ttl
      {
        HitExactly(ops, ttl, capacity, u, id, s);
        assert OwnRecentFor(h.log, id, s, last.value.t);
      }
    }
  }

  // An entry moved to the end is found there.
  lemma RenewedLast(cache: seq<Entry>, k: nat, e: Entry)
    requires Distinct(cache) && k < |cache| && e.identity == cache[k].identity
    ensures Index(Without(cache, k) + [e], e.identity) == |cache| - 1
  {
    var rest := Without(cache, k);
    HasWithout(cache, k, e.identity);
    HasIff(rest, e.identity);
    IndexIs(rest + [e], e.identity, |rest|);
  }

  // One record of `stale` at time 0, then n records of `recent`, one every `every` ms.
  function Refreshes(id: Identity, stale: string, recent: string, every: int, n: nat): seq<Op> {
    if n == 0 then [Record(0, id, stale, "")]
    else Refreshes(id, stale, recent, every, n - 1) + [Record(n * every, id, recent, "")]
  }

  // The age of a proof is not bounded by the TTL, nor by anything else: records of another
  // repository keep the whole entry alive, so `stale`, probed once at time 0, still hits.
  lemma {:induction false} StaleProofNeverExpires(ttl: int, capacity: int, id: Identity,
                                                  stale: string, recent: string, every: int, n: nat)
    requires 0 < ttl && 0 < capacity
    ensures var ops := Refreshes(id, stale, recent, every, n);
            IsHit(Run(ops, ttl, capacity).cache, n * every, id, stale)
  {
    var ops := Refreshes(id, stale, recent, every, n);
    var k := |ops| - 1;
    if n == 0 {
      assert ops[..k] == [];
    } else {
      assert ops[..k] == Refreshes(id, stale, recent, every, n - 1);
      StaleProofNeverExpires(ttl, capacity, id, stale, recent, every, n - 1);
      var h := Run(ops[..k], ttl, capacity);
      HitExactly(ops[..k], ttl, capacity, (n - 1) * every, id, stale);
      OneMore(h.log, Recorded(n * every, id, recent, ""), id);
      assert Run(ops, ttl, capacity).log == h.log + [Recorded(n * every, id, recent, "")];
      HitExactly(ops, ttl, capacity, n * every, id, stale);
    }
  }

  // ---- the class -----------------------------------------------------------------------

  // What get hands back.
  datatype Lookup = Lookup(bearer: string, repos: set<string>, provenAt: int, expiresAt: int)

  function KeyIndex(keys: seq<Identity>, id: Identity): (k: nat)
    ensures k <= |keys|
    ensures k < |keys| ==> keys[k] == id
    ensures forall j | 0 <= j < k :: keys[j] != id
  {
    if keys == [] || keys[0] == id then 0 else 1 + KeyIndex(keys[1..], id)
  }

  predicate Table(keys: seq<Identity>, table: map<Identity, Entry>) {
    && (forall i, j | 0 <= i < j < |keys| :: keys[i] != keys[j])
    && (forall id | id in table :: id in keys)
    && (forall id | id in keys :: id in table && table[id].identity == id)
  }

  function Entries(keys: seq<Identity>, table: map<Identity, Entry>): seq<Entry>
    requires Table(keys, table)
  {
    seq(|keys|, i requires 0 <= i < |keys| => table[keys[i]])
  }

  lemma IndexIs(cache: seq<Entry>, id: Identity, k: nat)
    requires k < |cache| && cache[k].identity == id && forall j | 0 <= j < k :: cache[j].identity != id
    ensures Index(cache, id) == k
  {
  }

  lemma EntriesIndex(keys: seq<Identity>, table: map<Identity, Entry>, id: Identity)
    requires Table(keys, table)
    ensures var c := Entries(keys, table); Index(c, id) == KeyIndex(keys, id) && (Has(c, id) <==> id in table)
  {
    var c := Entries(keys, table);
    var k := KeyIndex(keys, id);
    if k < |keys| { IndexIs(c, id, k); }
    else { HasIff(c, id); }
  }

  lemma KeysWithout(keys: seq<Identity>, k: nat)
    requires k < |keys| && forall i, j | 0 <= i < j < |keys| :: keys[i] != keys[j]
    ensures var rest := keys[..k] + keys[k + 1..];
            && (forall j | 0 <= j < |rest| :: rest[j] == keys[From(k, j)] && rest[j] != keys[k])
            && (forall i, j | 0 <= i < j < |rest| :: rest[i] != rest[j])
            && (forall id :: id in rest <==> id in keys && id != keys[k])
  {
    var rest := keys[..k] + keys[k + 1..];
    forall j | 0 <= j < |rest|
      ensures rest[j] == keys[From(k, j)] && rest[j] != keys[k]
    {}
    forall i, j | 0 <= i < j < |rest|
      ensures rest[i] != rest[j]
    {
      assert From(k, i) < From(k, j);
    }
    forall id | id in keys && id != keys[k]
      ensures id in rest
    {
      var j :| 0 <= j < |keys| && keys[j] == id;
      assert rest[if j < k then j else j - 1] == id;
    }
  }

  lemma TableWithout(keys: seq<Identity>, table: map<Identity, Entry>, k: nat)
    requires Table(keys, table) && k < |keys|
    ensures Table(keys[..k] + keys[k + 1..], table - {keys[k]})
  {
    KeysWithout(keys, k);
  }

  lemma EntriesWithout(keys: seq<Identity>, table: map<Identity, Entry>, k: nat)
    requires Table(keys, table) && k < |keys|
    requires Table(keys[..k] + keys[k + 1..], table - {keys[k]})
    ensures Entries(keys[..k] + keys[k + 1..], table - {keys[k]}) == Without(Entries(keys, table), k)
  {
    var rest := keys[..k] + keys[k + 1..];
    forall j | 0 <= j < |rest|
      ensures Entries(rest, table - {keys[k]})[j] == Without(Entries(keys, table), k)[j]
    { assert rest[j] == keys[From(k, j)]; }
  }

  lemma EntriesAppend(keys: seq<Identity>, table: map<Identity, Entry>, e: Entry)
    requires Table(keys, table) && e.identity !in table
    ensures Table(keys + [e.identity], table[e.identity := e])
    ensures Entries(keys + [e.identity], table[e.identity := e]) == Entries(keys, table) + [e]
  {
    forall i | 0 <= i < |keys| ensures keys[i] != e.identity { assert keys[i] in keys; }
  }

  class ProofCache {
    const ttl: int
    const maxEntries: int
    // A JavaScript Map: its keys in insertion order, and their values.
    var keys: seq<Identity>
    var table: map<Identity, Entry>
    ghost var log: seq<Mark>

    ghost predicate Valid() reads this { Table(keys, table) }

    ghost function State(): History
      reads this
      requires Valid()
    {
      History(Entries(keys, table), log)
    }

    constructor (ttlMs: int, maxEntries: int)
      ensures Valid() && State() == History([], [])
      ensures this.ttl == ttlMs && this.maxEntries == maxEntries
    {
      ttl := ttlMs;
      this.maxEntries := maxEntries;
      keys, table, log := [], map[], [];
    }

    // Map.delete of a present key.
    method Remove(id: Identity)
      requires Valid() && id in table
      modifies this`keys, this`table
      ensures Valid() && id !in table
      ensures Has(old(Entries(keys, table)), id)
      ensures Entries(keys, table) == Without(old(Entries(keys, table)), Index(old(Entries(keys, table)), id))
    {
      var k := KeyIndex(keys, id);
      EntriesIndex(keys, table, id);
      TableWithout(keys, table, k);
      EntriesWithout(keys, table, k);
      keys, table := keys[..k] + keys[k + 1..], table - {id};
    }

    method Get(now: int, id: Identity, repo: string) returns (r: Option<Lookup>)
      requires Valid()
      modifies this
      ensures Valid() && State() == Step(old(State()), Op.Get(now, id, repo), ttl, maxEntries)
      ensures r.Some? <==> IsHit(old(State()).cache, now, id, repo)
      ensures r.Some? ==> var e := old(State()).cache[Index(old(State()).cache, id)];
                r.value == Lookup(e.bearer, e.repos, e.provenAt, e.expiresAt)
    {
      EntriesIndex(keys, table, id);
      if id !in table { return None; }
      var entry := table[id];
      assert entry == Entries(keys, table)[KeyIndex(keys, id)];
      if now >= entry.expiresAt {
        Evict(id);
        return None;
      }
      if repo !in entry.repos { return None; }
      Remove(id);
      EntriesAppend(keys, table, entry);
      keys, table := keys + [id], table[id := entry];
      log := log + [Hit(now, id, repo)];
      return Some(Lookup(entry.bearer, entry.repos, entry.provenAt, entry.expiresAt));
    }

    method Record(now: int, id: Identity, repo: string, bearer: string)
      requires Valid()
      modifies this
      ensures Valid() && State() == Step(old(State()), Op.Record(now, id, repo, bearer), ttl, maxEntries)
    {
      EntriesIndex(keys, table, id);
      if id in table {
        var existing := table[id];
        assert existing == Entries(keys, table)[KeyIndex(keys, id)];
        existing := existing.(repos := existing.repos + {repo});
        existing := existing.(bearer := bearer);
        existing := existing.(expiresAt := now + ttl);
        Remove(id);
        EntriesAppend(keys, table, existing);
        keys, table := keys + [id], table[id := existing];
        log := log + [Recorded(now, id, repo, bearer)];
        return;
      }
      var entry := Entry(id, now, now + ttl, bearer, {repo});
      EntriesAppend(keys, table, entry);
      keys, table := keys + [id], table[id := entry];
      log := log + [Recorded(now, id, repo, bearer)];
      EnforceCapacity();
    }

    method RecordScope(id: Identity, repo: string)
      requires Valid()
      modifies this
      ensures Valid() && State() == Step(old(State()), Op.RecordScope(id, repo), ttl, maxEntries)
    {
      EntriesIndex(keys, table, id);
      if id !in table { return; }
      table := table[id := table[id].(repos := table[id].repos + {repo})];
      log := log + [Widened(id, repo)];
      assert Entries(keys, table) == old(Entries(keys, table))[KeyIndex(keys, id) := table[id]];
    }

    method Invalidate(id: Identity)
      requires Valid()
      modifies this
      ensures Valid() && State() == Step(old(State()), Op.Invalidate(id), ttl, maxEntries)
    {
      EntriesIndex(keys, table, id);
      Evict(id);
    }

    method Evict(id: Identity)
      requires Valid()
      modifies this
      ensures Valid()
      ensures State() == if Has(old(State()).cache, id)
                         then Drop(old(State()), Index(old(State()).cache, id)) else old(State())
    {
      EntriesIndex(keys, table, id);
      if id !in table { return; }
      Remove(id);
      log := log + [Dropped(id)];
    }

    method EnforceCapacity()
      requires Valid()
      modifies this
      ensures Valid() && State() == EvictAll(old(State()), maxEntries)
    {
      while |keys| > maxEntries
        invariant Valid() && EvictAll(State(), maxEntries) == EvictAll(old(State()), maxEntries)
        decreases |keys|
      {
        if |keys| == 0 { return; }
        EntriesIndex(keys, table, keys[0]);
        Evict(keys[0]);
      }
    }
  }
}
