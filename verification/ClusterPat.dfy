// Which names a cluster token may touch (auth/src/clusterPat.ts and the access loop of
// auth/src/createApp.ts), and whether the reaper protects the same standard modules
// (hooks/src/util/imageRetention.ts).
module ClusterPat {
  import opened Options
  import opened Strings
  import opened Lists
  import opened SqlLike
  import opened Scopes
  import TagRetention
  import Selection

  const DEFAULT_NAMESPACE := "wasm/std"

  // The namespace itself or anything below it.
  predicate Under(namespace: string, name: string) {
    name == namespace || namespace + "/" <= name
  }

  // ---- settings ---------------------------------------------------------------------------

  function TrimStart(s: string): string {
    if s != "" && Space(s[0]) then TrimStart(s[1..]) else s
  }

  function TrimEnd(s: string): string {
    if s != "" && Space(s[|s| - 1]) then TrimEnd(s[..|s| - 1]) else s
  }

  function Trim(s: string): string { TrimEnd(TrimStart(s)) }

  // replace(/\/+$/, "")
  function StripSlashes(s: string): string {
    if s != "" && s[|s| - 1] == '/' then StripSlashes(s[..|s| - 1]) else s
  }

  function Or(setting: Option<string>, fallback: string): string {
    if setting.Some? && setting.value != "" then setting.value else fallback
  }

  // getStandardModuleNamespace
  function StandardNamespace(setting: Option<string>): string {
    var raw := StripSlashes(Trim(Or(setting, "")));
    if |raw| > 0 then raw else DEFAULT_NAMESPACE
  }

  // split(/[\n,]/)
  function Entries(s: string): seq<string> { EntriesOf(Split(s, '\n')) }

  function EntriesOf(lines: seq<string>): seq<string> {
    if lines == [] then [] else Split(lines[0], ',') + EntriesOf(lines[1..])
  }

  function Cleaned(entries: seq<string>): seq<string> {
    if entries == [] then [] else [StripSlashes(Trim(entries[0]))] + Cleaned(entries[1..])
  }

  // parseProtectedNamespaces, from AOCR_WASM_STD_NAMESPACE and AOCR_RETENTION_PROTECTED_NAMESPACES
  function ProtectedNamespaces(setting: Option<string>, explicit: Option<string>): seq<string> {
    var fallback := Trim(Or(setting, DEFAULT_NAMESPACE));
    var source := if explicit.Some? && Trim(explicit.value) != "" then explicit.value else fallback;
    Distinct(NonEmpty(Cleaned(Entries(source))))
  }

  // ---- the scope policy -------------------------------------------------------------------

  datatype Decision = Allowed(actions: seq<string>) | Rejected

  function OnlyPull(actions: seq<string>): seq<string> {
    if actions == [] then []
    else (if actions[0] == "pull" then [actions[0]] else []) + OnlyPull(actions[1..])
  }

  function OwnNamespace(clusterId: string): string { "cluster/" + clusterId }

  // evaluateClusterPatScope
  function Evaluate(clusterId: string, standard: string, s: Scope): Decision {
    if s.kind != "repository" then Rejected
    else if s.name == "" then Rejected
    else if Under(OwnNamespace(clusterId), s.name) then Allowed(s.actions)
    else if Under("mirror", s.name) then Allowed(OnlyPull(s.actions))
    else if Under(standard, s.name) then Allowed(OnlyPull(s.actions))
    else Rejected
  }

  // The strategy that validated the caller; an empty id stands for a missing one.
  datatype Strategy = ClusterToken(clusterId: string) | OtherStrategy

  // What one resource of the request is granted.
  function Grant(strategy: Strategy, standard: string, s: Scope): Option<Scope> {
    if strategy.OtherStrategy? then Some(s)
    else if strategy.clusterId == "" then None
    else
      match Evaluate(strategy.clusterId, standard, s)
      case Rejected => None
      case Allowed(actions) => Some(s.(actions := actions))
  }

  // The access list of the token, or None for a 401: one refused resource fails the whole request.
  method BuildAccess(strategy: Strategy, standard: string, requested: seq<Scope>) returns (access: Option<seq<Scope>>)
    ensures access.Some? <==> forall s | s in requested :: Grant(strategy, standard, s).Some?
    ensures access.Some? ==> |access.value| == |requested|
    ensures access.Some? ==> forall i | 0 <= i < |requested| ::
              Some(access.value[i]) == Grant(strategy, standard, requested[i])
  {
    var granted: seq<Scope> := [];
    for n := 0 to |requested|
      invariant |granted| == n
      invariant forall i | 0 <= i < n :: Some(granted[i]) == Grant(strategy, standard, requested[i])
    {
      var s := requested[n];
      var permitted := s.actions;
      if strategy.ClusterToken? {
        if strategy.clusterId == "" {
          assert Grant(strategy, standard, s).None?;
          return None;
        }
        var decision := Evaluate(strategy.clusterId, standard, s);
        if decision.Rejected? {
          assert Grant(strategy, standard, s).None?;
          return None;
        }
        permitted := decision.actions;
      }
      granted := granted + [Scope(s.kind, s.name, permitted)];
    }
    forall s | s in requested
      ensures Grant(strategy, standard, s).Some?
    {
      var i :| 0 <= i < |requested| && requested[i] == s;
    }
    return Some(granted);
  }

  lemma {:induction false} OnlyPullHas(actions: seq<string>)
    ensures forall a :: a in OnlyPull(actions) <==> a in actions && a == "pull"
  {
    if actions != [] {
      OnlyPullHas(actions[1..]);
      assert actions == [actions[0]] + actions[1..];
    }
  }

  // Inside the cluster's own, the mirror's or the standard namespace.
  predicate InNamespaces(clusterId: string, standard: string, s: Scope) {
    && s.kind == "repository" && s.name != ""
    && (Under(OwnNamespace(clusterId), s.name) || Under("mirror", s.name) || Under(standard, s.name))
  }

  // A cluster token is granted a resource exactly inside those namespaces.  It never gains an action,
  // keeps every action in its own namespace, and elsewhere keeps exactly pull.
  lemma ClusterGrants(clusterId: string, standard: string, s: Scope)
    requires clusterId != ""
    ensures var g := Grant(ClusterToken(clusterId), standard, s);
            && (g.Some? <==> InNamespaces(clusterId, standard, s))
            && (g.Some? ==> IdOf(g.value) == IdOf(s))
            && (g.Some? ==> forall a :: a in g.value.actions <==>
                              a in s.actions && (a == "pull" || Under(OwnNamespace(clusterId), s.name)))
  {
    OnlyPullHas(s.actions);
  }

  // Over the whole access loop: every action but pull is on a repository in the cluster's namespace,
  // and the request is refused exactly when a resource lies outside the namespaces.
  method ClusterAccess(clusterId: string, standard: string, requested: seq<Scope>) returns (access: Option<seq<Scope>>)
    requires clusterId != ""
    ensures access.Some? ==> forall e, a | e in access.value && a in e.actions && a != "pull" ::
              e.kind == "repository" && Under(OwnNamespace(clusterId), e.name)
    ensures access.Some? ==> Ids(access.value) == Ids(requested)
    ensures access.Some? <==> forall s | s in requested :: InNamespaces(clusterId, standard, s)
  {
    access := BuildAccess(ClusterToken(clusterId), standard, requested);
    forall s | s in requested
      ensures Grant(ClusterToken(clusterId), standard, s).Some? <==> InNamespaces(clusterId, standard, s)
    {
      ClusterGrants(clusterId, standard, s);
    }
    if access.Some? {
      forall i | 0 <= i < |requested|
        ensures IdOf(access.value[i]) == IdOf(requested[i])
        ensures forall a | a in access.value[i].actions && a != "pull" ::
                  access.value[i].kind == "repository" && Under(OwnNamespace(clusterId), access.value[i].name)
      {
        ClusterGrants(clusterId, standard, requested[i]);
        assert requested[i] in requested;
      }
    }
  }

  // Any other caller is granted what it asks for.
  method OtherAccess(standard: string, requested: seq<Scope>) returns (access: Option<seq<Scope>>)
    ensures access == Some(requested)
  {
    access := BuildAccess(OtherStrategy, standard, requested);
    assert forall s | s in requested :: Grant(OtherStrategy, standard, s) == Some(s);
    assert access.value == requested;
  }

  // A cluster token without its cluster id is refused as soon as anything is asked for.
  method NamelessAccess(standard: string, requested: seq<Scope>) returns (access: Option<seq<Scope>>)
    ensures access.Some? <==> requested == []
  {
    access := BuildAccess(ClusterToken(""), standard, requested);
    if requested != [] { assert requested[0] in requested && Grant(ClusterToken(""), standard, requested[0]).None?; }
  }

  // ---- own namespaces ---------------------------------------------------------------------

  // The first two segments name the cluster.
  predicate Owned(id: string, segments: seq<string>) {
    2 <= |segments| && segments[0] == "cluster" && segments[1] == id
  }

  lemma UnderSegments(id: string, name: string)
    requires '/' !in id
    ensures Under(OwnNamespace(id), name) <==> Owned(id, Split(name, '/'))
  {
    if Under(OwnNamespace(id), name) { UnderIsOwned(id, name); }
    if Owned(id, Split(name, '/')) { OwnedIsUnder(id, name, Split(name, '/')); }
  }

  lemma UnderIsOwned(id: string, name: string)
    requires '/' !in id && Under(OwnNamespace(id), name)
    ensures Owned(id, Split(name, '/'))
  {
    var own := OwnNamespace(id);
    assert own == "cluster" + ['/'] + id;
    if name == own {
      SplitCut("cluster", '/', id);
      SplitWhole(id, '/');
    } else {
      var rest := name[|own| + 1..];
      assert name == "cluster" + ['/'] + (id + ['/'] + rest);
      SplitCut("cluster", '/', id + ['/'] + rest);
      SplitCut(id, '/', rest);
    }
  }

  lemma OwnedIsUnder(id: string, name: string, segments: seq<string>)
    requires segments == Split(name, '/') && Owned(id, segments)
    ensures Under(OwnNamespace(id), name)
  {
    var own := OwnNamespace(id);
    assert own == "cluster" + ['/'] + id;
    JoinSplit(name, '/');
    var rest := Join(segments[1..], '/');
    assert name == "cluster" + ['/'] + rest;
    if |segments| == 2 {
      assert segments[1..] == [id];
    } else {
      assert rest == id + ['/'] + Join(segments[1..][1..], '/');
      assert own + "/" == name[..|own| + 1];
    }
  }

  // Two clusters share no name.
  lemma OwnNamespacesDisjoint(a: string, b: string, name: string)
    requires TagRetention.ClusterId(a) && TagRetention.ClusterId(b) && a != b
    ensures !(Under(OwnNamespace(a), name) && Under(OwnNamespace(b), name))
  {
    UnderSegments(a, name);
    UnderSegments(b, name);
  }

  // ---- auth and reaper in lockstep --------------------------------------------------------

  lemma {:induction false} TrimEndTwice(s: string)
    ensures TrimEnd(TrimEnd(s)) == TrimEnd(s)
    ensures TrimEnd(s) <= s
  {
    if s != "" && Space(s[|s| - 1]) {
      TrimEndTwice(s[..|s| - 1]);
    }
  }

  lemma {:induction false} TrimStartStops(s: string)
    ensures TrimStart(s) == "" || !Space(TrimStart(s)[0])
  {
    if s != "" && Space(s[0]) { TrimStartStops(s[1..]); }
  }

  lemma TrimTwice(s: string)
    ensures Trim(Trim(s)) == Trim(s)
  {
    var t := TrimStart(s);
    TrimStartStops(s);
    TrimEndTwice(t);
    assert TrimStart(TrimEnd(t)) == TrimEnd(t);
  }

  predicate Blank(s: string) { forall c | c in s :: Space(c) }

  predicate Slashes(s: string) { forall c | c in s :: c == '/' }

  lemma {:induction false} TrimStartDrops(s: string) returns (head: string)
    ensures Blank(head) && s == head + TrimStart(s)
  {
    if s != "" && Space(s[0]) {
      var rest := TrimStartDrops(s[1..]);
      head := [s[0]] + rest;
    } else {
      head := "";
    }
  }

  lemma {:induction false} TrimEndDrops(s: string) returns (tail: string)
    ensures Blank(tail) && s == TrimEnd(s) + tail
    ensures TrimEnd(s) == "" || !Space(TrimEnd(s)[|TrimEnd(s)| - 1])
  {
    if s != "" && Space(s[|s| - 1]) {
      var rest := TrimEndDrops(s[..|s| - 1]);
      tail := rest + [s[|s| - 1]];
    } else {
      tail := "";
    }
  }

  // Trimming drops exactly the white space at both ends.
  lemma TrimDrops(s: string) returns (head: string, tail: string)
    ensures Blank(head) && Blank(tail) && s == head + Trim(s) + tail
    ensures Trim(s) == "" || (!Space(Trim(s)[0]) && !Space(Trim(s)[|Trim(s)| - 1]))
  {
    head := TrimStartDrops(s);
    tail := TrimEndDrops(TrimStart(s));
    TrimStartStops(s);
    TrimEndTwice(TrimStart(s));
  }

  // Stripping drops exactly the slashes at the end.
  lemma {:induction false} StripDrops(s: string) returns (tail: string)
    ensures Slashes(tail) && s == StripSlashes(s) + tail
    ensures StripSlashes(s) == "" || StripSlashes(s)[|StripSlashes(s)| - 1] != '/'
  {
    if s != "" && s[|s| - 1] == '/' {
      var rest := StripDrops(s[..|s| - 1]);
      tail := rest + [s[|s| - 1]];
    } else {
      tail := "";
    }
  }

  // A clean entry: one entry, with nothing to trim or strip.
  predicate CleanEntry(e: string) {
    e != "" && OneEntry(e) && !Space(e[0]) && !Space(e[|e| - 1]) && e[|e| - 1] != '/'
  }

  lemma CleanEntryStays(e: string)
    requires CleanEntry(e)
    ensures StripSlashes(Trim(e)) == e
  {}

  lemma {:induction false} CleanEntriesStay(es: seq<string>)
    requires forall e | e in es :: CleanEntry(e)
    ensures Cleaned(es) == es && NonEmpty(es) == es
  {
    if es != [] {
      assert es[0] in es && forall e | e in es[1..] :: e in es;
      CleanEntryStays(es[0]);
      CleanEntriesStay(es[1..]);
    }
  }

  // The setting names the standard modules; one that is absent, empty, or blank but for slashes at its
  // end leaves them at wasm/std.
  lemma StandardInWords(setting: Option<string>)
    ensures setting.None? || setting.value == "" || Blank(setting.value) || Slashes(setting.value) ==>
              StandardNamespace(setting) == "wasm/std"
    ensures setting.Some? && CleanEntry(setting.value) ==> StandardNamespace(setting) == setting.value
  {
    if setting.Some? && Blank(setting.value) { BlankTrims(setting.value); }
    if setting.Some? && Slashes(setting.value) {
      var head, end := TrimDrops(setting.value);
      assert forall c | c in Trim(setting.value) :: c in head + Trim(setting.value) + end;
      AllSlashes(Trim(setting.value));
    }
    if setting.Some? && CleanEntry(setting.value) { CleanEntryStays(setting.value); }
  }

  lemma {:induction false} AllSlashes(s: string)
    requires Slashes(s)
    ensures StripSlashes(s) == ""
  {
    if s != "" {
      var init := s[..|s| - 1];
      forall c | c in init ensures c == '/' { assert c in s; }
      assert s[|s| - 1] in s;
      AllSlashes(init);
    }
  }

  lemma CommaList(es: seq<string>)
    requires es != [] && forall e | e in es :: CleanEntry(e)
    ensures Entries(Join(es, ',')) == es
  {
    JoinHas(es, ',');
    assert '\n' !in Join(es, ',');
    SplitWhole(Join(es, ','), '\n');
    SplitJoin(es, ',');
    assert EntriesOf([Join(es, ',')]) == es + EntriesOf([]);
  }

  // An override that is not blank replaces the setting: a list of entries protects each of them once, in
  // order.  A blank one is no override.
  lemma OverrideProtects(setting: Option<string>, es: seq<string>)
    requires es != [] && forall e | e in es :: CleanEntry(e)
    ensures ProtectedNamespaces(setting, Some(Join(es, ','))) == Distinct(es)
  {
    CommaList(es);
    CleanEntriesStay(es);
    assert es[0] in es;
    JoinStarts(es);
    StartKept(Join(es, ','));
  }

  lemma {:induction false} EndKept(s: string)
    requires s != "" && !Space(s[0])
    ensures TrimEnd(s) != ""
  {
    if |s| > 1 { EndKept(s[..|s| - 1]); }
  }

  lemma StartKept(s: string)
    requires s != "" && !Space(s[0])
    ensures Trim(s) != ""
  {
    EndKept(s);
  }

  lemma {:induction false} BlankTrims(s: string)
    requires Blank(s)
    ensures TrimStart(s) == ""
  {
    if s != "" {
      assert s[0] in s && forall c | c in s[1..] :: c in s;
      BlankTrims(s[1..]);
    }
  }

  lemma JoinStarts(es: seq<string>)
    requires es != [] && es[0] != ""
    ensures Join(es, ',') != "" && Join(es, ',')[0] == es[0][0]
  {}

  lemma BlankOverride(setting: Option<string>, blank: string)
    requires Blank(blank)
    ensures ProtectedNamespaces(setting, Some(blank)) == ProtectedNamespaces(setting, None)
  {
    BlankTrims(blank);
  }

  predicate OneEntry(s: string) { ',' !in s && '\n' !in s }

  lemma OneEntrySplits(source: string)
    requires OneEntry(source)
    ensures Entries(source) == [source]
  {
    SplitWhole(source, '\n');
    SplitWhole(source, ',');
    assert EntriesOf([source]) == [source] + EntriesOf([]);
  }

  lemma DistinctNonEmptyOne(entry: string)
    ensures Distinct(NonEmpty([entry])) == if entry == "" then [] else [entry]
  {
    if entry != "" { DistinctOfDistinct([entry]); }
  }

  lemma CleanOne(source: string)
    ensures Cleaned([source]) == [StripSlashes(Trim(source))]
  {
    assert [source][1..] == [];
  }

  // Without an override, a setting of one entry protects that entry, if anything is left of it.
  lemma ProtectsTheSetting(setting: Option<string>)
    requires OneEntry(Trim(Or(setting, DEFAULT_NAMESPACE)))
    ensures var prefix := StripSlashes(Trim(Or(setting, DEFAULT_NAMESPACE)));
            ProtectedNamespaces(setting, None) == if prefix == "" then [] else [prefix]
  {
    var source := Trim(Or(setting, DEFAULT_NAMESPACE));
    TrimTwice(Or(setting, DEFAULT_NAMESPACE));
    OneEntrySplits(source);
    CleanOne(source);
    DistinctNonEmptyOne(StripSlashes(source));
  }

  lemma DefaultTrimmed()
    ensures StripSlashes(Trim(DEFAULT_NAMESPACE)) == DEFAULT_NAMESPACE
  {
    assert TrimStart(DEFAULT_NAMESPACE) == DEFAULT_NAMESPACE;
  }

  // The setting is absent or names something.
  predicate Usable(setting: Option<string>) {
    setting.None? || setting.value == "" || StripSlashes(Trim(setting.value)) != ""
  }

  lemma ProtectsTheNamespace(setting: Option<string>)
    requires OneEntry(Trim(Or(setting, DEFAULT_NAMESPACE)))
    ensures ProtectedNamespaces(setting, None) == if Usable(setting) then [StandardNamespace(setting)] else []
    ensures !Usable(setting) ==> StandardNamespace(setting) == DEFAULT_NAMESPACE
  {
    ProtectsTheSetting(setting);
    DefaultTrimmed();
    assert Trim("") == "" && StripSlashes("") == "";
  }

  lemma ProtectsExactlyUnder(standard: string, p: Selection.Policy, repo: Selection.Repo)
    requires p.protected == [standard] && Plain(standard)
    ensures Selection.Protected(p, repo) <==> Under(standard, Selection.Path(repo))
  {
    Selection.ProtectedExactly(p, repo);
    assert standard in p.protected;
  }

  lemma NothingProtected(p: Selection.Policy)
    requires p.protected == []
    ensures var repo := Selection.Repo("wasm", "std");
            Under(DEFAULT_NAMESPACE, Selection.Path(repo)) && !Selection.Protected(p, repo)
  {
    assert Selection.Path(Selection.Repo("wasm", "std")) == DEFAULT_NAMESPACE;
  }

  // The reaper's policy under a setting, without an override.
  function Configured(p: Selection.Policy, setting: Option<string>): Selection.Policy {
    p.(protected := ProtectedNamespaces(setting, None))
  }

  // A repository that an entry protects: its wildcards filled in, and one more segment.
  function Neighbour(entry: string): Selection.Repo {
    Selection.Repo(Instance(entry, 'x'), if entry != "" && entry[|entry| - 1] == 'x' then "y" else "x")
  }

  lemma NeighbourIsProtected(p: Selection.Policy, entry: string)
    requires entry in p.protected
    ensures Selection.Protected(p, Neighbour(entry))
  {
    var path, k := Selection.Path(Neighbour(entry)), |Instance(entry, 'x')|;
    InstanceMatches(entry, 'x');
    assert path[..k] == Instance(entry, 'x') && BelowAt(path, k, entry);
    Selection.ProtectedExactly(p, Neighbour(entry));
    assert Selection.SomewhereBelow(path, entry);
  }

  // An entry with a wildcard or a backslash does not name that repository literally.
  lemma NeighbourIsNotUnder(entry: string)
    requires !Plain(entry)
    ensures !Under(entry, Selection.Path(Neighbour(entry)))
  {
    var head, path := Instance(entry, 'x'), Selection.Path(Neighbour(entry));
    InstanceShape(entry, 'x');
    if '\\' !in entry { InstanceDiffers(entry, 'x'); }
    assert path[|path| - 1] != entry[|entry| - 1] && path[|path| - 1] != '/';
    assert path[..|head|] == head && (entry + "/")[..|entry|] == entry && (entry + "/")[|entry|] == '/';
  }

  lemma {:induction false} StripKeeps(s: string, c: char)
    requires c != '/'
    ensures c in StripSlashes(s) <==> c in s
  {
    if s != "" && s[|s| - 1] == '/' {
      StripKeeps(s[..|s| - 1], c);
      assert s == s[..|s| - 1] + [s[|s| - 1]];
    }
  }

  lemma {:induction false} TrimStartHas(s: string)
    ensures forall c | c in TrimStart(s) :: c in s
  {
    if s != "" && Space(s[0]) { TrimStartHas(s[1..]); }
  }

  lemma {:induction false} TrimEndHas(s: string)
    ensures forall c | c in TrimEnd(s) :: c in s
  {
    if s != "" && Space(s[|s| - 1]) { TrimEndHas(s[..|s| - 1]); }
  }

  lemma {:induction false} SplitOnCommas(lines: seq<string>)
    requires forall l | l in lines :: '\n' !in l
    ensures forall e | e in EntriesOf(lines) :: OneEntry(e)
  {
    if lines != [] {
      assert lines[0] in lines && forall l | l in lines[1..] :: l in lines;
      SplitOnCommas(lines[1..]);
      SplitHasNoSep(lines[0], ',');
      forall e | e in Split(lines[0], ',')
        ensures OneEntry(e)
      {
        PartOf(lines[0], ',', e);
      }
    }
  }

  lemma CleanedIsOneEntry(entry: string)
    requires OneEntry(entry)
    ensures OneEntry(StripSlashes(Trim(entry)))
  {
    TrimStartHas(entry);
    TrimEndHas(TrimStart(entry));
    StripKeeps(Trim(entry), ',');
    StripKeeps(Trim(entry), '\n');
  }

  lemma {:induction false} CleanedAreOneEntry(entries: seq<string>)
    requires forall e | e in entries :: OneEntry(e)
    ensures forall e | e in Cleaned(entries) :: OneEntry(e)
  {
    if entries != [] {
      assert entries[0] in entries && forall e | e in entries[1..] :: e in entries;
      CleanedIsOneEntry(entries[0]);
      CleanedAreOneEntry(entries[1..]);
    }
  }

  lemma ProtectedAreOneEntry(setting: Option<string>, explicit: Option<string>)
    ensures forall e | e in ProtectedNamespaces(setting, explicit) :: OneEntry(e) && e != ""
  {
    var fallback := Trim(Or(setting, DEFAULT_NAMESPACE));
    var source := if explicit.Some? && Trim(explicit.value) != "" then explicit.value else fallback;
    SplitHasNoSep(source, '\n');
    SplitOnCommas(Split(source, '\n'));
    CleanedAreOneEntry(Entries(source));
    NonEmptyMembers(Cleaned(Entries(source)));
    DistinctExactly(NonEmpty(Cleaned(Entries(source))));
  }

  lemma UnderHas(namespace: string, name: string)
    requires Under(namespace, name) && OneEntry(name)
    ensures OneEntry(namespace)
  {
    if name != namespace {
      assert forall i | 0 <= i < |namespace| :: namespace[i] == (namespace + "/")[i] == name[i];
    }
  }

  lemma NeighbourIsOneEntry(entry: string)
    requires OneEntry(entry)
    ensures OneEntry(Selection.Path(Neighbour(entry)))
  {
    InstanceShape(entry, 'x');
  }

  // Auth reads a setting with an inner comma or newline as one namespace, which names none of what the
  // reaper makes of its entries.
  lemma SeveralEntriesDiffer(setting: Option<string>, p: Selection.Policy) returns (repo: Selection.Repo)
    requires !OneEntry(Trim(Or(setting, DEFAULT_NAMESPACE)))
    ensures Under(StandardNamespace(setting), Selection.Path(repo)) <==>
            !Selection.Protected(Configured(p, setting), repo)
  {
    var standard, protected := StandardNamespace(setting), ProtectedNamespaces(setting, None);
    SeparatorStays(setting);
    if protected == [] {
      repo := Selection.Repo(standard, "x");
      assert standard + "/" <= Selection.Path(repo);
    } else {
      var entry := protected[0];
      repo := Neighbour(entry);
      ProtectedAreOneEntry(setting, None);
      NeighbourIsProtected(Configured(p, setting), entry);
      NeighbourIsOneEntry(entry);
      if Under(standard, Selection.Path(repo)) { UnderHas(standard, Selection.Path(repo)); }
    }
  }

  lemma SeparatorStays(setting: Option<string>)
    requires !OneEntry(Trim(Or(setting, DEFAULT_NAMESPACE)))
    ensures !OneEntry(StandardNamespace(setting))
  {
    DefaultIsOneEntry();
    var raw := Trim(Or(setting, DEFAULT_NAMESPACE));
    StripKeeps(raw, ',');
    StripKeeps(raw, '\n');
    assert StandardNamespace(setting) == StripSlashes(raw);
  }

  lemma DefaultIsOneEntry()
    ensures OneEntry(Trim(DEFAULT_NAMESPACE))
  {
    TrimStartHas(DEFAULT_NAMESPACE);
    TrimEndHas(TrimStart(DEFAULT_NAMESPACE));
    assert OneEntry(DEFAULT_NAMESPACE);
  }

  // For every setting, without an override: what auth treats as standard modules is exactly what the
  // reaper protects if and only if the setting is one entry without wildcards or backslashes that is
  // absent, empty or names something.  A setting of only blanks or slashes makes auth fall back to
  // wasm/std while the reaper protects nothing.
  lemma Lockstep(setting: Option<string>, p: Selection.Policy)
    ensures (forall repo :: Under(StandardNamespace(setting), Selection.Path(repo)) <==>
                            Selection.Protected(Configured(p, setting), repo))
            <==> OneEntry(Trim(Or(setting, DEFAULT_NAMESPACE))) && Usable(setting) && Plain(StandardNamespace(setting))
  {
    if !OneEntry(Trim(Or(setting, DEFAULT_NAMESPACE))) {
      var repo := SeveralEntriesDiffer(setting, p);
    } else if !Usable(setting) {
      ProtectsTheNamespace(setting);
      NothingProtected(Configured(p, setting));
    } else if !Plain(StandardNamespace(setting)) {
      WildcardProtectsNeighbour(setting, p);
    } else {
      ProtectsTheNamespace(setting);
      forall repo
        ensures Under(StandardNamespace(setting), Selection.Path(repo)) <==>
                Selection.Protected(Configured(p, setting), repo)
      {
        ProtectsExactlyUnder(StandardNamespace(setting), Configured(p, setting), repo);
      }
    }
  }

  // A percent sign, an underscore or a backslash anywhere in the namespace makes the reaper protect a
  // repository that auth does not treat as standard.
  lemma WildcardProtectsNeighbour(setting: Option<string>, p: Selection.Policy)
    requires OneEntry(Trim(Or(setting, DEFAULT_NAMESPACE))) && Usable(setting) && !Plain(StandardNamespace(setting))
    ensures var repo := Neighbour(StandardNamespace(setting));
            && Selection.Protected(Configured(p, setting), repo)
            && !Under(StandardNamespace(setting), Selection.Path(repo))
  {
    ProtectsTheNamespace(setting);
    assert StandardNamespace(setting) in Configured(p, setting).protected;
    NeighbourIsProtected(Configured(p, setting), StandardNamespace(setting));
    NeighbourIsNotUnder(StandardNamespace(setting));
  }

  lemma {:induction false} LikeItself(prefix: string, rest: string)
    requires '\\' !in prefix
    ensures Like(prefix + rest, prefix + "%")
  {
    if prefix == "" {
      PercentMatchesAll(rest);
      assert prefix + rest == rest && prefix + "%" == "%";
    } else {
      LikeItself(prefix[1..], rest);
      assert (prefix + rest)[1..] == prefix[1..] + rest && (prefix + "%")[1..] == prefix[1..] + "%";
      if prefix[0] == '%' { LikeMore(prefix[0], prefix[1..] + rest, prefix[1..] + "%", prefix + rest, prefix + "%"); }
    }
  }

  lemma LikeMore(c: char, s: string, pattern: string, whole: string, percent: string)
    requires Like(s, pattern) && whole == [c] + s && percent == "%" + pattern
    ensures Like(whole, percent)
  {
    assert percent[1..] == pattern && whole[1..] == s;
    assert Like(s, percent);
  }

  lemma LikeUnder(standard: string, path: string)
    requires '\\' !in standard && standard + "/" <= path
    ensures Like(path, standard + "/%")
  {
    var prefix, rest := standard + "/", path[|standard| + 1..];
    LikeItself(prefix, rest);
    assert path == prefix + rest && standard + "/%" == prefix + "%";
  }

  // With wildcards in the setting the reaper still protects every standard module.
  lemma StandardIsProtected(setting: Option<string>, p: Selection.Policy, repo: Selection.Repo)
    requires OneEntry(Trim(Or(setting, DEFAULT_NAMESPACE))) && Usable(setting) && '\\' !in StandardNamespace(setting)
    requires Under(StandardNamespace(setting), Selection.Path(repo))
    ensures Selection.Protected(Configured(p, setting), repo)
  {
    ProtectsTheNamespace(setting);
    var standard := StandardNamespace(setting);
    assert standard in Configured(p, setting).protected;
    if Selection.Path(repo) != standard { LikeUnder(standard, Selection.Path(repo)); }
  }
}
