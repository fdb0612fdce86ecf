// The token server's scope parameter (auth/src/scope.ts): parsing, merging and printing.
module Scopes {
  import opened Options
  import opened Strings
  import opened Lists

  // One requested resource with its actions.
  datatype Scope = Scope(kind: string, name: string, actions: seq<string>)

  datatype Id = Id(kind: string, name: string)

  function IdOf(s: Scope): Id { Id(s.kind, s.name) }

  // A value of the repeated query parameter; anything but text is dropped.
  datatype Raw = Text(text: string) | NotText

  // ---- values -----------------------------------------------------------------------------

  // JavaScript's \s
  predicate Space(c: char) {
    var n := c as int;
    9 <= n <= 13 || n == 0x20 || n == 0xa0 || n == 0x1680 || 0x2000 <= n <= 0x200a || n == 0x2028 || n == 0x2029 ||
    n == 0x202f || n == 0x205f || n == 0x3000 || n == 0xfeff
  }

  // The 25 white space and line terminator code units of section 12 of ECMA-262.
  predicate SpaceCode(n: int) {
    n in {9, 10, 11, 12, 13, 32, 160, 5760, 8192, 8193, 8194, 8195, 8196, 8197, 8198, 8199, 8200, 8201, 8202,
          8232, 8233, 8239, 8287, 12288, 65279}
  }

  lemma SpaceCodes(c: char)
    ensures Space(c) <==> SpaceCode(c as int)
  {}

  predicate Solid(s: string) { forall c | c in s :: !Space(c) }

  // Cutting at every white space; the empty pieces between neighbours are dropped afterwards.
  function Pieces(s: string): (parts: seq<string>)
    ensures parts != []
  {
    if s == "" then [""]
    else
      var rest := Pieces(s[1..]);
      if Space(s[0]) then [""] + rest else [[s[0]] + rest[0]] + rest[1..]
  }

  function ScopeValues(raws: seq<Raw>): seq<string> {
    if raws == [] then []
    else
      var before, last := ScopeValues(raws[..|raws| - 1]), raws[|raws| - 1];
      before + if last.Text? then NonEmpty(Pieces(last.text)) else []
  }

  lemma {:induction false} PiecesAreSolid(s: string)
    ensures forall p | p in Pieces(s) :: Solid(p)
  {
    if s != "" {
      var rest := Pieces(s[1..]);
      PiecesAreSolid(s[1..]);
      assert rest[0] in rest && forall p | p in rest[1..] :: p in rest;
    }
  }

  lemma {:induction false} SolidIsOnePiece(s: string)
    requires Solid(s)
    ensures Pieces(s) == [s]
  {
    if s != "" {
      assert s[0] in s && forall c | c in s[1..] :: c in s;
      SolidIsOnePiece(s[1..]);
      assert [s[0]] + s[1..] == s;
    }
  }

  lemma {:induction false} ValuesAreSolid(raws: seq<Raw>)
    ensures forall v | v in ScopeValues(raws) :: Solid(v) && v != ""
  {
    if raws != [] {
      ValuesAreSolid(raws[..|raws| - 1]);
      var last := raws[|raws| - 1];
      if last.Text? {
        PiecesAreSolid(last.text);
        NonEmptyMembers(Pieces(last.text));
      }
    }
  }

  lemma {:induction false} PiecesCut(a: string, c: char, b: string)
    requires Space(c)
    ensures Pieces(a + [c] + b) == Pieces(a) + Pieces(b)
  {
    var s := a + [c] + b;
    if a == "" {
      assert s[1..] == b;
    } else {
      assert s[1..] == a[1..] + [c] + b;
      PiecesCut(a[1..], c, b);
    }
  }

  // White space between two texts in one value separates their scopes, and all of them are read; so do
  // repeated values, and what is not text is dropped.
  lemma AllScopesAreRead(raws: seq<Raw>, a: string, c: char, b: string)
    requires c == ' ' || c == '\t' || c == '\n' || c == '\r'
    ensures ScopeValues([Text(a + [c] + b)]) == ScopeValues([Text(a)]) + ScopeValues([Text(b)])
    ensures ScopeValues(raws + [Text(a)]) == ScopeValues(raws) + ScopeValues([Text(a)])
    ensures ScopeValues(raws + [NotText]) == ScopeValues(raws)
    ensures Solid(a) && a != "" ==> ScopeValues([Text(a)]) == [a]
  {
    TwoTexts(a, c, b);
    MoreValues(raws, Text(a));
    MoreValues(raws, NotText);
    OneValue(NotText);
    assert ScopeValues(raws) + [] == ScopeValues(raws);
    if Solid(a) && a != "" { SolidText(a); }
  }

  lemma TwoTexts(a: string, c: char, b: string)
    requires Space(c)
    ensures ScopeValues([Text(a + [c] + b)]) == ScopeValues([Text(a)]) + ScopeValues([Text(b)])
  {
    PiecesCut(a, c, b);
    NonEmptyConcat(Pieces(a), Pieces(b));
    OneValue(Text(a + [c] + b));
    OneValue(Text(a));
    OneValue(Text(b));
  }

  lemma MoreValues(raws: seq<Raw>, raw: Raw)
    ensures ScopeValues(raws + [raw]) == ScopeValues(raws) + ScopeValues([raw])
  {
    OneValue(raw);
    assert (raws + [raw])[..|raws|] == raws;
  }

  lemma SolidText(a: string)
    requires Solid(a) && a != ""
    ensures ScopeValues([Text(a)]) == [a]
  {
    OneValue(Text(a));
    SolidIsOnePiece(a);
    assert NonEmpty([a]) == [a] + NonEmpty([]);
  }

  lemma OneValue(raw: Raw)
    ensures ScopeValues([raw]) == if raw.Text? then NonEmpty(Pieces(raw.text)) else []
  {
    assert [raw][..0] == [];
  }

  // ---- one scope --------------------------------------------------------------------------

  function FirstFrom(s: string, i: nat): (r: nat)
    requires i <= |s|
    ensures i <= r <= |s| && (forall j | i <= j < r :: s[j] != ':') && (r < |s| ==> s[r] == ':')
    decreases |s| - i
  {
    if i == |s| || s[i] == ':' then i else FirstFrom(s, i + 1)
  }

  function LastBefore(s: string, i: nat): (r: int)
    requires i <= |s|
    ensures -1 <= r < i && (forall j | r < j < i :: s[j] != ':') && (r >= 0 ==> s[r] == ':')
  {
    if i == 0 then -1 else if s[i - 1] == ':' then i - 1 else LastBefore(s, i - 1)
  }

  // indexOf, with the length for -1
  function FirstColon(s: string): (i: nat)
    ensures i <= |s| && (forall j | 0 <= j < i :: s[j] != ':') && (i < |s| ==> s[i] == ':')
  {
    FirstFrom(s, 0)
  }

  // lastIndexOf
  function LastColon(s: string): (i: int)
    ensures -1 <= i < |s| && (forall j | i < j < |s| :: s[j] != ':') && (i >= 0 ==> s[i] == ':')
  {
    LastBefore(s, |s|)
  }

  function ParseScope(value: string): Option<Scope> {
    var first, last := FirstColon(value), LastColon(value);
    if first == 0 || first >= last || last == first + 1 then None
    else Some(Scope(value[..first], value[first + 1..last], NonEmpty(Split(value[last + 1..], ','))))
  }

  lemma Nameless(kind: string, name: string, rest: string, value: string)
    requires ':' !in kind && ':' !in rest && (kind == "" || name == "") && value == kind + ":" + (name + ":" + rest)
    ensures ParseScope(value) == None
  {
    ColonsOf(kind, name, rest);
  }

  // Which values parse, and to what: the type ends at the first colon, the actions start after the last,
  // and everything between is the name, which must not be empty, nor the type.
  lemma ParseScopeExactly(kind: string, name: string, rest: string, value: string)
    requires ':' !in kind && ':' !in rest && value == kind + ":" + (name + ":" + rest)
    ensures ParseScope(value) ==
            if kind == "" || name == "" then None else Some(Scope(kind, name, NonEmpty(Split(rest, ','))))
  {
    if kind == "" || name == "" {
      Nameless(kind, name, rest, value);
    } else {
      PartsParse(Scope(kind, name, NonEmpty(Split(rest, ','))), rest, value);
    }
  }

  // Fewer than two colons never parse.
  lemma TooFewColons(value: string, i: nat)
    requires i <= |value| && ':' !in value[..i] && (i < |value| ==> ':' !in value[i + 1..])
    ensures ParseScope(value) == None
  {
    var first, last := FirstColon(value), LastColon(value);
    assert forall j | 0 <= j < i :: value[j] == value[..i][j];
    assert forall j | i < j < |value| :: value[j] == value[i + 1..][j - i - 1];
  }

  function Print(s: Scope): string { s.kind + ":" + (s.name + ":" + Join(s.actions, ',')) }

  predicate GoodAction(a: string) { a != "" && Solid(a) && ',' !in a && ':' !in a }

  // What every parsed entry is.
  predicate WellFormed(s: Scope) {
    && s.kind != "" && s.name != "" && Solid(s.kind) && Solid(s.name) && ':' !in s.kind
    && forall a | a in s.actions :: GoodAction(a)
  }

  lemma ActionsAreGood(rest: string)
    requires Solid(rest) && ':' !in rest
    ensures forall a | a in NonEmpty(Split(rest, ',')) :: GoodAction(a)
  {
    NonEmptyMembers(Split(rest, ','));
    SplitHasNoSep(rest, ',');
    forall a | a in Split(rest, ',')
      ensures Solid(a) && ':' !in a
    {
      PartOf(rest, ',', a);
    }
  }

  lemma ParsedIsWellFormed(value: string)
    requires Solid(value) && ParseScope(value).Some?
    ensures WellFormed(ParseScope(value).value)
  {
    var first, last := FirstColon(value), LastColon(value);
    var kind, name, rest := value[..first], value[first + 1..last], value[last + 1..];
    assert forall c | c in kind || c in name || c in rest :: c in value;
    assert forall j | 0 <= j < |rest| :: rest[j] == value[last + 1 + j];
    ActionsAreGood(rest);
  }

  lemma {:induction false} PartOf(s: string, sep: char, part: string)
    requires part in Split(s, sep)
    ensures forall c | c in part :: c in s
  {
    if s != "" {
      var rest := Split(s[1..], sep);
      if s[0] == sep {
        if part in rest { PartOf(s[1..], sep, part); }
      } else {
        PartOf(s[1..], sep, rest[0]);
        if part in rest[1..] { PartOf(s[1..], sep, part); }
      }
    }
  }

  lemma ColonsOf(kind: string, name: string, tail: string)
    requires ':' !in kind && ':' !in tail
    ensures var s, l := kind + ":" + (name + ":" + tail), |kind| + 1 + |name|;
            && FirstColon(s) == |kind| && LastColon(s) == l && l < |s|
            && s[..|kind|] == kind && s[|kind| + 1..l] == name && s[l + 1..] == tail
  {
    var s, l := kind + ":" + (name + ":" + tail), |kind| + 1 + |name|;
    assert s[|kind|] == ':' && s[l] == ':';
    assert s[..|kind|] == kind && s[|kind| + 1..l] == name && s[l + 1..] == tail;
    assert forall j | 0 <= j < |kind| :: s[j] == kind[j];
    assert forall j | l < j < |s| :: s[j] == tail[j - l - 1];
  }

  lemma {:induction false} JoinHas(parts: seq<string>, sep: char)
    ensures forall c | c in Join(parts, sep) :: c == sep || exists p :: p in parts && c in p
  {
    if |parts| > 1 {
      JoinHas(parts[1..], sep);
      assert forall p | p in parts[1..] :: p in parts;
    }
  }

  lemma PrintedActions(actions: seq<string>)
    requires forall a | a in actions :: GoodAction(a)
    ensures ':' !in Join(actions, ',') && Solid(Join(actions, ','))
    ensures NonEmpty(Split(Join(actions, ','), ',')) == actions
  {
    JoinHas(actions, ',');
    if actions == [] {
      assert Split("", ',') == [""] && NonEmpty([""]) == [];
    } else {
      SplitJoin(actions, ',');
      NonEmptyAll(actions);
    }
  }

  lemma PrintIsSolid(s: Scope)
    requires WellFormed(s)
    ensures Solid(Print(s)) && Print(s) != ""
  {
    PrintedActions(s.actions);
    var tail := s.name + ":" + Join(s.actions, ',');
    assert Solid(tail);
  }

  lemma ParsedParts(value: string, s: Scope)
    requires s.kind != "" && s.name != ""
    requires FirstColon(value) == |s.kind| && LastColon(value) == |s.kind| + 1 + |s.name| < |value|
    requires value[..|s.kind|] == s.kind && value[|s.kind| + 1..|s.kind| + 1 + |s.name|] == s.name
    requires NonEmpty(Split(value[|s.kind| + 1 + |s.name| + 1..], ',')) == s.actions
    ensures ParseScope(value) == Some(s)
  {}

  lemma PartsParse(s: Scope, tail: string, value: string)
    requires s.kind != "" && s.name != "" && ':' !in s.kind && ':' !in tail
    requires NonEmpty(Split(tail, ',')) == s.actions && value == s.kind + ":" + (s.name + ":" + tail)
    ensures ParseScope(value) == Some(s)
  {
    ColonsOf(s.kind, s.name, tail);
    ParsedParts(value, s);
  }

  // Printing a well-formed scope and parsing it gives it back.
  lemma ParsePrint(s: Scope)
    requires WellFormed(s)
    ensures ParseScope(Print(s)) == Some(s)
  {
    PrintedActions(s.actions);
    PartsParse(s, Join(s.actions, ','), Print(s));
  }

  // ---- merging ----------------------------------------------------------------------------

  function Parsed(values: seq<string>): seq<Scope> {
    if values == [] then []
    else
      var s := ParseScope(values[|values| - 1]);
      Parsed(values[..|values| - 1]) + if s.Some? then [s.value] else []
  }

  function Ids(scopes: seq<Scope>): seq<Id> { seq(|scopes|, i requires 0 <= i < |scopes| => IdOf(scopes[i])) }

  // All actions requested for a resource, in order, with repetitions.
  function ActionsFor(scopes: seq<Scope>, id: Id): seq<string> {
    if scopes == [] then []
    else
      var last := scopes[|scopes| - 1];
      ActionsFor(scopes[..|scopes| - 1], id) + if IdOf(last) == id then last.actions else []
  }

  function Entry(scopes: seq<Scope>, id: Id): Scope { Scope(id.kind, id.name, Distinct(ActionsFor(scopes, id))) }

  // One entry for each requested resource in first-seen order, with the first-seen order of its actions.
  function Normal(scopes: seq<Scope>): seq<Scope> {
    var ids := Distinct(Ids(scopes));
    seq(|ids|, i requires 0 <= i < |ids| => Entry(scopes, ids[i]))
  }

  function ParseRequestedScopes(raws: seq<Raw>): seq<Scope> { Normal(Parsed(ScopeValues(raws))) }

  // The key of the merging map: `${type}:${name}`.
  function KeyOf(id: Id): string { id.kind + [':'] + id.name }

  // It never merges different resources, as a type ends at the first colon.
  lemma KeyUnambiguous(a: Id, b: Id)
    requires ':' !in a.kind && ':' !in b.kind && KeyOf(a) == KeyOf(b)
    ensures a == b
  {
    CutUnique(a.kind, a.name, b.kind, b.name, ':');
  }

  lemma IdsStep(scopes: seq<Scope>, s: Scope)
    ensures Distinct(Ids(scopes + [s])) ==
            if IdOf(s) in Distinct(Ids(scopes)) then Distinct(Ids(scopes)) else Distinct(Ids(scopes)) + [IdOf(s)]
  {
    assert Ids(scopes + [s]) == Ids(scopes) + [IdOf(s)];
    DistinctStep(Ids(scopes), IdOf(s));
  }

  lemma EntryStep(scopes: seq<Scope>, s: Scope, id: Id)
    ensures Entry(scopes + [s], id) ==
            if IdOf(s) == id then Scope(s.kind, s.name, Distinct(ActionsFor(scopes, id) + s.actions))
            else Entry(scopes, id)
  {
    assert (scopes + [s])[..|scopes|] == scopes;
    assert ActionsFor(scopes, id) + [] == ActionsFor(scopes, id);
  }

  lemma {:induction false} NoActionsForUnseen(scopes: seq<Scope>, id: Id)
    requires id !in Ids(scopes)
    ensures ActionsFor(scopes, id) == []
  {
    if scopes != [] {
      var init := scopes[..|scopes| - 1];
      assert forall x | x in Ids(init) :: x in Ids(scopes) by {
        assert Ids(init) == Ids(scopes)[..|init|];
      }
      assert Ids(scopes)[|scopes| - 1] == IdOf(scopes[|scopes| - 1]);
      NoActionsForUnseen(init, id);
    }
  }

  // Pushing the actions that are not yet there.
  method AddActions(actions: seq<string>, more: seq<string>, ghost before: seq<string>) returns (all: seq<string>)
    requires actions == Distinct(before)
    ensures all == Distinct(before + more)
  {
    all := actions;
    assert before + more[..0] == before;
    for n := 0 to |more|
      invariant all == Distinct(before + more[..n])
    {
      assert before + more[..n + 1] == (before + more[..n]) + [more[n]];
      DistinctStep(before + more[..n], more[n]);
      if more[n] !in all { all := all + [more[n]]; }
    }
    assert more[..|more|] == more;
  }

  // The map holds the entry of each id under its key; the keys are in the order of the ids.
  ghost predicate Holds(ids: seq<Id>, entryOf: Id -> Scope, keys: seq<string>, merged: map<string, Scope>) {
    && |keys| == |ids| && (forall k | k in merged :: k in keys)
    && forall i | 0 <= i < |ids| ::
         ':' !in ids[i].kind && keys[i] == KeyOf(ids[i]) && keys[i] in merged && merged[keys[i]] == entryOf(ids[i])
  }

  lemma HoldsAt(ids: seq<Id>, entryOf: Id -> Scope, keys: seq<string>, merged: map<string, Scope>, id: Id)
    requires Holds(ids, entryOf, keys, merged) && ':' !in id.kind
    ensures KeyOf(id) in merged <==> id in ids
    ensures id in ids ==> merged[KeyOf(id)] == entryOf(id)
  {
    if KeyOf(id) in merged {
      var i :| 0 <= i < |keys| && keys[i] == KeyOf(id);
      KeyUnambiguous(ids[i], id);
    }
  }

  lemma HoldsStep(ids: seq<Id>, before: Id -> Scope, after: Id -> Scope,
                  keys: seq<string>, merged: map<string, Scope>, id: Id)
    requires Holds(ids, before, keys, merged) && ':' !in id.kind
    requires forall x | x != id :: after(x) == before(x)
    ensures var k := KeyOf(id);
            Holds(if id in ids then ids else ids + [id], after,
                  if k in merged then keys else keys + [k], merged[k := after(id)])
  {
    var k := KeyOf(id);
    HoldsAt(ids, before, keys, merged, id);
    forall i | 0 <= i < |ids| && keys[i] == k
      ensures ids[i] == id
    {
      KeyUnambiguous(ids[i], id);
    }
  }

  // The merging map after some scopes.
  ghost predicate Merges(scopes: seq<Scope>, keys: seq<string>, merged: map<string, Scope>) {
    Holds(Distinct(Ids(scopes)), id => Entry(scopes, id), keys, merged)
  }

  lemma MergesAt(scopes: seq<Scope>, keys: seq<string>, merged: map<string, Scope>, id: Id)
    requires Merges(scopes, keys, merged) && ':' !in id.kind
    ensures KeyOf(id) in merged ==> merged[KeyOf(id)] == Entry(scopes, id)
    ensures KeyOf(id) !in merged ==> ActionsFor(scopes, id) == []
  {
    HoldsAt(Distinct(Ids(scopes)), x => Entry(scopes, x), keys, merged, id);
    DistinctExactly(Ids(scopes));
    if KeyOf(id) !in merged { NoActionsForUnseen(scopes, id); }
  }

  lemma MergesStep(scopes: seq<Scope>, s: Scope, keys: seq<string>, merged: map<string, Scope>)
    requires Merges(scopes, keys, merged) && ':' !in s.kind
    ensures var k := KeyOf(IdOf(s));
            Merges(scopes + [s], if k in merged then keys else keys + [k], merged[k := Entry(scopes + [s], IdOf(s))])
  {
    forall id | id != IdOf(s)
      ensures Entry(scopes + [s], id) == Entry(scopes, id)
    {
      EntryStep(scopes, s, id);
    }
    IdsStep(scopes, s);
    HoldsStep(Distinct(Ids(scopes)), id => Entry(scopes, id), id => Entry(scopes + [s], id), keys, merged, IdOf(s));
  }

  // The map's values, in the order of its keys.
  function Values(keys: seq<string>, merged: map<string, Scope>): seq<Scope>
    requires forall k | k in keys :: k in merged
  {
    seq(|keys|, i requires 0 <= i < |keys| => merged[keys[i]])
  }

  lemma MergesGive(scopes: seq<Scope>, keys: seq<string>, merged: map<string, Scope>)
    requires Merges(scopes, keys, merged)
    ensures forall k | k in keys :: k in merged
    ensures Values(keys, merged) == Normal(scopes)
  {
    var ids := Distinct(Ids(scopes));
    forall k | k in keys ensures k in merged {
      var i :| 0 <= i < |keys| && keys[i] == k;
    }
    assert forall i | 0 <= i < |ids| :: Values(keys, merged)[i] == Entry(scopes, ids[i]);
  }

  // One round of the loop: merging one parsed scope.
  method MergeOne(keys: seq<string>, merged: map<string, Scope>, s: Scope, ghost scopes: seq<Scope>)
    returns (moreKeys: seq<string>, moreMerged: map<string, Scope>)
    requires Merges(scopes, keys, merged) && ':' !in s.kind
    ensures Merges(scopes + [s], moreKeys, moreMerged)
  {
    var key := KeyOf(IdOf(s));
    MergesAt(scopes, keys, merged, IdOf(s));
    var entry := if key in merged then merged[key] else Scope(s.kind, s.name, []);
    var actions := AddActions(entry.actions, s.actions, ActionsFor(scopes, IdOf(s)));
    entry := entry.(actions := actions);
    EntryStep(scopes, s, IdOf(s));
    MergesStep(scopes, s, keys, merged);
    moreKeys := if key in merged then keys else keys + [key];
    moreMerged := merged[key := entry];
  }

  lemma ParsedOneMore(values: seq<string>, n: nat)
    requires n < |values|
    ensures Parsed(values[..n + 1]) ==
            Parsed(values[..n]) + if ParseScope(values[n]).Some? then [ParseScope(values[n]).value] else []
    ensures ParseScope(values[n]).Some? ==> ':' !in ParseScope(values[n]).value.kind
  {
    assert values[..n + 1][..n] == values[..n];
  }

  method MergeScopes(values: seq<string>) returns (result: seq<Scope>)
    ensures result == Normal(Parsed(values))
  {
    var keys: seq<string>, merged: map<string, Scope> := [], map[];
    for n := 0 to |values|
      invariant Merges(Parsed(values[..n]), keys, merged)
    {
      var parsed := ParseScope(values[n]);
      ParsedOneMore(values, n);
      if parsed.Some? {
        keys, merged := MergeOne(keys, merged, parsed.value, Parsed(values[..n]));
      } else {
        assert Parsed(values[..n]) + [] == Parsed(values[..n]);
      }
    }
    assert values[..|values|] == values;
    MergesGive(Parsed(values), keys, merged);
    return Values(keys, merged);
  }

  // ---- what the result is -----------------------------------------------------------------

  // One entry for each (type, name) that some value asks for, whose actions are exactly those asked
  // for it, none twice.
  lemma NormalExactly(scopes: seq<Scope>)
    ensures forall i, j | 0 <= i < j < |Normal(scopes)| :: IdOf(Normal(scopes)[i]) != IdOf(Normal(scopes)[j])
    ensures forall id :: id in Ids(Normal(scopes)) <==> id in Ids(scopes)
    ensures forall e | e in Normal(scopes) ::
              && (forall i, j | 0 <= i < j < |e.actions| :: e.actions[i] != e.actions[j])
              && (forall a :: a in e.actions <==> exists s :: s in scopes && IdOf(s) == IdOf(e) && a in s.actions)
  {
    DistinctExactly(Ids(scopes));
    assert Ids(Normal(scopes)) == Distinct(Ids(scopes));
    forall e | e in Normal(scopes)
      ensures forall i, j | 0 <= i < j < |e.actions| :: e.actions[i] != e.actions[j]
      ensures forall a :: a in e.actions <==> exists s :: s in scopes && IdOf(s) == IdOf(e) && a in s.actions
    {
      DistinctExactly(ActionsFor(scopes, IdOf(e)));
      ActionsForExactly(scopes, IdOf(e));
    }
  }

  lemma {:induction false} ActionsForExactly(scopes: seq<Scope>, id: Id)
    ensures forall a :: a in ActionsFor(scopes, id) <==> exists s :: s in scopes && IdOf(s) == id && a in s.actions
  {
    if scopes != [] {
      var init, last := scopes[..|scopes| - 1], scopes[|scopes| - 1];
      ActionsForExactly(init, id);
      assert scopes == init + [last];
    }
  }

  // A shorter request gives the same resources in the same places, each with a prefix of its actions.
  lemma NormalFirstSeen(scopes: seq<Scope>, k: nat)
    requires k <= |scopes|
    ensures Ids(Normal(scopes[..k])) <= Ids(Normal(scopes))
    ensures forall id :: Entry(scopes[..k], id).actions <= Entry(scopes, id).actions
  {
    assert Ids(scopes[..k]) == Ids(scopes)[..k];
    DistinctPrefix(Ids(scopes), k);
    assert Ids(Normal(scopes[..k])) == Distinct(Ids(scopes[..k])) && Ids(Normal(scopes)) == Distinct(Ids(scopes));
    forall id
      ensures Entry(scopes[..k], id).actions <= Entry(scopes, id).actions
    {
      ActionsForPrefix(scopes, k, id);
      var all, some := ActionsFor(scopes, id), ActionsFor(scopes[..k], id);
      DistinctPrefix(all, |some|);
      assert all[..|some|] == some;
    }
  }

  lemma {:induction false} ActionsForPrefix(scopes: seq<Scope>, k: nat, id: Id)
    requires k <= |scopes|
    ensures ActionsFor(scopes[..k], id) <= ActionsFor(scopes, id)
    decreases |scopes|
  {
    if k == |scopes| {
      assert scopes[..k] == scopes;
    } else {
      var init := scopes[..|scopes| - 1];
      ActionsForPrefix(init, k, id);
      assert init[..k] == scopes[..k];
    }
  }

  // ---- printing and parsing again ---------------------------------------------------------

  lemma {:induction false} ParsedAreWellFormed(values: seq<string>)
    requires forall v | v in values :: Solid(v)
    ensures forall s | s in Parsed(values) :: WellFormed(s)
  {
    if values != [] {
      var init, last := values[..|values| - 1], values[|values| - 1];
      assert forall v | v in init :: v in values;
      ParsedAreWellFormed(init);
      if ParseScope(last).Some? { ParsedIsWellFormed(last); }
    }
  }

  lemma NormalIsWellFormed(scopes: seq<Scope>)
    requires forall s | s in scopes :: WellFormed(s)
    ensures forall e | e in Normal(scopes) :: WellFormed(e)
  {
    NormalExactly(scopes);
    forall e | e in Normal(scopes)
      ensures WellFormed(e)
    {
      assert IdOf(e) in Ids(Normal(scopes)) by {
        var i :| 0 <= i < |Normal(scopes)| && Normal(scopes)[i] == e;
        assert Ids(Normal(scopes))[i] == IdOf(e);
      }
      var i :| 0 <= i < |scopes| && IdOf(scopes[i]) == IdOf(e);
      assert WellFormed(scopes[i]);
    }
  }

  // One parameter value for each entry.
  function Printed(scopes: seq<Scope>): seq<Raw> {
    if scopes == [] then [] else Printed(scopes[..|scopes| - 1]) + [Text(Print(scopes[|scopes| - 1]))]
  }

  lemma TextStep(raws: seq<Raw>, text: string, s: Scope)
    requires Solid(text) && text != "" && ParseScope(text) == Some(s)
    ensures Parsed(ScopeValues(raws + [Text(text)])) == Parsed(ScopeValues(raws)) + [s]
  {
    assert (raws + [Text(text)])[..|raws|] == raws;
    SolidIsOnePiece(text);
    assert NonEmpty([text]) == [text];
    var values := ScopeValues(raws);
    assert ScopeValues(raws + [Text(text)]) == values + [text];
    assert (values + [text])[..|values|] == values;
  }

  lemma PrintedStep(init: seq<Scope>, last: Scope)
    requires WellFormed(last) && Parsed(ScopeValues(Printed(init))) == init
    ensures Parsed(ScopeValues(Printed(init + [last]))) == init + [last]
  {
    var text := Print(last);
    ParsePrint(last);
    PrintIsSolid(last);
    assert (init + [last])[..|init|] == init;
    TextStep(Printed(init), text, last);
  }

  lemma {:induction false} ParsedOfPrinted(scopes: seq<Scope>)
    requires forall s | s in scopes :: WellFormed(s)
    ensures Parsed(ScopeValues(Printed(scopes))) == scopes
  {
    if scopes != [] {
      var init, last := scopes[..|scopes| - 1], scopes[|scopes| - 1];
      assert scopes == init + [last];
      assert forall s | s in init :: s in scopes;
      assert last in scopes;
      ParsedOfPrinted(init);
      PrintedStep(init, last);
    }
  }

  lemma {:induction false} OnlyActionsFor(scopes: seq<Scope>, i: nat)
    requires i < |scopes| && forall a, b | 0 <= a < b < |scopes| :: IdOf(scopes[a]) != IdOf(scopes[b])
    ensures ActionsFor(scopes, IdOf(scopes[i])) == scopes[i].actions
  {
    var n := |scopes| - 1;
    if i == n {
      assert forall x | x in Ids(scopes[..n]) :: x != IdOf(scopes[n]);
      NoActionsForUnseen(scopes[..n], IdOf(scopes[n]));
    } else {
      OnlyActionsFor(scopes[..n], i);
    }
  }

  // A list that is already normal stays as it is.
  lemma NormalOfNormal(scopes: seq<Scope>)
    requires forall i, j | 0 <= i < j < |scopes| :: IdOf(scopes[i]) != IdOf(scopes[j])
    requires forall e | e in scopes :: forall i, j | 0 <= i < j < |e.actions| :: e.actions[i] != e.actions[j]
    ensures Normal(scopes) == scopes
  {
    DistinctOfDistinct(Ids(scopes));
    forall i | 0 <= i < |scopes|
      ensures Entry(scopes, IdOf(scopes[i])) == scopes[i]
    {
      OnlyActionsFor(scopes, i);
      assert scopes[i] in scopes;
      DistinctOfDistinct(scopes[i].actions);
    }
  }

  // For every input, printing the result and parsing it again is the identity.
  lemma RoundTrip(raws: seq<Raw>)
    ensures ParseRequestedScopes(Printed(ParseRequestedScopes(raws))) == ParseRequestedScopes(raws)
  {
    var scopes := Parsed(ScopeValues(raws));
    var result := ParseRequestedScopes(raws);
    ValuesAreSolid(raws);
    ParsedAreWellFormed(ScopeValues(raws));
    NormalIsWellFormed(scopes);
    ParsedOfPrinted(result);
    NormalExactly(scopes);
    NormalOfNormal(result);
  }

  // extractReposFromScope: every distinct requested name.
  function Names(scopes: seq<Scope>): seq<string> {
    seq(|scopes|, i requires 0 <= i < |scopes| => scopes[i].name)
  }

  function ExtractRepos(raws: seq<Raw>): seq<string> { Distinct(Names(ParseRequestedScopes(raws))) }

  lemma SameIdsSameNames(a: seq<Scope>, b: seq<Scope>)
    requires forall id :: id in Ids(a) ==> id in Ids(b)
    ensures forall n | n in Names(a) :: n in Names(b)
  {
    forall i | 0 <= i < |a|
      ensures Names(a)[i] in Names(b)
    {
      assert Ids(a)[i] in Ids(b);
      var j :| 0 <= j < |b| && Ids(b)[j] == Ids(a)[i];
      assert Names(b)[j] == Names(a)[i];
    }
  }

  predicate IsNamed(scopes: seq<Scope>, n: string) { exists s | s in scopes :: s.name == n }

  lemma NamesHold(scopes: seq<Scope>, n: string)
    ensures n in Names(scopes) <==> IsNamed(scopes, n)
  {
    if n in Names(scopes) {
      var i :| 0 <= i < |scopes| && Names(scopes)[i] == n;
      assert scopes[i] in scopes;
    }
    if s :| s in scopes && s.name == n {
      var i :| 0 <= i < |scopes| && scopes[i] == s;
      assert Names(scopes)[i] == n;
    }
  }

  lemma ReposExactly(raws: seq<Raw>)
    ensures var names := ExtractRepos(raws);
            && (forall i, j | 0 <= i < j < |names| :: names[i] != names[j])
            && (forall n :: n in names <==> IsNamed(Parsed(ScopeValues(raws)), n))
  {
    var scopes, result := Parsed(ScopeValues(raws)), ParseRequestedScopes(raws);
    DistinctExactly(Names(result));
    NormalExactly(scopes);
    SameIdsSameNames(result, scopes);
    SameIdsSameNames(scopes, result);
    forall n ensures n in Names(scopes) <==> IsNamed(scopes, n) { NamesHold(scopes, n); }
  }
}
