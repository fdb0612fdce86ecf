// The string operations of Go and JavaScript that the routers and parsers use.
module Strings {
  // strings.Split(s, sep) and String.split(sep), for a one-character separator.
  function Split(s: string, sep: char): (parts: seq<string>)
    ensures parts != []
  {
    if s == "" then [""]
    else
      var rest := Split(s[1..], sep);
      if s[0] == sep then [""] + rest else [[s[0]] + rest[0]] + rest[1..]
  }

  function Join(parts: seq<string>, sep: char): string {
    if parts == [] then ""
    else if |parts| == 1 then parts[0]
    else parts[0] + [sep] + Join(parts[1..], sep)
  }

  lemma {:induction false} SplitHasNoSep(s: string, sep: char)
    ensures forall p | p in Split(s, sep) :: sep !in p
  {
    if s != "" { SplitHasNoSep(s[1..], sep); }
  }

  lemma {:induction false} JoinSplit(s: string, sep: char)
    ensures Join(Split(s, sep), sep) == s
  {
    if s != "" {
      JoinSplit(s[1..], sep);
      var rest := Split(s[1..], sep);
      if s[0] == sep {
        assert ([""] + rest)[1..] == rest;
      } else {
        var parts := [[s[0]] + rest[0]] + rest[1..];
        assert parts[1..] == rest[1..];
      }
    }
  }

  // The first separator cuts off the first part.
  lemma {:induction false} SplitCut(a: string, sep: char, b: string)
    requires sep !in a
    ensures Split(a + [sep] + b, sep) == [a] + Split(b, sep)
  {
    var s := a + [sep] + b;
    if a == "" {
      assert s[1..] == b;
    } else {
      assert s[1..] == a[1..] + [sep] + b;
      SplitCut(a[1..], sep, b);
      assert [a[0]] + a[1..] == a;
    }
  }

  lemma {:induction false} SplitWhole(a: string, sep: char)
    requires sep !in a
    ensures Split(a, sep) == [a]
  {
    if a != "" {
      SplitWhole(a[1..], sep);
      assert [a[0]] + a[1..] == a;
    }
  }

  lemma {:induction false} SplitJoin(parts: seq<string>, sep: char)
    requires parts != [] && forall p | p in parts :: sep !in p
    ensures Split(Join(parts, sep), sep) == parts
  {
    if |parts| == 1 {
      SplitWhole(parts[0], sep);
    } else {
      SplitJoin(parts[1..], sep);
      SplitCut(parts[0], sep, Join(parts[1..], sep));
    }
  }

  lemma {:induction false} SplitSingle(s: string, sep: char)
    ensures |Split(s, sep)| == 1 <==> sep !in s
  {
    if s != "" { SplitSingle(s[1..], sep); }
  }

  // Two texts cut at their first separator agree only part by part.
  lemma CutUnique(a: string, x: string, b: string, y: string, sep: char)
    requires sep !in a && sep !in b && a + [sep] + x == b + [sep] + y
    ensures a == b && x == y
  {
    SplitCut(a, sep, x);
    SplitCut(b, sep, y);
    assert a == ([a] + Split(x, sep))[0] == ([b] + Split(y, sep))[0] == b;
    assert x == (a + [sep] + x)[|a| + 1..] && y == (b + [sep] + y)[|b| + 1..];
  }

  predicate Occurs(s: string, m: string, i: int) {
    0 <= i && i + |m| <= |s| && s[i..i + |m|] == m
  }

  // The last position at or before k where m occurs in s, or -1.
  function LastFrom(s: string, m: string, k: int): (i: int)
    requires k + |m| <= |s|
    ensures i == -1 || (0 <= i <= k && Occurs(s, m, i))
    ensures forall j | i < j <= k :: !Occurs(s, m, j)
    decreases k + 1
  {
    if k < 0 then -1 else if Occurs(s, m, k) then k else LastFrom(s, m, k - 1)
  }

  // strings.LastIndex
  function LastIndex(s: string, m: string): (i: int)
    ensures i == -1 || Occurs(s, m, i)
    ensures forall j | i < j :: !Occurs(s, m, j)
  {
    if |s| < |m| then -1 else LastFrom(s, m, |s| - |m|)
  }

  // Array.filter(segment => segment.length > 0)
  function NonEmpty(parts: seq<string>): seq<string> {
    if parts == [] then []
    else (if parts[0] == "" then [] else [parts[0]]) + NonEmpty(parts[1..])
  }

  lemma {:induction false} NonEmptyAll(parts: seq<string>)
    requires forall p | p in parts :: p != ""
    ensures NonEmpty(parts) == parts
  {
    if parts != [] {
      assert parts[0] in parts && forall p | p in parts[1..] :: p in parts;
      NonEmptyAll(parts[1..]);
    }
  }

  lemma {:induction false} NonEmptyMembers(parts: seq<string>)
    ensures forall d :: d in NonEmpty(parts) <==> d in parts && d != ""
  {
    if parts != [] {
      NonEmptyMembers(parts[1..]);
      assert parts == [parts[0]] + parts[1..];
    }
  }

  lemma {:induction false} NonEmptyAppend(xs: seq<string>, x: string)
    ensures NonEmpty(xs + [x]) == NonEmpty(xs) + if x == "" then [] else [x]
  {
    if xs == [] {
      assert xs + [x] == [x];
    } else {
      assert (xs + [x])[1..] == xs[1..] + [x];
      NonEmptyAppend(xs[1..], x);
    }
  }

  lemma {:induction false} NonEmptyConcat(xs: seq<string>, ys: seq<string>)
    ensures NonEmpty(xs + ys) == NonEmpty(xs) + NonEmpty(ys)
  {
    if ys == [] {
      assert xs + ys == xs;
    } else {
      var init, last := ys[..|ys| - 1], ys[|ys| - 1];
      NonEmptyConcat(xs, init);
      NonEmptyAppend(xs + init, last);
      NonEmptyAppend(init, last);
      assert xs + ys == (xs + init) + [last] && ys == init + [last];
    }
  }

  lemma {:induction false} NonEmptyShortens(parts: seq<string>)
    ensures |NonEmpty(parts)| <= |parts|
    ensures |NonEmpty(parts)| == |parts| <==> forall p | p in parts :: p != ""
    ensures Total(NonEmpty(parts)) == Total(parts)
  {
    if parts != [] {
      NonEmptyShortens(parts[1..]);
      assert forall p :: p in parts <==> p == parts[0] || p in parts[1..];
      if parts[0] != "" {
        assert NonEmpty(parts)[1..] == NonEmpty(parts[1..]);
      } else {
        assert NonEmpty(parts) == NonEmpty(parts[1..]) && parts[0] in parts;
      }
    }
  }

  function Total(parts: seq<string>): nat {
    if parts == [] then 0 else |parts[0]| + Total(parts[1..])
  }

  lemma {:induction false} JoinLength(parts: seq<string>, sep: char)
    requires parts != []
    ensures |Join(parts, sep)| == Total(parts) + |parts| - 1
  {
    if |parts| > 1 { JoinLength(parts[1..], sep); }
  }
}
