// PostgreSQL's LIKE: % matches any text, _ any character, and \ takes the next character literally.
module SqlLike {
  predicate Like(s: string, pattern: string)
    decreases |pattern|, |s|
  {
    if pattern == "" then s == ""
    else if pattern[0] == '%' then Like(s, pattern[1..]) || (s != "" && Like(s[1..], pattern))
    else if pattern[0] == '\\' then
      2 <= |pattern| && s != "" && s[0] == pattern[1] && Like(s[1..], pattern[2..])
    else s != "" && (pattern[0] == '_' || s[0] == pattern[0]) && Like(s[1..], pattern[1..])
  }

  predicate Plain(s: string) {
    forall c | c in s :: c != '%' && c != '_' && c != '\\'
  }

  lemma {:induction false} PercentMatchesAll(s: string)
    ensures Like(s, "%")
  {
    if s != "" { PercentMatchesAll(s[1..]); }
  }

  // A prefix without wildcards, followed by %, matches exactly the texts that start with it.
  lemma {:induction false} LikePrefix(s: string, prefix: string)
    requires Plain(prefix)
    ensures Like(s, prefix + "%") <==> prefix <= s
  {
    if prefix == "" {
      assert prefix + "%" == "%";
      PercentMatchesAll(s);
    } else {
      assert forall c | c in prefix[1..] :: c in prefix;
      assert prefix[0] in prefix && (prefix + "%")[1..] == prefix[1..] + "%";
      if s != "" {
        LikePrefix(s[1..], prefix[1..]);
        assert prefix <= s <==> prefix[0] == s[0] && prefix[1..] <= s[1..] by {
          if prefix[0] == s[0] && prefix[1..] <= s[1..] {
            assert prefix == [prefix[0]] + prefix[1..] && s == [s[0]] + s[1..];
          }
        }
      }
    }
  }

  // ---- patterns in general ----------------------------------------------------------------

  // The pattern ends in a backslash that would escape what follows.
  predicate Dangling(pattern: string) {
    pattern != "" &&
    if pattern[0] == '\\' then |pattern| == 1 || Dangling(pattern[2..]) else Dangling(pattern[1..])
  }

  // The pattern without that backslash.
  function Closed(pattern: string): string {
    if Dangling(pattern) then pattern[..|pattern| - 1] else pattern
  }

  lemma {:induction false} DanglingEnd(pattern: string)
    requires Dangling(pattern)
    ensures pattern[|pattern| - 1] == '\\' && !Dangling(pattern[..|pattern| - 1])
  {
    var init := pattern[..|pattern| - 1];
    if pattern[0] == '\\' {
      if |pattern| > 1 {
        DanglingEnd(pattern[2..]);
        assert init[2..] == pattern[2..][..|pattern| - 3];
      }
    } else {
      DanglingEnd(pattern[1..]);
      assert init[1..] == pattern[1..][..|pattern| - 2];
    }
  }

  // The text splits at k into a part for each pattern.
  predicate Cut(s: string, k: nat, a: string, b: string) {
    k <= |s| && Like(s[..k], a) && Like(s[k..], b)
  }

  // Dropping the first character moves the split.
  lemma CutShift(s: string, k: nat)
    requires s != "" && k < |s|
    ensures s[1..][..k] == s[..k + 1][1..] && s[1..][k..] == s[k + 1..]
  {}

  // A pattern followed by another matches the texts that split accordingly.
  lemma {:induction false} LikeConcat(s: string, a: string, b: string)
    requires !Dangling(a)
    ensures Like(s, a + b) <==> exists k: nat :: Cut(s, k, a, b)
    decreases |a|, |s|
  {
    if a == "" {
      assert a + b == b && s[..0] == "" && s[0..] == s;
      assert Like(s, b) ==> Cut(s, 0, a, b);
    } else if a[0] == '%' {
      PercentConcat(s, a, b);
    } else {
      HeadConcat(s, a, b);
    }
  }

  // A percent sign gives up, or takes one more character.
  lemma PercentCut(s: string, k: nat, a: string, b: string)
    requires a != "" && a[0] == '%' && k <= |s|
    ensures Cut(s, k, a, b) <==> Cut(s, k, a[1..], b) || (k > 0 && Cut(s[1..], k - 1, a, b))
  {
    if k > 0 { CutShift(s, k - 1); }
  }

  lemma PercentConcat(s: string, a: string, b: string)
    requires !Dangling(a) && a != "" && a[0] == '%'
    ensures Like(s, a + b) <==> exists k: nat :: Cut(s, k, a, b)
    decreases |a|, |s|, 0
  {
    assert (a + b)[1..] == a[1..] + b;
    LikeConcat(s, a[1..], b);
    if s != "" { LikeConcat(s[1..], a, b); }
    if Like(s, a + b) {
      if k: nat :| Cut(s, k, a[1..], b) {
        PercentCut(s, k, a, b);
      } else {
        var k: nat :| Cut(s[1..], k, a, b);
        PercentCut(s, k + 1, a, b);
      }
    }
    if k: nat :| Cut(s, k, a, b) { PercentCut(s, k, a, b); }
  }

  // The pattern starts with an escape, an underscore or an ordinary character.
  lemma HeadConcat(s: string, a: string, b: string)
    requires !Dangling(a) && a != "" && a[0] != '%'
    ensures Like(s, a + b) <==> exists k: nat :: Cut(s, k, a, b)
    decreases |a|, |s|, 0
  {
    var n := if a[0] == '\\' then 2 else 1;
    var rest := a[n..];
    assert (a + b)[n..] == rest + b;
    if s == "" {
      assert forall k: nat :: !Cut(s, k, a, b);
    } else {
      LikeConcat(s[1..], rest, b);
      if Like(s, a + b) {
        var k: nat :| Cut(s[1..], k, rest, b);
        CutShift(s, k);
        assert Cut(s, k + 1, a, b);
      }
      if k: nat :| Cut(s, k, a, b) {
        CutShift(s, k - 1);
        assert Cut(s[1..], k - 1, rest, b);
      }
    }
  }

  // What each part of a pattern matches: a percent sign any text, an underscore any one character, an
  // escape the character it escapes, any other character itself.  With LikeConcat this is all of LIKE.
  lemma LikeParts(s: string, c: char)
    ensures Like(s, "%")
    ensures Like(s, "_") <==> |s| == 1
    ensures Like(s, ['\\', c]) <==> s == [c]
    ensures c != '%' && c != '_' && c != '\\' ==> (Like(s, [c]) <==> s == [c])
    ensures !Like(s, "\\")
    ensures Like(s, "") <==> s == ""
  {
    PercentMatchesAll(s);
    assert "_"[1..] == "" && ['\\', c][2..] == "" && [c][1..] == "";
    if s != "" { assert Like(s[1..], "") <==> |s| == 1; }
  }

  // What a pattern with % appended matches: texts a prefix of which matches the pattern; a dangling
  // backslash makes that % a literal one at the end.
  ghost predicate StartsLike(s: string, pattern: string) {
    if Dangling(pattern) then s != "" && s[|s| - 1] == '%' && Like(s[..|s| - 1], Closed(pattern))
    else exists k: nat :: k <= |s| && Like(s[..k], pattern)
  }

  lemma LiteralPercent(s: string)
    ensures Like(s, "\\%") <==> s == "%"
  {
    if s != "" && s[0] == '%' { assert "\\%"[2..] == "" && (Like(s[1..], "") <==> s[1..] == ""); }
  }

  lemma LikeOpen(s: string, pattern: string)
    ensures Like(s, pattern + "%") <==> StartsLike(s, pattern)
  {
    var r := Closed(pattern);
    if Dangling(pattern) {
      DanglingEnd(pattern);
      assert pattern + "%" == r + "\\%";
      LikeConcat(s, r, "\\%");
      if k: nat :| Cut(s, k, r, "\\%") {
        LiteralPercent(s[k..]);
        assert k == |s| - 1 && s[k] == s[k..][0];
      }
      if StartsLike(s, pattern) {
        LiteralPercent(s[|s| - 1..]);
        assert Cut(s, |s| - 1, r, "\\%");
      }
    } else {
      LikeConcat(s, pattern, "%");
      if k: nat :| k <= |s| && Like(s[..k], pattern) {
        PercentMatchesAll(s[k..]);
        assert Cut(s, k, pattern, "%");
      }
      if k: nat :| Cut(s, k, pattern, "%") {
        assert k <= |s| && Like(s[..k], pattern);
      }
    }
  }

  // A slash at k after a text that matches.
  predicate BelowAt(s: string, k: nat, pattern: string) {
    k < |s| && s[k] == '/' && Like(s[..k], Closed(pattern))
  }

  lemma SlashOpen(s: string)
    ensures Like(s, "/%") <==> s != "" && s[0] == '/'
    ensures Like(s, "\\/%") <==> s != "" && s[0] == '/'
  {
    assert "/%"[1..] == "%" && "\\/%"[2..] == "%";
    if s != "" { PercentMatchesAll(s[1..]); }
  }

  // What a pattern with /% appended matches: a matching text, a slash, and anything; a dangling
  // backslash escapes only the slash.
  lemma LikeBelow(s: string, pattern: string)
    ensures Like(s, pattern + "/%") <==> exists k: nat :: BelowAt(s, k, pattern)
  {
    var r := Closed(pattern);
    var tail := if Dangling(pattern) then "\\/%" else "/%";
    if Dangling(pattern) { DanglingEnd(pattern); }
    assert pattern + "/%" == r + tail;
    LikeConcat(s, r, tail);
    if k: nat :| Cut(s, k, r, tail) {
      SlashOpen(s[k..]);
      assert BelowAt(s, k, pattern);
    }
    if k: nat :| BelowAt(s, k, pattern) {
      SlashOpen(s[k..]);
      assert Cut(s, k, r, tail);
    }
  }

  // ---- a text that a pattern matches --------------------------------------------------------

  // Each wildcard replaced by one character, each escape by what it escapes.
  function Instance(pattern: string, fill: char): string {
    if pattern == "" then ""
    else if pattern[0] == '%' || pattern[0] == '_' then [fill] + Instance(pattern[1..], fill)
    else if pattern[0] == '\\' then
      if |pattern| == 1 then "" else [pattern[1]] + Instance(pattern[2..], fill)
    else [pattern[0]] + Instance(pattern[1..], fill)
  }

  lemma ClosedTail(pattern: string, n: nat)
    requires n == if pattern != "" && pattern[0] == '\\' then 2 else 1
    requires n <= |pattern|
    ensures Closed(pattern) == pattern[..n] + Closed(pattern[n..])
  {
    if Dangling(pattern) { assert pattern[..|pattern| - 1] == pattern[..n] + pattern[n..][..|pattern| - n - 1]; }
  }

  lemma {:induction false} InstanceMatches(pattern: string, fill: char)
    ensures Like(Instance(pattern, fill), Closed(pattern))
  {
    if pattern == "\\" {
      assert Closed(pattern) == "";
    } else if pattern != "" {
      var n := if pattern[0] == '\\' then 2 else 1;
      InstanceMatches(pattern[n..], fill);
      ClosedTail(pattern, n);
      var s, closed := Instance(pattern, fill), Closed(pattern);
      assert s[1..] == Instance(pattern[n..], fill) && closed[n..] == Closed(pattern[n..]);
      if pattern[0] == '%' {
        assert closed[1..] == Closed(pattern[1..]) && Like(s[1..], closed);
      }
    }
  }

  lemma {:induction false} InstanceShape(pattern: string, fill: char)
    ensures |Instance(pattern, fill)| <= |pattern|
    ensures '\\' in pattern ==> |Instance(pattern, fill)| < |pattern|
    ensures forall c | c in Instance(pattern, fill) :: c == fill || c in pattern
  {
    if pattern != "" && pattern != "\\" {
      var n := if pattern[0] == '\\' then 2 else 1;
      InstanceShape(pattern[n..], fill);
      assert pattern == pattern[..n] + pattern[n..];
    }
  }

  lemma {:induction false} InstanceDiffers(pattern: string, fill: char)
    requires !Plain(pattern) && '\\' !in pattern && fill != '%' && fill != '_'
    ensures Instance(pattern, fill) != pattern
  {
    if pattern[0] != '%' && pattern[0] != '_' {
      assert pattern == [pattern[0]] + pattern[1..];
      InstanceDiffers(pattern[1..], fill);
    }
  }
}
