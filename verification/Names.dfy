/** Name matching: internal/authz/match.go and the ASCII case folding of
    internal/authz/verify.go. Names are ASCII strings. */
module Names {

  function Lower(c: char): char {
    if 'A' <= c <= 'Z' then (c as int + 32) as char else c
  }

  function ToLower(s: string): string {
    seq(|s|, i requires 0 <= i < |s| => Lower(s[i]))
  }

  predicate IsSpace(c: char) {
    c == ' ' || 9 <= c as int <= 13
  }

  function TrimLeft(s: string): string {
    if s != [] && IsSpace(s[0]) then TrimLeft(s[1..]) else s
  }

  function TrimRight(s: string): string {
    if s != [] && IsSpace(s[|s| - 1]) then TrimRight(s[..|s| - 1]) else s
  }

  function TrimSpace(s: string): string { TrimRight(TrimLeft(s)) }

  /** The form in which globMatch compares names. */
  function Norm(s: string): string { ToLower(TrimSpace(s)) }

  predicate HasSuffix(s: string, suffix: string) {
    |suffix| <= |s| && s[|s| - |suffix|..] == suffix
  }

  /** globMatch on names in that form. */
  predicate Globs(p: string, v: string) {
    if p == "*" then true
    else if "*." <= p then HasSuffix(v, p[1..]) && |v| > |p[1..]|
    else p == v
  }

  predicate GlobMatch(pattern: string, value: string) { Globs(Norm(pattern), Norm(value)) }

  /** Equal up to ASCII case. */
  predicate EqualFold(a: string, b: string) { ToLower(a) == ToLower(b) }

  predicate MatchedByAny(patterns: seq<string>, name: string) {
    exists p | p in patterns :: GlobMatch(p, name)
  }

  /** Every name is permitted by some pattern. */
  predicate Covered(names: seq<string>, patterns: seq<string>) {
    forall n | n in names :: MatchedByAny(patterns, n)
  }

  predicate ContainsFold(list: seq<string>, want: string) {
    exists v | v in list :: EqualFold(v, want)
  }

  // ---- What folding, trimming and patterns mean, character by character ----

  /** Character for character the same, or a capital A to Z against its small letter. */
  ghost predicate SameUpToCase(a: string, b: string) {
    && |a| == |b|
    && forall i | 0 <= i < |a| ::
         || a[i] == b[i]
         || ('A' <= a[i] <= 'Z' && b[i] as int == a[i] as int + 32)
         || ('A' <= b[i] <= 'Z' && a[i] as int == b[i] as int + 32)
  }

  /** Space, tab, line feed, vertical tab, form feed and carriage return. */
  ghost predicate BlankChar(c: char) { c as int in {32, 9, 10, 11, 12, 13} }

  ghost predicate Blank(s: string) {
    forall i | 0 <= i < |s| :: BlankChar(s[i])
  }

  /** `core` is what `s` holds between its outer blanks. */
  ghost predicate CoreOf(s: string, core: string) {
    && (exists left, right | Blank(left) && Blank(right) :: s == left + core + right)
    && (core != "" ==> !BlankChar(core[0]) && !BlankChar(core[|core| - 1]))
  }

  lemma FoldMeaning(a: string, b: string)
    ensures EqualFold(a, b) <==> SameUpToCase(a, b)
  {
    if EqualFold(a, b) {
      assert |a| == |ToLower(a)| == |ToLower(b)| == |b|;
      forall i | 0 <= i < |a| ensures Lower(a[i]) == Lower(b[i]) {
        assert ToLower(a)[i] == ToLower(b)[i];
      }
    }
  }

  lemma SpaceIsBlank()
    ensures forall c :: IsSpace(c) <==> BlankChar(c)
  {
  }

  lemma {:induction false} TrimLeftMeaning(s: string) returns (left: string)
    ensures Blank(left) && s == left + TrimLeft(s)
    ensures TrimLeft(s) != "" ==> !BlankChar(TrimLeft(s)[0])
    decreases |s|
  {
    SpaceIsBlank();
    hide IsSpace, BlankChar;
    if s != [] && IsSpace(s[0]) {
      left := TrimLeftMeaning(s[1..]);
      left := [s[0]] + left;
    } else {
      left := "";
    }
  }

  lemma {:induction false} TrimRightMeaning(s: string) returns (right: string)
    ensures Blank(right) && s == TrimRight(s) + right
    ensures TrimRight(s) != "" ==> !BlankChar(TrimRight(s)[|TrimRight(s)| - 1])
    decreases |s|
  {
    SpaceIsBlank();
    hide IsSpace, BlankChar;
    if s != [] && IsSpace(s[|s| - 1]) {
      right := TrimRightMeaning(s[..|s| - 1]);
      right := right + [s[|s| - 1]];
    } else {
      right := "";
    }
  }

  lemma {:induction false} TrimLeftOf(left: string, rest: string)
    requires Blank(left) && (rest != "" ==> !BlankChar(rest[0]))
    ensures TrimLeft(left + rest) == rest
    decreases |left|
  {
    if left == "" {
      assert left + rest == rest;
    } else {
      assert (left + rest)[1..] == left[1..] + rest;
      TrimLeftOf(left[1..], rest);
    }
  }

  lemma {:induction false} TrimRightOf(rest: string, right: string)
    requires Blank(right) && (rest != "" ==> !BlankChar(rest[|rest| - 1]))
    ensures TrimRight(rest + right) == rest
    decreases |right|
  {
    if right == "" {
      assert rest + right == rest;
    } else {
      assert (rest + right)[..|rest + right| - 1] == rest + right[..|right| - 1];
      TrimRightOf(rest, right[..|right| - 1]);
    }
  }

  /** Trimming finds the one core a name has. */
  lemma TrimMeaning(s: string, core: string)
    ensures CoreOf(s, core) <==> core == TrimSpace(s)
  {
    var left := TrimLeftMeaning(s);
    var right := TrimRightMeaning(TrimLeft(s));
    var trimmed := TrimSpace(s);
    assert s == left + trimmed + right;
    if CoreOf(s, core) {
      var l, r :| Blank(l) && Blank(r) && s == l + core + r;
      if core == "" {
        TrimLeftOf(l + r, "");
        assert s == l + r + "" && Blank(l + r);
      } else {
        assert s == l + (core + r);
        TrimLeftOf(l, core + r);
        TrimRightOf(core, r);
      }
    }
  }

  /** The form in which names are compared: the core, in small letters. */
  lemma NormMeaning(s: string, core: string)
    requires CoreOf(s, core)
    ensures SameUpToCase(Norm(s), core) && forall c | c in Norm(s) :: !('A' <= c <= 'Z')
  {
    TrimMeaning(s, core);
  }

  /** Between two cores: `*` is any name, `*.suffix` a name with something in front of
      the dot, and anything else the name itself, up to case. */
  ghost predicate Fits(p: string, v: string) {
    || p == "*"
    || SameUpToCase(p, v)
    || exists front, suffix, end ::
         front != "" && p == "*." + suffix && v == front + "." + end && SameUpToCase(suffix, end)
  }

  /** What a pattern means, up to case and outer blanks, for every pattern and name. */
  lemma GlobMeaning(pattern: string, value: string)
    ensures GlobMatch(pattern, value) <==> exists p, v | CoreOf(pattern, p) && CoreOf(value, v) :: Fits(p, v)
  {
    var p, v := TrimSpace(pattern), TrimSpace(value);
    TrimMeaning(pattern, p);
    TrimMeaning(value, v);
    FoldMeaning(p, v);
    if GlobMatch(pattern, value) {
      GlobFits(p, v);
    }
    forall p', v' | CoreOf(pattern, p') && CoreOf(value, v') && Fits(p', v') ensures GlobMatch(pattern, value) {
      TrimMeaning(pattern, p');
      TrimMeaning(value, v');
      FitsGlob(p, v);
    }
  }

  lemma GlobFits(p: string, v: string)
    requires Globs(ToLower(p), ToLower(v))
    ensures Fits(p, v)
  {
    var lp, lv := ToLower(p), ToLower(v);
    if lp == "*" {
      assert Lower(p[0]) == '*' && p == "*";
    } else if "*." <= lp {
      var k := |v| - |p| + 1;
      assert Lower(p[0]) == lp[0] == '*' && Lower(p[1]) == lp[1] == '.';
      var front, end, suffix := v[..k], v[k + 1..], p[2..];
      assert lv[k..] == lp[1..] && lv[k] == lp[1] && Lower(v[k]) == '.';
      assert p == "*." + suffix && v == front + "." + end;
      assert ToLower(suffix) == lp[2..] == lv[k + 1..] == ToLower(end) by {
        assert lp[1..][1..] == lp[2..] && lv[k..][1..] == lv[k + 1..];
      }
      FoldMeaning(suffix, end);
    } else {
      FoldMeaning(p, v);
    }
  }

  lemma ToLowerSplit(front: string, end: string)
    ensures ToLower(front + "." + end) == ToLower(front) + "." + ToLower(end)
    ensures |ToLower(front)| == |front| && (front == "*" ==> ToLower(front) == "*")
  {
  }

  lemma WildcardGlobs(front: string, suffix: string)
    requires front != ""
    ensures Globs("*." + suffix, front + "." + suffix)
  {
    var p, v := "*." + suffix, front + "." + suffix;
    assert p[1..] == "." + suffix && v[|front|..] == "." + suffix;
  }

  lemma FitsGlob(p: string, v: string)
    requires Fits(p, v)
    ensures Globs(ToLower(p), ToLower(v))
  {
    if SameUpToCase(p, v) {
      FoldMeaning(p, v);
    } else if p != "*" {
      var front, suffix, end :|
        front != "" && p == "*." + suffix && v == front + "." + end && SameUpToCase(suffix, end);
      FoldMeaning(suffix, end);
      ToLowerSplit("*", suffix);
      ToLowerSplit(front, end);
      WildcardGlobs(ToLower(front), ToLower(suffix));
      assert "*" + "." + suffix == p && "*" + "." + ToLower(suffix) == "*." + ToLower(suffix);
    }
  }

  // ---- Glob matching is a preorder ----

  lemma GlobReflexive(a: string)
    ensures GlobMatch(a, a)
  {
  }

  /** The names of one certificate become the patterns for the next request, so
      matching must compose: `*` and `*.suffix` lose nothing along a chain. */
  lemma GlobTransitive(a: string, b: string, c: string)
    requires GlobMatch(a, b) && GlobMatch(b, c)
    ensures GlobMatch(a, c)
  {
    GlobsTransitive(Norm(a), Norm(b), Norm(c));
  }

  lemma GlobsTransitive(p: string, q: string, v: string)
    requires Globs(p, q) && Globs(q, v)
    ensures Globs(p, v)
  {
    if p != "*" && "*." <= p && p != q {
      var s := p[1..];
      assert q != "*";
      if "*." <= q {
        var t := q[1..];
        assert t[|t| - |s|..] == q[|q| - |s|..] == s;
        assert v[|v| - |s|..] == v[|v| - |t|..][|t| - |s|..];
      }
    }
  }

  lemma {:induction false} TrimLeftLower(s: string)
    ensures TrimLeft(ToLower(s)) == ToLower(TrimLeft(s))
    decreases |s|
  {
    if s != [] && IsSpace(s[0]) {
      assert ToLower(s)[1..] == ToLower(s[1..]);
      TrimLeftLower(s[1..]);
    }
  }

  lemma {:induction false} TrimRightLower(s: string)
    ensures TrimRight(ToLower(s)) == ToLower(TrimRight(s))
    decreases |s|
  {
    if s != [] && IsSpace(s[|s| - 1]) {
      assert ToLower(s)[..|s| - 1] == ToLower(s[..|s| - 1]);
      TrimRightLower(s[..|s| - 1]);
    }
  }

  /** Names equal up to ASCII case are interchangeable on either side of a match. */
  lemma FoldIsInvisibleToGlob(a: string, b: string)
    requires EqualFold(a, b)
    ensures Norm(a) == Norm(b)
    ensures forall x :: (GlobMatch(a, x) <==> GlobMatch(b, x)) && (GlobMatch(x, a) <==> GlobMatch(x, b))
  {
    TrimLeftLower(a);
    TrimLeftLower(b);
    TrimRightLower(TrimLeft(a));
    TrimRightLower(TrimLeft(b));
  }

  lemma CoveredByItself(names: seq<string>)
    ensures Covered(names, names)
  {
    forall n | n in names ensures MatchedByAny(names, n) {
      GlobReflexive(n);
    }
  }

  lemma MatchedThrough(name: string, middle: seq<string>, outer: seq<string>)
    requires MatchedByAny(middle, name) && Covered(middle, outer)
    ensures MatchedByAny(outer, name)
  {
    var m :| m in middle && GlobMatch(m, name);
    var p :| p in outer && GlobMatch(p, m);
    GlobTransitive(p, m, name);
  }

  lemma CoveredTransitive(inner: seq<string>, middle: seq<string>, outer: seq<string>)
    requires Covered(inner, middle) && Covered(middle, outer)
    ensures Covered(inner, outer)
  {
    forall n | n in inner ensures MatchedByAny(outer, n) {
      MatchedThrough(n, middle, outer);
    }
  }

  lemma MatchedUpToFold(patterns: seq<string>, a: string, b: string)
    requires MatchedByAny(patterns, a) && EqualFold(a, b)
    ensures MatchedByAny(patterns, b)
  {
    FoldIsInvisibleToGlob(a, b);
    var p :| p in patterns && GlobMatch(p, a);
    assert GlobMatch(p, b);
  }

  // ---- The loops ----

  method AnyGlobMatch(pattern: string, values: seq<string>) returns (found: bool)
    ensures found <==> exists v | v in values :: GlobMatch(pattern, v)
  {
    for i := 0 to |values|
      invariant forall v | v in values[..i] :: !GlobMatch(pattern, v)
    {
      if GlobMatch(pattern, values[i]) {
        return true;
      }
    }
    assert values[..|values|] == values;
    return false;
  }

  method AllAllowed(names: seq<string>, patterns: seq<string>) returns (all: bool)
    ensures all <==> forall n | n in names :: exists p | p in patterns :: GlobMatch(p, n)
    ensures all <==> Covered(names, patterns)
  {
    for i := 0 to |names|
      invariant Covered(names[..i], patterns)
    {
      var ok := false;
      for j := 0 to |patterns|
        invariant !ok && !MatchedByAny(patterns[..j], names[i])
      {
        if GlobMatch(patterns[j], names[i]) {
          ok := true;
          break;
        }
      }
      assert patterns[..|patterns|] == patterns;
      if !ok {
        assert names[i] in names;
        return false;
      }
      assert names[..i + 1] == names[..i] + [names[i]];
    }
    assert names[..|names|] == names;
    return true;
  }

  method EqualFoldASCII(a: string, b: string) returns (equal: bool)
    ensures equal <==>
            && |a| == |b|
            && forall i | 0 <= i < |a| ::
                 || a[i] == b[i]
                 || ('A' <= a[i] <= 'Z' && b[i] as int == a[i] as int + 32)
                 || ('A' <= b[i] <= 'Z' && a[i] as int == b[i] as int + 32)
    ensures equal <==> EqualFold(a, b)
  {
    FoldMeaning(a, b);
    if |a| != |b| {
      return false;
    }
    for i := 0 to |a|
      invariant SameUpToCase(a[..i], b[..i])
    {
      var ca, cb := a[i], b[i];
      if 'A' <= ca <= 'Z' {
        ca := (ca as int + 32) as char;
      }
      if 'A' <= cb <= 'Z' {
        cb := (cb as int + 32) as char;
      }
      if ca != cb {
        return false;
      }
    }
    assert a[..|a|] == a && b[..|b|] == b;
    return true;
  }

  method ContainsFoldASCII(list: seq<string>, want: string) returns (found: bool)
    ensures found <==> exists v | v in list :: SameUpToCase(v, want)
    ensures found <==> ContainsFold(list, want)
  {
    forall v ensures EqualFold(v, want) <==> SameUpToCase(v, want) {
      FoldMeaning(v, want);
    }
    for i := 0 to |list|
      invariant !ContainsFold(list[..i], want)
    {
      var same := EqualFoldASCII(list[i], want);
      if same {
        return true;
      }
      assert list[..i + 1] == list[..i] + [list[i]];
    }
    assert list[..|list|] == list;
    return false;
  }
}
