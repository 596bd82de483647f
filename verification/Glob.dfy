/**
 `_covers` of the gate checker (scripts/check_gate_enforcement.py): a syntactic test that a list of
 GitHub path filters lets through every path that a policed pattern names.
 */
module Glob {
  import opened Bytes

  // ---------------------------------------------------------------- what a pattern matches

  predicate IsMeta(c: char) {
    c == '*' || c == '?' || c == '+' || c == '[' || c == ']' || c == '!' || c == '\\'
  }

  /** `literal`: none of the characters that mean something in a filter. */
  predicate Literal(p: string) {
    forall i :: 0 <= i < |p| ==> !IsMeta(p[i])
  }

  /** Built from literal characters, * and **. */
  predicate Starred(p: string) {
    forall i :: 0 <= i < |p| ==> p[i] == '*' || !IsMeta(p[i])
  }

  predicate WithinSegment(s: string) {
    forall i :: 0 <= i < |s| ==> s[i] != '/'
  }

  /**
   The whole path matches: * is any string without a slash, ** any string, and a segment-initial
   double star with its slash any run of directories, none included. `start` says that the pattern
   stands at the start of a path segment.
   */
  ghost predicate Matches(p: string, start: bool, path: string)
    decreases |p|
  {
    if p == "" then path == ""
    else if start && "**/" <= p then
      exists k :: 0 <= k <= |path| && (k == 0 || path[k - 1] == '/') && Matches(p[3..], true, path[k..])
    else if "**" <= p then exists k :: 0 <= k <= |path| && Matches(p[2..], false, path[k..])
    else if p[0] == '*' then
      exists k :: 0 <= k <= |path| && WithinSegment(path[..k]) && Matches(p[1..], false, path[k..])
    else path != "" && path[0] == p[0] && Matches(p[1..], p[0] == '/', path[1..])
  }

  /** What a filter with other signs matches is left open. */
  ghost predicate Names(p: string, path: string, other: (string, string) -> bool) {
    if Starred(p) then Matches(p, true, path) else other(p, path)
  }

  // ---------------------------------------------------------------- the test

  /** Python's `endswith`. */
  predicate EndsWith(s: string, t: string) {
    |t| <= |s| && s[|s| - |t|..] == t
  }

  /** The forms that cover without being equal. */
  predicate CoversBelow(prefix: string, policed: string) {
    prefix != "" && Literal(prefix) && prefix + "/" <= policed
  }

  predicate CoversFile(suffix: string, policed: string) {
    Literal(suffix) && Literal(policed) && (policed == suffix || EndsWith(policed, "/" + suffix))
  }

  /** The test for one filter. */
  predicate CoversOne(pattern: string, policed: string) {
    || pattern == policed || pattern == "**"
    || (EndsWith(pattern, "/**") && CoversBelow(pattern[..|pattern| - 3], policed))
    || ("**/" <= pattern && CoversFile(pattern[3..], policed))
  }

  method Covers(filterGlobs: seq<string>, policed: string) returns (covered: bool)
    ensures covered <==> exists i :: 0 <= i < |filterGlobs| && CoversOne(filterGlobs[i], policed)
  {
    for i := 0 to |filterGlobs|
      invariant forall j :: 0 <= j < i ==> !CoversOne(filterGlobs[j], policed)
    {
      var pattern := filterGlobs[i];
      if pattern == policed || pattern == "**" {
        return true;
      }
      if EndsWith(pattern, "/**") {
        var prefix := pattern[..|pattern| - 3];
        if prefix != "" && Literal(prefix) && prefix + "/" <= policed {
          return true;
        }
      }
      if "**/" <= pattern {
        var suffix := pattern[3..];
        if Literal(suffix) && Literal(policed) && (policed == suffix || EndsWith(policed, "/" + suffix)) {
          return true;
        }
      }
    }
    covered := false;
  }

  // ---------------------------------------------------------------- soundness

  predicate StartAfter(l: string, start: bool) {
    if l == "" then start else l[|l| - 1] == '/'
  }

  /** A literal beginning matches itself and nothing else. */
  lemma {:induction false} LiteralFirst(l: string, p: string, start: bool, path: string)
    requires Literal(l)
    ensures Matches(l + p, start, path) <==> l <= path && Matches(p, StartAfter(l, start), path[|l|..])
    decreases |l|
  {
    if l == "" {
      assert l + p == p && path[0..] == path;
    } else {
      var q := l + p;
      assert q[0] == l[0] && q[1..] == l[1..] + p;
      assert !IsMeta(l[0]);
      if path != "" && path[0] == l[0] {
        LiteralFirst(l[1..], p, l[0] == '/', path[1..]);
        if l[1..] <= path[1..] {
          assert l == [l[0]] + l[1..];
          assert path[1..][|l| - 1..] == path[|l|..];
        }
      }
    }
  }

  lemma LiteralMatchesItself(l: string, start: bool, path: string)
    requires Literal(l)
    ensures Matches(l, start, path) <==> path == l
  {
    LiteralFirst(l, "", start, path);
    assert l + "" == l;
  }

  lemma DoubleStarMatchesAll(start: bool, path: string)
    ensures Matches("**", start, path)
  {
    assert "**"[2..] == "";
    assert Matches("**"[2..], false, path[|path|..]);
  }

  lemma UnderPrefix(prefix: string, path: string)
    requires Literal(prefix) && prefix + "/" <= path
    ensures Matches(prefix + "/**", true, path)
  {
    var l := prefix + "/";
    assert l + "**" == prefix + "/**";
    LiteralFirst(l, "**", true, path);
    DoubleStarMatchesAll(true, path[|l|..]);
  }

  lemma UnderPrefixOnly(prefix: string, path: string)
    requires Literal(prefix) && Matches(prefix + "/**", true, path)
    ensures prefix + "/" <= path
  {
    var l := prefix + "/";
    assert l + "**" == prefix + "/**";
    LiteralFirst(l, "**", true, path);
  }

  /** A literal file name under any directories. */
  lemma AnyDirectory(suffix: string, path: string)
    requires Literal(suffix)
    ensures Matches("**/" + suffix, true, path) <==> path == suffix || EndsWith(path, "/" + suffix)
  {
    var p := "**/" + suffix;
    assert p[3..] == suffix;
    forall k | 0 <= k <= |path|
      ensures Matches(suffix, true, path[k..]) <==> path[k..] == suffix
    {
      LiteralMatchesItself(suffix, true, path[k..]);
    }
    var n := |path| - |suffix|;
    if path == suffix {
      assert path[0..] == suffix;
      assert Matches(p[3..], true, path[0..]);
    } else if EndsWith(path, "/" + suffix) {
      assert path[n - 1..][0] == '/' && path[n..] == path[n - 1..][1..] == suffix;
      assert Matches(p[3..], true, path[n..]);
    }
    forall k | 0 <= k <= |path| && (k == 0 || path[k - 1] == '/') && path[k..] == suffix
      ensures path == suffix || EndsWith(path, "/" + suffix)
    {
      if k == 0 {
        assert path[0..] == path;
      } else {
        assert path[k - 1..] == "/" + suffix;
      }
    }
  }

  /** A policed pattern below a literal directory stays below it. */
  lemma DirectoryCovers(prefix: string, policed: string, path: string)
    requires Literal(prefix) && prefix + "/" <= policed && Matches(policed, true, path)
    ensures Matches(prefix + "/**", true, path)
  {
    var l := prefix + "/";
    assert policed == l + policed[|l|..];
    LiteralFirst(l, policed[|l|..], true, path);
    UnderPrefix(prefix, path);
  }

  /** A literal file with this ending matches nothing but itself. */
  lemma SuffixCovers(suffix: string, policed: string, path: string)
    requires Literal(suffix) && Literal(policed) && (policed == suffix || EndsWith(policed, "/" + suffix))
    requires Matches(policed, true, path)
    ensures Matches("**/" + suffix, true, path)
  {
    LiteralMatchesItself(policed, true, path);
    AnyDirectory(suffix, path);
  }

  lemma StarredForms(l: string)
    requires Literal(l)
    ensures Starred("**") && Starred(l + "/**") && Starred("**/" + l)
  {
    var a, b := l + "/**", "**/" + l;
    assert forall i :: |l| <= i < |a| ==> a[i] == "/**"[i - |l|];
    assert forall i :: 3 <= i < |b| ==> b[i] == l[i - 3];
  }

  lemma EndIs(s: string, t: string)
    requires EndsWith(s, t)
    ensures s == s[..|s| - |t|] + t
  {
  }

  lemma StartIs(s: string, t: string)
    requires t <= s
    ensures s == t + s[|t|..]
  {
  }

  lemma {:induction false} DirectoryIsSound(pattern: string, policed: string, path: string,
                                            other: (string, string) -> bool)
    requires EndsWith(pattern, "/**") && CoversBelow(pattern[..|pattern| - 3], policed)
    requires Starred(policed) && Matches(policed, true, path)
    ensures Names(pattern, path, other)
  {
    var prefix := pattern[..|pattern| - 3];
    EndIs(pattern, "/**");
    StarredForms(prefix);
    DirectoryCovers(prefix, policed, path);
  }

  lemma {:induction false} SuffixIsSound(pattern: string, policed: string, path: string,
                                         other: (string, string) -> bool)
    requires "**/" <= pattern && CoversFile(pattern[3..], policed) && Matches(policed, true, path)
    ensures Names(pattern, path, other)
  {
    var suffix := pattern[3..];
    StartIs(pattern, "**/");
    StarredForms(suffix);
    SuffixCovers(suffix, policed, path);
  }

  lemma {:induction false} CoversOneIsSound(pattern: string, policed: string, path: string,
                                            other: (string, string) -> bool)
    requires Starred(policed) && CoversOne(pattern, policed) && Names(policed, path, other)
    ensures Names(pattern, path, other)
  {
    if pattern == policed {
    } else if pattern == "**" {
      DoubleStarMatchesAll(true, path);
    } else if EndsWith(pattern, "/**") && CoversBelow(pattern[..|pattern| - 3], policed) {
      DirectoryIsSound(pattern, policed, path, other);
    } else {
      SuffixIsSound(pattern, policed, path, other);
    }
  }

  // ---------------------------------------------------------------- the workflow filter

  /**
   `paths` of a workflow: the last filter that matches a file decides, and one that begins with !
   excludes what its rest matches.
   */
  ghost predicate Fires(filters: seq<string>, path: string, other: (string, string) -> bool)
    decreases |filters|
  {
    if filters == [] then false
    else
      var n := |filters| - 1;
      var p := filters[n];
      if p != "" && p[0] == '!' then !Names(p[1..], path, other) && Fires(filters[..n], path, other)
      else Names(p, path, other) || Fires(filters[..n], path, other)
  }

  predicate Excludes(p: string) {
    p != "" && p[0] == '!'
  }

  /** The filters handed to the test: exclusions are left aside. */
  function Positive(filters: seq<string>): seq<string>
    decreases |filters|
  {
    if filters == [] then []
    else
      var n := |filters| - 1;
      Positive(filters[..n]) + if Excludes(filters[n]) then [] else [filters[n]]
  }

  /** The exclusions, which are reported. */
  function Negative(filters: seq<string>): seq<string>
    decreases |filters|
  {
    if filters == [] then []
    else
      var n := |filters| - 1;
      Negative(filters[..n]) + if Excludes(filters[n]) then [filters[n]] else []
  }

  ghost predicate Covered(filters: seq<string>, policed: string) {
    exists i :: 0 <= i < |filters| && CoversOne(filters[i], policed)
  }

  // ---------------------------------------------------------------- what is reported

  /** The path filters of a push or pull_request trigger; None is an absent key. */
  datatype Trigger = Trigger(paths: Option<seq<string>>, pathsIgnore: Option<seq<string>>)

  datatype Failure = Malformed | HasNegatives(patterns: seq<string>) | Uncovered(policed: string) | IgnoreUnsupported

  function Patterns(filters: Option<seq<string>>): seq<string> {
    if filters.Some? then filters.value else []
  }

  /** Lists of non-empty strings. */
  predicate Shaped(t: Trigger) {
    "" !in Patterns(t.paths) && "" !in Patterns(t.pathsIgnore)
  }

  predicate NegativesOf(t: Trigger, patterns: seq<string>) {
    patterns != [] && (patterns == Negative(Patterns(t.paths)) || patterns == Negative(Patterns(t.pathsIgnore)))
  }

  ghost predicate Missed(t: Trigger, policedPaths: seq<string>, policed: string) {
    t.paths.Some? && policed in policedPaths && !Covered(Positive(t.paths.value), policed)
  }

  /** Exactly these failures belong to the path filters of a trigger. */
  ghost predicate Deserves(t: Trigger, policedPaths: seq<string>, f: Failure) {
    match f
    case Malformed => !Shaped(t)
    case HasNegatives(patterns) => Shaped(t) && NegativesOf(t, patterns)
    case Uncovered(policed) => Shaped(t) && Missed(t, policedPaths, policed)
    case IgnoreUnsupported => Shaped(t) && Patterns(t.pathsIgnore) != []
  }

  /** The exclusions of both lists. */
  method NegativeFailures(t: Trigger) returns (fails: seq<Failure>)
    ensures forall f :: f in fails <==> f.HasNegatives? && NegativesOf(t, f.patterns)
  {
    fails := [];
    var inPaths, inIgnore := Negative(Patterns(t.paths)), Negative(Patterns(t.pathsIgnore));
    if inPaths != [] {
      fails := [HasNegatives(inPaths)];
    }
    if inIgnore != [] {
      fails := fails + [HasNegatives(inIgnore)];
    }
  }

  /** The policed paths that the filters miss. */
  method CoverageFailures(t: Trigger, policedPaths: seq<string>) returns (fails: seq<Failure>)
    ensures forall f :: f in fails <==> f.Uncovered? && Missed(t, policedPaths, f.policed)
  {
    fails := [];
    if t.paths.None? {
      return;
    }
    for i := 0 to |policedPaths|
      invariant forall f :: f in fails <==> f.Uncovered? && Missed(t, policedPaths[..i], f.policed)
    {
      var covered := Covers(Positive(t.paths.value), policedPaths[i]);
      if !covered {
        fails := fails + [Uncovered(policedPaths[i])];
      }
      assert policedPaths[..i + 1] == policedPaths[..i] + [policedPaths[i]];
    }
    assert policedPaths[..|policedPaths|] == policedPaths;
  }

  /** The part of `_per_pr_trigger_failures` that is about the path filters of one trigger. */
  method PathFailures(t: Trigger, policedPaths: seq<string>) returns (fails: seq<Failure>)
    ensures forall f :: f in fails <==> Deserves(t, policedPaths, f)
  {
    if !Shaped(t) {
      return [Malformed];
    }
    fails := NegativeFailures(t);
    var missed := CoverageFailures(t, policedPaths);
    fails := fails + missed;
    if Patterns(t.pathsIgnore) != [] {
      fails := fails + [IgnoreUnsupported];
    }
  }

  // ---------------------------------------------------------------- and what that is good for

  /** The workflow runs on a change to this file. */
  ghost predicate Runs(t: Trigger, path: string, other: (string, string) -> bool) {
    && (t.paths.Some? ==> Fires(t.paths.value, path, other))
    && !Fires(Patterns(t.pathsIgnore), path, other)
  }

  lemma {:induction false} NoExclusionFires(filters: seq<string>, i: nat, path: string, other: (string, string) -> bool)
    requires Negative(filters) == []
    requires i < |filters| && Names(filters[i], path, other)
    ensures Fires(filters, path, other)
    decreases |filters|
  {
    var n := |filters| - 1;
    if i < n {
      NoExclusionFires(filters[..n], i, path, other);
    }
  }

  lemma {:induction false} NothingLeftAside(filters: seq<string>)
    requires Negative(filters) == []
    ensures Positive(filters) == filters
    decreases |filters|
  {
    if filters != [] {
      NothingLeftAside(filters[..|filters| - 1]);
    }
  }

  /** A trigger of which nothing is reported runs the workflow on a change to any policed path. */
  lemma NothingReportedRuns(t: Trigger, policedPaths: seq<string>, policed: string, path: string,
                            other: (string, string) -> bool)
    requires forall f :: !Deserves(t, policedPaths, f)
    requires policed in policedPaths && Starred(policed) && Matches(policed, true, path)
    ensures Runs(t, path, other)
  {
    assert !Deserves(t, policedPaths, Malformed) && !Deserves(t, policedPaths, IgnoreUnsupported);
    if t.paths.Some? {
      var filters := t.paths.value;
      assert !Deserves(t, policedPaths, HasNegatives(Negative(filters)));
      assert !Deserves(t, policedPaths, Uncovered(policed));
      NothingLeftAside(filters);
      var i :| 0 <= i < |filters| && CoversOne(filters[i], policed);
      CoversOneIsSound(filters[i], policed, path, other);
      NoExclusionFires(filters, i, path, other);
    }
  }

  // ---------------------------------------------------------------- and not needlessly strict

  lemma LastThree(p: string)
    ensures EndsWith(p, "/**") ==> p[|p| - 1] == '*'
  {
    if EndsWith(p, "/**") {
      assert p[|p| - 3..][2] == p[|p| - 1];
    }
  }

  /** For a single file and a filter of the forms it understands, the test is exact. */
  lemma CoversLiteralExactly(pattern: string, policed: string, l: string)
    requires Literal(policed) && Literal(l)
    requires pattern == l || pattern == "**" || (l != "" && pattern == l + "/**") || pattern == "**/" + l
    ensures CoversOne(pattern, policed) <==> Matches(pattern, true, policed)
  {
    if pattern == "**/" + l {
      AnyDirectory(l, policed);
      assert pattern[3..] == l && pattern[0] == '*' && pattern[|pattern| - 1] != '*';
      assert policed != "" ==> policed[0] != '*';
      LastThree(pattern);
    } else if pattern == "**" {
      DoubleStarMatchesAll(true, policed);
    } else if l != "" && pattern == l + "/**" {
      assert pattern[..|pattern| - 3] == l && pattern[|pattern| - 3..] == "/**";
      if l + "/" <= policed {
        UnderPrefix(l, policed);
      } else if Matches(pattern, true, policed) {
        UnderPrefixOnly(l, policed);
        assert false;
      }
      assert pattern[0] == l[0] != '*';
    } else {
      assert l != "" ==> l[0] != '*' && l[|l| - 1] != '*';
      LastThree(l);
      LiteralMatchesItself(l, true, policed);
    }
  }
}
