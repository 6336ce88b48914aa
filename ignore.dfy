/**
  The ignore-rule engine of the template generator: an ignore file is read
  line by line into directory rules (lines ending in `/`) and glob patterns
  (every other non-empty, non-comment line), both joined onto the template
  root; a path is then ignored when one of its ancestors is a directory rule
  or when a pattern matches the whole path.

  `NewIgnorer` and `Ignorer.Ignore` follow the loops of the Go code; the
  functions `ParseLines`, `DirLines`, `PatternLines`, `DirHit`, `FirstMatch`
  and `Ignored` say what those loops compute, and the lemmas say what that
  means.
*/
module Ignore {
  import opened Wrappers
  import opened Strings
  import opened Paths
  import opened Glob

  const Newline: char := '\n'

  /** The rules an ignorer holds. */
  datatype Rules = Rules(dirs: seq<string>, patterns: seq<string>)

  // ---------------------------------------------------------------------
  // Reading the rules

  /** An empty line or a `#` comment adds no rule. */
  predicate Skipped(line: string)
  {
    line == "" || line[0] == '#'
  }

  /** A line ending in a separator names a directory to exclude entirely. */
  predicate IsDirLine(line: string)
  {
    |line| > 0 && line[|line| - 1] == Separator
  }

  /** The rule a line stands for: the line joined onto the root. */
  function Rule(root: string, line: string): string
  {
    Join([root, line])
  }

  /** What one line does to the rules read so far; a malformed pattern stops the reading. */
  function AddLine(root: string, rules: Rules, line: string): Result<Rules, MatchError>
  {
    if Skipped(line) then Ok(rules)
    else if IsDirLine(line) then Ok(rules.(dirs := rules.dirs + [Rule(root, line)]))
    else if Match(Rule(root, line), []).Err? then Err(ErrBadPattern)
    else Ok(rules.(patterns := rules.patterns + [Rule(root, line)]))
  }

  /** The rules read from the given lines, in order; the first error ends the reading. */
  function ParseLines(root: string, lines: seq<string>): Result<Rules, MatchError>
  {
    if |lines| == 0 then Ok(Rules([], []))
    else
      match ParseLines(root, lines[..|lines| - 1])
      case Err(e) => Err(e)
      case Ok(rules) => AddLine(root, rules, lines[|lines| - 1])
  }

  /** The rules of an ignore source: none without a source, else those of its lines. */
  function Build(root: string, source: Option<string>): Result<Rules, MatchError>
  {
    match source
    case None => Ok(Rules([], []))
    case Some(text) => ParseLines(root, Split(text, Newline))
  }

  /** The directory rules of the lines, in line order. */
  function DirLines(root: string, lines: seq<string>): seq<string>
  {
    if |lines| == 0 then []
    else
      var last := lines[|lines| - 1];
      DirLines(root, lines[..|lines| - 1]) + (if !Skipped(last) && IsDirLine(last) then [Rule(root, last)] else [])
  }

  /** The pattern rules of the lines, in line order. */
  function PatternLines(root: string, lines: seq<string>): seq<string>
  {
    if |lines| == 0 then []
    else
      var last := lines[|lines| - 1];
      PatternLines(root, lines[..|lines| - 1]) + (if !Skipped(last) && !IsDirLine(last) then [Rule(root, last)] else [])
  }

  /** The number of lines that are neither empty nor comments. */
  function KeptCount(lines: seq<string>): nat
  {
    if |lines| == 0 then 0
    else KeptCount(lines[..|lines| - 1]) + (if Skipped(lines[|lines| - 1]) then 0 else 1)
  }

  /** Every pattern line joins onto the root as a well-formed pattern. */
  predicate PatternsValid(root: string, lines: seq<string>)
  {
    forall i :: 0 <= i < |lines| && !Skipped(lines[i]) && !IsDirLine(lines[i]) ==> WellFormed(Rule(root, lines[i]))
  }

  // ---------------------------------------------------------------------
  // Querying the rules

  /** Some directory rule is on the chain of ancestors that `Dir` walks from `s`. */
  predicate DirHit(dirs: seq<string>, s: string)
  {
    exists i :: 0 <= i < |dirs| && dirs[i] in Ancestors(s)
  }

  /** The pattern loop: the first error answers false, the first match true. */
  function FirstMatch(patterns: seq<string>, s: string): bool
  {
    if |patterns| == 0 then false
    else
      match Match(patterns[0], s)
      case Err(_) => false
      case Ok(matched) => matched || FirstMatch(patterns[1..], s)
  }

  /** Whether the rules exclude the path `s`. */
  predicate Ignored(rules: Rules, s: string)
  {
    DirHit(rules.dirs, s) || FirstMatch(rules.patterns, s)
  }

  /**
    The inner loop of `ignore` for one directory rule: step up from `s` with
    `Dir` until "." and report whether `dir` was passed on the way. From an
    absolute path the walk ends only by finding `dir`.
  */
  method WalkFinds(s: string, dir: string) returns (hit: bool)
    requires !IsAbs(s) || dir in Ancestors(s)
    ensures hit <==> dir in Ancestors(s)
  {
    ghost var chain := Ancestors(s);
    ghost var at: nat := 0;
    if IsAbs(s) {
      at :| at < |chain| && chain[at] == dir;
    }
    var target := s;
    ghost var k: nat := 0;
    while true
      invariant k <= |chain| && target == Walked(s, k)
      invariant forall y :: 0 <= y < k ==> chain[y] != dir
      invariant IsAbs(s) ==> k <= at < |chain| && chain[at] == dir
      decreases |chain| - k
    {
      WalkOn(s, dir, k, at);
      target := Dir(target);
      if target == "." {
        return false;
      }
      if target == dir {
        return true;
      }
      k := k + 1;
    }
  }

  /** One step of the walk in `WalkFinds`: an absolute path cannot pass "/" before `dir`. */
  lemma WalkOn(s: string, dir: string, k: nat, at: nat)
    requires k <= |Ancestors(s)|
    requires IsAbs(s) ==> k <= at < |Ancestors(s)| && Ancestors(s)[at] == dir
    ensures k < |Ancestors(s)| ==> Dir(Walked(s, k)) == Ancestors(s)[k] && Ancestors(s)[k] != "."
    ensures k == |Ancestors(s)| ==> !IsAbs(s) && Dir(Walked(s, k)) == "."
  {
    if k > 0 {
      AncestorMember(s, k - 1);
    }
    WalkStep(s, k);
  }

  /** The same walk, also stopping after "/", so that it ends for every path. */
  method WalkFindsAny(s: string, dir: string) returns (hit: bool)
    ensures hit <==> dir in Ancestors(s)
  {
    ghost var chain := Ancestors(s);
    var target := s;
    ghost var k: nat := 0;
    while true
      invariant k <= |chain| && target == Walked(s, k)
      invariant k == 0 || chain[k - 1] != [Separator]
      invariant forall y :: 0 <= y < k ==> chain[y] != dir
      decreases |chain| - k
    {
      WalkStep(s, k);
      target := Dir(target);
      if target == "." {
        return false;
      }
      if target == dir {
        return true;
      }
      if target == [Separator] {
        AncestorMember(s, k);
        return false;
      }
      k := k + 1;
    }
  }

  /** The ignorer: its directory rules and its pattern rules. */
  class Ignorer {
    var dirs: seq<string>
    var patterns: seq<string>

    constructor ()
      ensures dirs == [] && patterns == []
    {
      dirs := [];
      patterns := [];
    }

    /**
      `ignore`: walk each directory rule up the ancestors of `s` until "."
      is reached, then try the patterns in order. From an absolute path the
      walk never reaches ".", so the call ends only when there is no
      directory rule or the first one is an ancestor of `s`.
    */
    method Ignore(s: string) returns (ignored: bool)
      requires !IsAbs(s) || |dirs| == 0 || dirs[0] in Ancestors(s)
      ensures ignored == Ignored(Rules(dirs, patterns), s)
    {
      var i := 0;
      while i < |dirs|
        invariant 0 <= i <= |dirs|
        invariant forall x :: 0 <= x < i ==> dirs[x] !in Ancestors(s)
      {
        var hit := WalkFinds(s, dirs[i]);
        if hit {
          return true;
        }
        i := i + 1;
      }
      ignored := MatchPatterns(s);
    }

    /**
      The same query with the walk also stopping at "/", the one path that
      is its own parent; it accepts every path.
    */
    method IgnoreAnyPath(s: string) returns (ignored: bool)
      ensures ignored == Ignored(Rules(dirs, patterns), s)
    {
      var i := 0;
      while i < |dirs|
        invariant 0 <= i <= |dirs|
        invariant forall x :: 0 <= x < i ==> dirs[x] !in Ancestors(s)
      {
        var hit := WalkFindsAny(s, dirs[i]);
        if hit {
          return true;
        }
        i := i + 1;
      }
      ignored := MatchPatterns(s);
    }

    /** The pattern loop of `ignore`. */
    method MatchPatterns(s: string) returns (matched: bool)
      ensures matched == FirstMatch(patterns, s)
    {
      var j := 0;
      while j < |patterns|
        invariant 0 <= j <= |patterns|
        invariant FirstMatch(patterns, s) == FirstMatch(patterns[j..], s)
      {
        assert patterns[j..][1..] == patterns[j + 1..];
        var m := Match(patterns[j], s);
        if m.Err? {
          return false;
        }
        if m.value {
          return true;
        }
        j := j + 1;
      }
      return false;
    }
  }

  /**
    `newIgnorer`: with no source, an ignorer without rules; otherwise one rule
    per kept line of the source, or the error of its first malformed pattern.
  */
  method NewIgnorer(root: string, source: Option<string>) returns (r: Result<Ignorer, MatchError>)
    ensures Build(root, source).Err? ==> r == Err(Build(root, source).error)
    ensures Build(root, source).Ok? ==>
              r.Ok? && fresh(r.value) &&
              r.value.dirs == Build(root, source).value.dirs &&
              r.value.patterns == Build(root, source).value.patterns
  {
    var ig := new Ignorer();
    if source.None? {
      return Ok(ig);
    }
    var lines := Split(source.value, Newline);
    var i := 0;
    while i < |lines|
      invariant 0 <= i <= |lines|
      invariant ParseLines(root, lines[..i]) == Ok(Rules(ig.dirs, ig.patterns))
    {
      var line := lines[i];
      ReadStep(root, lines, i, Rules(ig.dirs, ig.patterns));
      if Skipped(line) {
        i := i + 1;
        continue;
      }
      if IsDirLine(line) {
        var dir := Rule(root, line);
        ig.dirs := ig.dirs + [dir];
      } else {
        var pattern := Rule(root, line);
        var m := Match(pattern, []);
        if m.Err? {
          return Err(ErrBadPattern);
        }
        ig.patterns := ig.patterns + [pattern];
      }
      i := i + 1;
    }
    assert lines[..|lines|] == lines;
    assert Build(root, source) == Ok(Rules(ig.dirs, ig.patterns));
    return Ok(ig);
  }

  // ---------------------------------------------------------------------
  // What reading the rules means

  /**
    One turn of the reading loop: after lines `..i` gave `rules`, line `i` is
    skipped, adds a directory rule, adds a pattern rule, or ends the whole
    reading with an error.
  */
  lemma ReadStep(root: string, lines: seq<string>, i: nat, rules: Rules)
    requires i < |lines| && ParseLines(root, lines[..i]) == Ok(rules)
    ensures Skipped(lines[i]) ==> ParseLines(root, lines[..i + 1]) == Ok(rules)
    ensures !Skipped(lines[i]) && IsDirLine(lines[i]) ==>
              ParseLines(root, lines[..i + 1]) == Ok(Rules(rules.dirs + [Rule(root, lines[i])], rules.patterns))
    ensures !Skipped(lines[i]) && !IsDirLine(lines[i]) && Match(Rule(root, lines[i]), []).Err? ==>
              ParseLines(root, lines) == Err(ErrBadPattern)
    ensures !Skipped(lines[i]) && !IsDirLine(lines[i]) && Match(Rule(root, lines[i]), []).Ok? ==>
              ParseLines(root, lines[..i + 1]) == Ok(Rules(rules.dirs, rules.patterns + [Rule(root, lines[i])]))
  {
    assert lines[..i + 1][..i] == lines[..i];
    if ParseLines(root, lines[..i + 1]).Err? {
      FailedLineFails(root, lines, i);
    }
  }

  /** Once a line has failed, the lines after it are not read. */
  lemma {:induction false} ErrorStops(root: string, lines: seq<string>, more: seq<string>)
    requires ParseLines(root, lines).Err?
    ensures ParseLines(root, lines + more) == ParseLines(root, lines)
    decreases |more|
  {
    if |more| == 0 {
      assert lines + more == lines;
    } else {
      var init := more[..|more| - 1];
      ErrorStops(root, lines, init);
      assert (lines + more)[..|lines + more| - 1] == lines + init;
    }
  }

  /** A line whose pattern is malformed, reached without error, is the error of the whole reading. */
  lemma FailedLineFails(root: string, lines: seq<string>, i: nat)
    requires i < |lines| && ParseLines(root, lines[..i + 1]).Err?
    ensures ParseLines(root, lines) == ParseLines(root, lines[..i + 1])
  {
    ErrorStops(root, lines[..i + 1], lines[i + 1..]);
    assert lines[..i + 1] + lines[i + 1..] == lines;
  }

  /**
    Reading succeeds exactly when every pattern line is well-formed, and then
    the directory rules are those of the directory lines and the patterns
    those of the other kept lines, each list in line order.
  */
  lemma {:induction false} ParseLinesMeaning(root: string, lines: seq<string>)
    ensures ParseLines(root, lines).Ok? <==> PatternsValid(root, lines)
    ensures ParseLines(root, lines).Ok? ==>
              ParseLines(root, lines).value == Rules(DirLines(root, lines), PatternLines(root, lines))
    decreases |lines|
  {
    if |lines| > 0 {
      var init := lines[..|lines| - 1];
      var last := lines[|lines| - 1];
      assert init + [last] == lines;
      ParseLinesMeaning(root, init);
      PatternsValidSnoc(root, init, last);
      if ParseLines(root, init).Ok? && !Skipped(last) && !IsDirLine(last) {
        MatchErrorIffMalformed(Rule(root, last), []);
      }
    }
  }

  /** The pattern lines of `init + [last]` are valid exactly when those of `init` and `last` are. */
  lemma PatternsValidSnoc(root: string, init: seq<string>, last: string)
    ensures PatternsValid(root, init + [last]) <==>
            PatternsValid(root, init) && (!Skipped(last) && !IsDirLine(last) ==> WellFormed(Rule(root, last)))
  {
    var lines := init + [last];
    if PatternsValid(root, init) && (!Skipped(last) && !IsDirLine(last) ==> WellFormed(Rule(root, last))) {
      forall i | 0 <= i < |lines| && !Skipped(lines[i]) && !IsDirLine(lines[i])
        ensures WellFormed(Rule(root, lines[i]))
      {
        if i < |init| {
          assert lines[i] == init[i];
        }
      }
    }
    if PatternsValid(root, lines) {
      forall i | 0 <= i < |init| && !Skipped(init[i]) && !IsDirLine(init[i])
        ensures WellFormed(Rule(root, init[i]))
      {
        assert lines[i] == init[i];
      }
      assert lines[|init|] == last;
    }
  }

  /** Together the two lists hold one rule per kept line. */
  lemma {:induction false} OneRulePerKeptLine(root: string, lines: seq<string>)
    ensures |DirLines(root, lines)| + |PatternLines(root, lines)| == KeptCount(lines)
    decreases |lines|
  {
    if |lines| > 0 {
      OneRulePerKeptLine(root, lines[..|lines| - 1]);
    }
  }

  /** A directory line is never checked as a pattern: it cannot make reading fail. */
  lemma DirLineNeverFails(root: string, lines: seq<string>, line: string)
    requires IsDirLine(line)
    ensures ParseLines(root, lines + [line]).Err? == ParseLines(root, lines).Err?
    ensures ParseLines(root, lines).Ok? ==>
              ParseLines(root, lines + [line]).value.patterns == ParseLines(root, lines).value.patterns
  {
    assert (lines + [line])[..|lines|] == lines;
  }

  /** A line of blanks is kept, and kept as a pattern. */
  lemma BlankLineIsPattern(root: string, line: string)
    requires |line| > 0 && forall i :: 0 <= i < |line| ==> line[i] == ' ' || line[i] == '\t'
    ensures PatternLines(root, [line]) == [Rule(root, line)] && DirLines(root, [line]) == []
  {
    assert [line][..0] == [];
  }

  /** A directory rule is the join of the root and the line without its separator. */
  lemma DirRuleShape(root: string, line: string)
    requires IsDirLine(line) && (root != "" || |line| >= 2)
    ensures Rule(root, line) == Join([root, line[..|line| - 1]])
  {
    JoinDropsTrailingSlash(root, line);
  }

  /** A directory rule is never empty and ends in no separator, unless it is the root "/". */
  lemma DirRuleNoTrailingSlash(root: string, line: string)
    requires IsDirLine(line)
    ensures var d := Rule(root, line); |d| > 0 && (d == [Separator] || d[|d| - 1] != Separator)
  {
    JoinTwo(root, line);
    CleanNoTrailingSlash(if root == "" then line else root + [Separator] + line);
  }

  /** Every pattern of an ignorer that was built is well-formed. */
  lemma BuiltPatternsWellFormed(root: string, source: Option<string>)
    requires Build(root, source).Ok?
    ensures forall p :: p in Build(root, source).value.patterns ==> WellFormed(p)
  {
    if source.Some? {
      var lines := Split(source.value, Newline);
      ParseLinesMeaning(root, lines);
      PatternLinesValid(root, lines);
    }
  }

  lemma {:induction false} PatternLinesValid(root: string, lines: seq<string>)
    requires PatternsValid(root, lines)
    ensures forall p :: p in PatternLines(root, lines) ==> WellFormed(p)
    decreases |lines|
  {
    if |lines| > 0 {
      var init := lines[..|lines| - 1];
      assert PatternsValid(root, init) by {
        forall i | 0 <= i < |init| && !Skipped(init[i]) && !IsDirLine(init[i])
          ensures WellFormed(Rule(root, init[i]))
        {
          assert init[i] == lines[i];
        }
      }
      PatternLinesValid(root, init);
    }
  }

  // ---------------------------------------------------------------------
  // What querying the rules means

  /** Without a source there are no rules, and nothing is ignored. */
  lemma NilSourceIgnoresNothing(root: string, s: string)
    ensures Build(root, None) == Ok(Rules([], []))
    ensures !Ignored(Build(root, None).value, s)
  {
  }

  /**
    With well-formed patterns the pattern loop answers whether some pattern
    matches the whole path.
  */
  lemma {:induction false} FirstMatchAny(patterns: seq<string>, s: string)
    requires forall p :: p in patterns ==> WellFormed(p)
    ensures FirstMatch(patterns, s) <==> exists p :: p in patterns && Match(p, s) == Ok(true)
    decreases |patterns|
  {
    if |patterns| > 0 {
      MatchErrorIffMalformed(patterns[0], s);
      FirstMatchAny(patterns[1..], s);
      if FirstMatch(patterns[1..], s) {
        var p :| p in patterns[1..] && Match(p, s) == Ok(true);
        assert p in patterns;
      }
      if exists p :: p in patterns && Match(p, s) == Ok(true) {
        var p :| p in patterns && Match(p, s) == Ok(true);
        if p != patterns[0] {
          assert p in patterns[1..];
        }
      }
    }
  }

  /** With well-formed patterns their order does not matter. */
  lemma PatternOrderIrrelevant(ps: seq<string>, qs: seq<string>, s: string)
    requires multiset(ps) == multiset(qs)
    requires forall p :: p in ps ==> WellFormed(p)
    ensures FirstMatch(ps, s) == FirstMatch(qs, s)
  {
    forall p ensures p in ps <==> p in qs {
      assert p in ps <==> p in multiset(ps);
      assert p in qs <==> p in multiset(qs);
    }
    FirstMatchAny(ps, s);
    FirstMatchAny(qs, s);
  }

  /**
    For an ignorer that was built, the query is existential: some directory
    rule is an ancestor of the path, or some pattern matches it.
  */
  lemma BuiltIgnorerMeaning(root: string, source: Option<string>, s: string)
    requires Build(root, source).Ok?
    ensures var rules := Build(root, source).value;
            Ignored(rules, s) <==>
              (exists d :: d in rules.dirs && d in Ancestors(s)) ||
              (exists p :: p in rules.patterns && Match(p, s) == Ok(true))
  {
    var rules := Build(root, source).value;
    BuiltPatternsWellFormed(root, source);
    FirstMatchAny(rules.patterns, s);
    if exists d :: d in rules.dirs && d in Ancestors(s) {
      var d :| d in rules.dirs && d in Ancestors(s);
      var i :| 0 <= i < |rules.dirs| && rules.dirs[i] == d;
    }
  }

  /**
    The pattern loop fails open on an error: once the first pattern that does
    not answer `false` reports an error, the query is false, whatever the
    patterns after it would answer.
  */
  lemma {:induction false} FirstErrorHides(patterns: seq<string>, s: string, j: nat)
    requires j < |patterns| && Match(patterns[j], s).Err?
    requires forall i :: 0 <= i < j ==> Match(patterns[i], s) == Ok(false)
    ensures !FirstMatch(patterns, s)
    decreases j
  {
    if j > 0 {
      var rest := patterns[1..];
      assert Match(patterns[0], s) == Ok(false);
      forall i | 0 <= i < j - 1
        ensures Match(rest[i], s) == Ok(false)
      {
        assert rest[i] == patterns[i + 1];
      }
      assert rest[j - 1] == patterns[j];
      FirstErrorHides(rest, s, j - 1);
    }
  }

  /** A malformed pattern ahead of a matching one hides the match, so with such patterns order matters. */
  lemma ErrorHidesLaterMatch()
    ensures !FirstMatch(["[", "a"], "a")
    ensures FirstMatch(["a", "["], "a")
  {
    assert !WellFormed("[");
    MatchErrorIffMalformed("[", "a");
    FirstErrorHides(["[", "a"], "a", 0);
    assert Simple("a");
    MatchSimple("a", "a");
    assert Matches("a", "a") by {
      assert "a"[1..] == [];
    }
  }


  /**
    For a clean relative path `s`, a directory rule `d` fires exactly when
    `d` followed by "/" begins `s`: a proper ancestor, never `s` itself.
  */
  lemma DirRuleFires(d: string, s: string)
    requires !IsAbs(s) && Clean(s) == s
    ensures DirHit([d], s) <==> d + [Separator] <= s
    ensures !DirHit([s], s)
  {
    AncestorsOfClean(s, d);
    AncestorsOfClean(s, s);
    if d + [Separator] <= s {
      assert [d][0] in Ancestors(s);
    }
  }

  /** Up to the end of the chain, the walk is `Dir` applied step by step. */
  lemma {:induction false} WalkIsDirIter(s: string, k: nat)
    requires !IsAbs(s) && k <= |Ancestors(s)|
    ensures DirIter(s, k) == Walked(s, k)
  {
    if k > 0 {
      WalkIsDirIter(s, k - 1);
      if k > 1 {
        AncestorMember(s, k - 2);
      }
      WalkStep(s, k - 1);
      assert DirIter(s, k) == Dir(Walked(s, k - 1)) == Ancestors(s)[k - 1];
    }
  }

  /**
    For a clean relative path the walk of one directory rule ends after
    exactly one `Dir` step per separator in the path, plus one.
  */
  lemma WalkLength(s: string)
    requires !IsAbs(s) && Clean(s) == s
    ensures DirIter(s, Count(s, Separator) + 1) == "."
    ensures forall n :: 1 <= n <= Count(s, Separator) ==> DirIter(s, n) != "."
  {
    var chain := Ancestors(s);
    AncestorCount(s);
    WalkIsDirIter(s, |chain|);
    if |chain| > 0 {
      AncestorMember(s, |chain| - 1);
    }
    WalkStep(s, |chain|);
    forall n | 1 <= n <= Count(s, Separator) ensures DirIter(s, n) != "." {
      WalkNotDone(s, n);
    }
  }

  /** Before its last step the walk of a relative path never reaches ".". */
  lemma WalkNotDone(s: string, n: nat)
    requires !IsAbs(s) && 1 <= n <= |Ancestors(s)|
    ensures DirIter(s, n) != "."
  {
    WalkIsDirIter(s, n);
    AncestorMember(s, n - 1);
  }
}
