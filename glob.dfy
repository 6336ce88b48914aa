/**
  Go's `filepath.Match` on a Unix host, as the library implements it since
  Go 1.16: the pattern is cut into chunks, each a run of leading `*`s
  followed by the text up to the next `*` outside a character class; a chunk
  is matched at the current position of the name, and after a star at the
  first later position that fits (a star never skips a separator). Once a
  match fails, the rest of the pattern is still scanned, so that a malformed
  pattern always reports `ErrBadPattern`, whatever the name. (Earlier
  releases returned at the first mismatch and reported only the syntax
  errors they had reached.) The name here is a string of characters, and the
  star loop steps over one character at a time; the library steps over
  bytes, so the two agree on names of ASCII characters.

  `WellFormed` is the pattern syntax the library documents, defined on the
  pattern's characters alone, and the algorithm is proved to report an
  error exactly on the patterns outside it. Patterns built only from
  literals, `?` and `*` are also given a declarative meaning, `Matches`, and
  the algorithm is proved to agree with it.
*/
module Glob {
  import opened Wrappers
  import opened Paths

  datatype MatchError = ErrBadPattern

  /** The outcome of matching one chunk against the front of a name. */
  datatype ChunkResult = Matched(rest: string) | Failed | BadChunk

  /** A chunk of the pattern: whether stars precede it, its text, and the pattern after it. */
  datatype Scanned = Scanned(star: bool, chunk: string, rest: string)

  /** The outcome of the loop that lets a star skip characters. */
  datatype StarSkip = Skip(rest: string) | NoSkip | SkipBad

  // ---------------------------------------------------------------------
  // The library algorithm

  /** The number of `*`s at the front of `p`. */
  function LeadingStars(p: string): (k: nat)
    ensures k <= |p|
    ensures forall i :: 0 <= i < k ==> p[i] == '*'
    ensures k < |p| ==> p[k] != '*'
  {
    if |p| > 0 && p[0] == '*' then 1 + LeadingStars(p[1..]) else 0
  }

  /**
    Where the chunk that `scanChunk` reads from position i ends: at the first
    `*` outside a `[...]` class, or at the end.
  */
  function ChunkEnd(p: string, i: nat, inrange: bool): (j: nat)
    requires i <= |p|
    ensures i <= j <= |p|
    ensures j < |p| ==> p[j] == '*'
    decreases |p| - i
  {
    if i == |p| || (p[i] == '*' && !inrange) then i
    else ChunkEnd(p, i + Width(p, i), InRange(p[i], inrange))
  }

  /** How far one turn of `scanChunk`'s loop moves: a `\` also skips the character after it. */
  function Width(p: string, i: nat): (w: nat)
    requires i < |p|
    ensures 1 <= w && i + w <= |p|
  {
    if p[i] == '\\' && i + 1 < |p| then 2 else 1
  }

  /** Whether `scanChunk` is inside a class after reading `c`. */
  function InRange(c: char, inrange: bool): bool
  {
    if c == '[' then true else if c == ']' then false else inrange
  }


  /** `scanChunk`: strip the leading stars, then cut off one chunk. */
  function ScanChunk(p: string): (sc: Scanned)
    ensures sc.star == (LeadingStars(p) > 0)
    ensures p[LeadingStars(p)..] == sc.chunk + sc.rest
    ensures sc.rest == [] || sc.rest[0] == '*'
    ensures sc.chunk == [] ==> sc.rest == []
    ensures |p| > 0 ==> |sc.rest| < |p|
  {
    var k := LeadingStars(p);
    var q := p[k..];
    var j := ChunkEnd(q, 0, false);
    assert q == q[..j] + q[j..];
    Scanned(k > 0, q[..j], q[j..])
  }

  /** `getEsc`: one (possibly escaped) character of a class, which must be followed by more. */
  function GetEsc(chunk: string): (r: Result<(char, string), MatchError>)
    ensures r.Ok? ==> 0 < |r.value.1| < |chunk|
  {
    if |chunk| == 0 || chunk[0] == '-' || chunk[0] == ']' then Err(ErrBadPattern)
    else
      var c := if chunk[0] == '\\' then chunk[1..] else chunk;
      if |c| <= 1 then Err(ErrBadPattern) else Ok((c[0], c[1..]))
  }

  /**
    The items of a class after `[` (and `^`), up to its closing `]`: whether
    one of them holds `r`, and the chunk after the class.
  */
  function ClassItems(chunk: string, r: char, nrange: nat): (res: Result<(bool, string), MatchError>)
    ensures res.Ok? ==> |res.value.1| < |chunk|
    decreases |chunk|
  {
    if |chunk| > 0 && chunk[0] == ']' && nrange > 0 then Ok((false, chunk[1..]))
    else
      match GetEsc(chunk)
      case Err(e) => Err(e)
      case Ok(low) =>
        var lo := low.0;
        var bounds :=
          if low.1[0] == '-' then
            match GetEsc(low.1[1..])
            case Err(e) => Err(e)
            case Ok(high) => Ok(high)
          else Ok((lo, low.1));
        match bounds
        case Err(e) => Err(e)
        case Ok(high) =>
          match ClassItems(high.1, r, nrange + 1)
          case Err(e) => Err(e)
          case Ok(more) => Ok(((lo <= r && r <= high.0) || more.0, more.1))
  }

  /**
    `matchChunk` from a given state of its `failed` flag: once failed, the
    rest of the chunk is only checked for well-formedness.
  */
  function Step(chunk: string, s: string, failed: bool): ChunkResult
    decreases |chunk|
  {
    if |chunk| == 0 then (if failed then Failed else Matched(s))
    else
      var failed := failed || |s| == 0;
      if chunk[0] == '[' then
        var r := if failed then '\0' else s[0];
        var s' := if failed then s else s[1..];
        var negated := |chunk| > 1 && chunk[1] == '^';
        match ClassItems(chunk[if negated then 2 else 1..], r, 0)
        case Err(_) => BadChunk
        case Ok(cls) => Step(cls.1, s', failed || cls.0 == negated)
      else if chunk[0] == '?' then
        if failed then Step(chunk[1..], s, true)
        else Step(chunk[1..], s[1..], s[0] == Separator)
      else if chunk[0] == '\\' && |chunk| == 1 then BadChunk
      else
        var k := if chunk[0] == '\\' then 1 else 0;
        if failed then Step(chunk[k + 1..], s, true)
        else Step(chunk[k + 1..], s[1..], chunk[k] != s[0])
  }

  /** `matchChunk`: match one chunk against the front of `s`. */
  function MatchChunk(chunk: string, s: string): ChunkResult
  {
    Step(chunk, s, false)
  }

  /**
    The star loop of `Match`: try the chunk after skipping i+1 characters,
    for i from the given one up to the first separator; the last chunk must
    also use up the name.
  */
  function StarLoop(chunk: string, last: bool, name: string, i: nat): StarSkip
    decreases |name| - i
  {
    if i >= |name| || name[i] == Separator then NoSkip
    else
      match MatchChunk(chunk, name[i + 1..])
      case Matched(t) => if last && |t| > 0 then StarLoop(chunk, last, name, i + 1) else Skip(t)
      case BadChunk => SkipBad
      case Failed => StarLoop(chunk, last, name, i + 1)
  }

  /** The final loop of `Match`: check that the chunks left over are well-formed. */
  function Validate(p: string): Result<bool, MatchError>
    decreases |p|
  {
    if |p| == 0 then Ok(false)
    else
      var sc := ScanChunk(p);
      if MatchChunk(sc.chunk, []).BadChunk? then Err(ErrBadPattern) else Validate(sc.rest)
  }

  /** `filepath.Match(pattern, name)`. */
  function Match(pattern: string, name: string): Result<bool, MatchError>
    decreases |pattern|
  {
    if |pattern| == 0 then Ok(|name| == 0)
    else
      var sc := ScanChunk(pattern);
      if sc.star && sc.chunk == [] then Ok(Separator !in name)
      else
        var here := MatchChunk(sc.chunk, name);
        if here.Matched? && (|here.rest| == 0 || |sc.rest| > 0) then Match(sc.rest, here.rest)
        else if here.BadChunk? then Err(ErrBadPattern)
        else if !sc.star then Validate(sc.rest)
        else
          match StarLoop(sc.chunk, |sc.rest| == 0, name, 0)
          case Skip(t) => Match(sc.rest, t)
          case SkipBad => Err(ErrBadPattern)
          case NoSkip => Validate(sc.rest)
  }

  // ---------------------------------------------------------------------
  // The pattern syntax

  /**
    One character of a class range: any character but `-` and `]`, or `\`
    followed by any character. The text after it.
  */
  function ClassChar(b: string): (r: Option<string>)
    ensures r.Some? ==> |r.value| < |b|
  {
    if |b| == 0 || b[0] == '-' || b[0] == ']' then None
    else if b[0] == '\\' then (if |b| >= 2 then Some(b[2..]) else None)
    else Some(b[1..])
  }

  /**
    The ranges of a class (`lo` or `lo-hi`) and its closing `]`, when `n`
    ranges have been read already; the text after the class. As the
    documentation says, a class must be non-empty: `[]` is malformed.
  */
  function ClassTail(b: string, n: nat): (r: Option<string>)
    ensures r.Some? ==> |r.value| < |b|
    decreases |b|
  {
    if |b| > 0 && b[0] == ']' && n > 0 then Some(b[1..])
    else
      match ClassChar(b)
      case None => None
      case Some(t) =>
        if |t| > 0 && t[0] == '-' then
          match ClassChar(t[1..])
          case None => None
          case Some(u) => ClassTail(u, n + 1)
        else ClassTail(t, n + 1)
  }

  /** The ranges of the class that opens at `p[0]`, after an optional `^`. */
  function ClassBody(p: string): (b: string)
    requires |p| > 0
    ensures |b| < |p|
  {
    if |p| > 1 && p[1] == '^' then p[2..] else p[1..]
  }

  /**
    The syntax `filepath.Match` documents: a pattern is a sequence of terms,
    each `*`, `?`, a class `[` [`^`] ranges `]`, `\` followed by any
    character, or any other single character.
  */
  predicate WellFormed(p: string)
    decreases |p|
  {
    if |p| == 0 then true
    else if p[0] == '[' then
      match ClassTail(ClassBody(p), 0)
      case None => false
      case Some(t) => WellFormed(t)
    else if p[0] == '\\' then |p| >= 2 && WellFormed(p[2..])
    else WellFormed(p[1..])
  }

  // ---------------------------------------------------------------------
  // Errors depend on the pattern alone

  lemma {:induction false} ClassItemsShape(chunk: string, r1: char, r2: char, nrange: nat)
    ensures ClassItems(chunk, r1, nrange).Err? == ClassItems(chunk, r2, nrange).Err?
    ensures ClassItems(chunk, r1, nrange).Ok? ==>
              ClassItems(chunk, r1, nrange).value.1 == ClassItems(chunk, r2, nrange).value.1
    decreases |chunk|
  {
    if !(|chunk| > 0 && chunk[0] == ']' && nrange > 0) && GetEsc(chunk).Ok? {
      var low := GetEsc(chunk).value;
      if low.1[0] == '-' {
        if GetEsc(low.1[1..]).Ok? {
          ClassItemsShape(GetEsc(low.1[1..]).value.1, r1, r2, nrange + 1);
        }
      } else {
        ClassItemsShape(low.1, r1, r2, nrange + 1);
      }
    }
  }

  /** Whether a chunk is malformed does not depend on the text it is matched against. */
  lemma {:induction false} StepBadIndependent(chunk: string, s1: string, f1: bool, s2: string, f2: bool)
    ensures Step(chunk, s1, f1).BadChunk? == Step(chunk, s2, f2).BadChunk?
    decreases |chunk|
  {
    if |chunk| > 0 {
      var g1 := f1 || |s1| == 0;
      var g2 := f2 || |s2| == 0;
      if chunk[0] == '[' {
        var negated := |chunk| > 1 && chunk[1] == '^';
        var body := chunk[if negated then 2 else 1..];
        var r1 := if g1 then '\0' else s1[0];
        var r2 := if g2 then '\0' else s2[0];
        ClassItemsShape(body, r1, r2, 0);
        if ClassItems(body, r1, 0).Ok? {
          var c1 := ClassItems(body, r1, 0).value;
          var c2 := ClassItems(body, r2, 0).value;
          StepBadIndependent(c1.1, if g1 then s1 else s1[1..], g1 || c1.0 == negated,
                                   if g2 then s2 else s2[1..], g2 || c2.0 == negated);
        }
      } else if chunk[0] == '?' {
        StepBadIndependent(chunk[1..], if g1 then s1 else s1[1..], g1 || s1[0] == Separator,
                                       if g2 then s2 else s2[1..], g2 || s2[0] == Separator);
      } else if !(chunk[0] == '\\' && |chunk| == 1) {
        var k := if chunk[0] == '\\' then 1 else 0;
        StepBadIndependent(chunk[k + 1..], if g1 then s1 else s1[1..], g1 || chunk[k] != s1[0],
                                           if g2 then s2 else s2[1..], g2 || chunk[k] != s2[0]);
      }
    }
  }

  // ---------------------------------------------------------------------
  // The syntax, chunk by chunk

  /** `scanChunk`'s position, counted from a later starting point. */
  lemma {:induction false} ChunkEndShift(x: string, m: nat, i: nat, inr: bool)
    requires m + i <= |x|
    ensures ChunkEnd(x, m + i, inr) == m + ChunkEnd(x[m..], i, inr)
    decreases |x| - m - i
  {
    var y := x[m..];
    if m + i < |x| {
      assert y[i] == x[m + i];
      assert Width(y, i) == Width(x, m + i);
      if !(x[m + i] == '*' && !inr) {
        ChunkEndShift(x, m, i + Width(y, i), InRange(y[i], inr));
      }
    }
  }



  /** Inside a class the scan never stops at once, so it stops at 0 only on empty text. */
  lemma ChunkEndInRange(x: string)
    requires ChunkEnd(x, 0, true) == 0
    ensures x == []
  {
  }

  /**
    A class character read from a cut chunk reads the same with the rest of
    the pattern after it, and the scan is still inside the class after it.
  */
  lemma ClassCharCut(b: string, rest: string)
    requires ChunkEnd(b + rest, 0, true) == |b|
    ensures ClassChar(b).None? ==> ClassChar(b + rest).None?
    ensures ClassChar(b).Some? ==>
              ClassChar(b + rest) == Some(ClassChar(b).value + rest) &&
              ChunkEnd(ClassChar(b).value + rest, 0, true) == |ClassChar(b).value|
  {
    if |b| == 0 {
      ChunkEndInRange(rest);
    } else {
      var x := b + rest;
      assert x[0] == b[0];
      var k := if b[0] == '\\' then 2 else 1;
      if ClassChar(b).Some? {
        assert ChunkEnd(x, 0, true) == ChunkEnd(x, k, true);
        ChunkEndShift(x, k, 0, true);
        assert x[k..] == b[k..] + rest;
      }
    }
  }

  /**
    The ranges and closing `]` of a class in a cut chunk read the same with
    the rest of the pattern after them, and the scan is outside a class
    after them.
  */
  lemma {:induction false} ClassTailCut(b: string, rest: string, n: nat)
    requires ChunkEnd(b + rest, 0, true) == |b|
    ensures ClassTail(b, n).None? ==> ClassTail(b + rest, n).None?
    ensures ClassTail(b, n).Some? ==>
              ClassTail(b + rest, n) == Some(ClassTail(b, n).value + rest) &&
              ChunkEnd(ClassTail(b, n).value + rest, 0, false) == |ClassTail(b, n).value|
    decreases |b|
  {
    var x := b + rest;
    if |b| == 0 {
      ChunkEndInRange(rest);
      assert x == b;
    } else if b[0] == ']' && n > 0 {
      assert x[0] == ']';
      assert ChunkEnd(x, 0, true) == ChunkEnd(x, 1, false);
      ChunkEndShift(x, 1, 0, false);
      assert x[1..] == b[1..] + rest;
    } else {
      assert x[0] == b[0];
      ClassCharCut(b, rest);
      if ClassChar(b).Some? {
        var t := ClassChar(b).value;
        if |t| == 0 {
          ChunkEndInRange(rest);
          assert t + rest == t;
        } else {
          var y := t + rest;
          assert y[0] == t[0];
          if t[0] == '-' {
            assert ChunkEnd(y, 0, true) == ChunkEnd(y, 1, true);
            ChunkEndShift(y, 1, 0, true);
            assert y[1..] == t[1..] + rest;
            ClassCharCut(t[1..], rest);
            if ClassChar(t[1..]).Some? {
              ClassTailCut(ClassChar(t[1..]).value, rest, n + 1);
            }
          } else {
            ClassTailCut(t, rest, n + 1);
          }
        }
      }
    }
  }

  /** `getEsc` reads what `ClassChar` reads, except that it also wants text after it. */
  lemma GetEscClassChar(b: string)
    ensures GetEsc(b).Ok? ==> ClassChar(b) == Some(GetEsc(b).value.1)
    ensures GetEsc(b).Err? ==> ClassChar(b) == None || ClassChar(b) == Some([])
  {
  }

  /** The class loop of `matchChunk` accepts exactly the class syntax, and ends where it does. */
  lemma {:induction false} ClassItemsTail(b: string, r: char, n: nat)
    ensures ClassItems(b, r, n).Ok? == ClassTail(b, n).Some?
    ensures ClassItems(b, r, n).Ok? ==> ClassItems(b, r, n).value.1 == ClassTail(b, n).value
    decreases |b|
  {
    if !(|b| > 0 && b[0] == ']' && n > 0) {
      GetEscClassChar(b);
      if GetEsc(b).Ok? {
        var low := GetEsc(b).value;
        if low.1[0] == '-' {
          GetEscClassChar(low.1[1..]);
          if GetEsc(low.1[1..]).Ok? {
            ClassItemsTail(GetEsc(low.1[1..]).value.1, r, n + 1);
          } else {
            assert ClassTail([], n + 1).None?;
          }
        } else {
          ClassItemsTail(low.1, r, n + 1);
        }
      } else {
        assert ClassTail([], n + 1).None?;
      }
    }
  }

  /**
    A chunk that `scanChunk` cut from the front of `c + rest` is free of
    syntax errors exactly when `matchChunk` finds none in it.
  */
  lemma {:induction false} StepCut(c: string, rest: string)
    requires ChunkEnd(c + rest, 0, false) == |c|
    ensures WellFormed(c + rest) == (!Step(c, [], true).BadChunk? && WellFormed(rest))
    decreases |c|
  {
    if |c| == 0 {
      assert c + rest == rest;
    } else if c[0] == '[' {
      StepCutClass(c, rest);
      if ClassTail(ClassBody(c), 0).Some? {
        StepCut(ClassTail(ClassBody(c), 0).value, rest);
      }
    } else if !(c[0] == '\\' && |c| == 1) {
      var k := if c[0] == '\\' then 2 else 1;
      StepCutPlain(c, rest, k);
      StepCut(c[k..], rest);
    } else {
      assert (c + rest)[0] == c[0];
    }
  }

  /** A class at the front of a cut chunk: `matchChunk` and the syntax both read it with `ClassTail`. */
  lemma StepCutClass(c: string, rest: string)
    requires |c| > 0 && c[0] == '[' && ChunkEnd(c + rest, 0, false) == |c|
    ensures ClassTail(ClassBody(c), 0).None? ==> Step(c, [], true).BadChunk? && !WellFormed(c + rest)
    ensures ClassTail(ClassBody(c), 0).Some? ==>
              var t := ClassTail(ClassBody(c), 0).value;
              Step(c, [], true) == Step(t, [], true) && WellFormed(c + rest) == WellFormed(t + rest) &&
              ChunkEnd(t + rest, 0, false) == |t|
  {
    var x := c + rest;
    assert x[0] == c[0];
    var k := if |c| > 1 && c[1] == '^' then 2 else 1;
    var body := c[k..];
    assert ClassBody(x) == body + rest;
    assert ChunkEnd(x, 0, false) == ChunkEnd(x, k, true);
    ChunkEndShift(x, k, 0, true);
    assert x[k..] == body + rest;
    ClassItemsTail(body, '\0', 0);
    ClassTailCut(body, rest, 0);
  }

  /** Any other term at the front of a cut chunk: both step over the same one or two characters. */
  lemma StepCutPlain(c: string, rest: string, k: nat)
    requires |c| > 0 && c[0] != '[' && !(c[0] == '\\' && |c| == 1)
    requires k == if c[0] == '\\' then 2 else 1
    requires ChunkEnd(c + rest, 0, false) == |c|
    ensures k <= |c| && Step(c, [], true) == Step(c[k..], [], true)
    ensures WellFormed(c + rest) == WellFormed(c[k..] + rest)
    ensures ChunkEnd(c[k..] + rest, 0, false) == |c[k..]|
  {
    var x := c + rest;
    assert x[0] == c[0];
    assert x[k..] == c[k..] + rest;
    ChunkEndPlain(x, k);
    ChunkEndShift(x, k, 0, false);
  }

  /** Outside a class, `scanChunk` steps over a character or an escape pair the same way. */
  lemma ChunkEndPlain(x: string, k: nat)
    requires |x| > 0 && x[0] != '[' && x[0] != '*'
    requires k == if x[0] == '\\' && |x| > 1 then 2 else 1
    ensures ChunkEnd(x, 0, false) == ChunkEnd(x, k, false)
  {
  }



  /** The leading stars of a pattern are terms of their own. */
  lemma {:induction false} LeadingStarsWellFormed(p: string)
    ensures WellFormed(p) == WellFormed(p[LeadingStars(p)..])
    decreases |p|
  {
    if |p| > 0 && p[0] == '*' {
      LeadingStarsWellFormed(p[1..]);
      assert p[1..][LeadingStars(p[1..])..] == p[LeadingStars(p)..];
    }
  }

  /**
    A pattern is well-formed exactly when its first chunk is, as
    `matchChunk` sees it, and so is the pattern after that chunk.
  */
  lemma WellFormedChunks(p: string)
    requires |p| > 0
    ensures WellFormed(p) == (!MatchChunk(ScanChunk(p).chunk, []).BadChunk? && WellFormed(ScanChunk(p).rest))
  {
    var k := LeadingStars(p);
    var q := p[k..];
    var j := ChunkEnd(q, 0, false);
    var sc := ScanChunk(p);
    assert sc.chunk == q[..j] && sc.rest == q[j..];
    assert sc.chunk + sc.rest == q;
    LeadingStarsWellFormed(p);
    StepCut(sc.chunk, sc.rest);
    StepBadIndependent(sc.chunk, [], false, [], true);
  }

  /** The final loop of `Match` accepts exactly the well-formed patterns. */
  lemma {:induction false} ValidateWellFormed(p: string)
    ensures Validate(p) == if WellFormed(p) then Ok(false) else Err(ErrBadPattern)
    decreases |p|
  {
    if |p| > 0 {
      WellFormedChunks(p);
      ValidateWellFormed(ScanChunk(p).rest);
    }
  }

  /** The star loop only fails on a malformed chunk. */
  lemma {:induction false} StarLoopBad(chunk: string, last: bool, name: string, i: nat)
    ensures StarLoop(chunk, last, name, i).SkipBad? ==> MatchChunk(chunk, []).BadChunk?
    decreases |name| - i
  {
    if i < |name| && name[i] != Separator {
      StepBadIndependent(chunk, name[i + 1..], false, [], false);
      StarLoopBad(chunk, last, name, i + 1);
    }
  }

  /**
    `Match` reports an error exactly when the pattern is malformed, and then
    for every name alike.
  */
  lemma {:induction false} MatchErrorIffMalformed(pattern: string, name: string)
    ensures Match(pattern, name).Err? <==> !WellFormed(pattern)
    decreases |pattern|
  {
    if |pattern| > 0 {
      var sc := ScanChunk(pattern);
      WellFormedChunks(pattern);
      if !(sc.star && sc.chunk == []) {
        var here := MatchChunk(sc.chunk, name);
        StepBadIndependent(sc.chunk, name, false, [], false);
        ValidateWellFormed(sc.rest);
        if here.Matched? && (|here.rest| == 0 || |sc.rest| > 0) {
          MatchErrorIffMalformed(sc.rest, here.rest);
        } else if !here.BadChunk? && sc.star {
          StarLoopBad(sc.chunk, |sc.rest| == 0, name, 0);
          var loop := StarLoop(sc.chunk, |sc.rest| == 0, name, 0);
          if loop.Skip? {
            MatchErrorIffMalformed(sc.rest, loop.rest);
          }
        }
      }
    }
  }

  /** So the construction-time probe `Match(p, "")` decides errors for every later match. */
  lemma MatchErrorIndependent(pattern: string, name: string)
    ensures Match(pattern, name).Err? == Match(pattern, []).Err?
  {
    MatchErrorIffMalformed(pattern, name);
    MatchErrorIffMalformed(pattern, []);
  }

  // ---------------------------------------------------------------------
  // Declarative meaning of patterns made of literals, `?` and `*`

  /** No class and no escape. */
  predicate Simple(p: string)
  {
    forall i :: 0 <= i < |p| ==> p[i] != '[' && p[i] != '\\'
  }

  predicate NoSeparator(s: string)
  {
    forall i :: 0 <= i < |s| ==> s[i] != Separator
  }

  /** `*` matches any run of non-separators, `?` one non-separator, anything else itself. */
  predicate Matches(p: string, n: string)
    decreases |p| + |n|
  {
    if |p| == 0 then |n| == 0
    else if p[0] == '*' then Matches(p[1..], n) || (|n| > 0 && n[0] != Separator && Matches(p, n[1..]))
    else if p[0] == '?' then |n| > 0 && n[0] != Separator && Matches(p[1..], n[1..])
    else |n| > 0 && n[0] == p[0] && Matches(p[1..], n[1..])
  }

  /** One pattern character against one name character. */
  predicate CharFits(pc: char, x: char)
  {
    if pc == '?' then x != Separator else x == pc
  }

  /** A star-free chunk fits the front of `s`. */
  predicate Fits(c: string, s: string)
  {
    |c| <= |s| && forall k :: 0 <= k < |c| ==> CharFits(c[k], s[k])
  }

  predicate StarFree(c: string)
  {
    forall i :: 0 <= i < |c| ==> c[i] != '*'
  }

  /** A simple star-free chunk matches exactly where it fits, and never as malformed. */
  lemma {:induction false} StepSimple(c: string, s: string, failed: bool)
    requires Simple(c) && StarFree(c)
    ensures Step(c, s, failed) == if !failed && Fits(c, s) then Matched(s[|c|..]) else Failed
    decreases |c|
  {
    if |c| > 0 {
      assert c[0] != '[' && c[0] != '\\' && c[0] != '*';
      var c' := c[1..];
      assert Simple(c') && StarFree(c') by {
        forall i | 0 <= i < |c'| ensures c'[i] != '[' && c'[i] != '\\' && c'[i] != '*' {
          assert c'[i] == c[i + 1];
        }
      }
      if failed || |s| == 0 {
        StepSimple(c', s, true);
      } else {
        var f := if c[0] == '?' then s[0] == Separator else c[0] != s[0];
        assert f == !CharFits(c[0], s[0]);
        StepSimple(c', s[1..], f);
        if !f {
          assert Fits(c, s) <==> Fits(c', s[1..]) by {
            if Fits(c', s[1..]) {
              forall k | 0 <= k < |c| ensures CharFits(c[k], s[k]) {
                if k > 0 {
                  assert CharFits(c'[k - 1], s[1..][k - 1]);
                }
              }
            }
            if Fits(c, s) {
              forall k | 0 <= k < |c'| ensures CharFits(c'[k], s[1..][k]) {
                assert CharFits(c[k + 1], s[k + 1]);
              }
            }
          }
          if Fits(c, s) {
            assert s[1..][|c'|..] == s[|c|..];
          }
        } else {
          assert !Fits(c, s) by {
            assert !CharFits(c[0], s[0]);
          }
        }
      }
    }
  }

  lemma SimpleSuffix(p: string, k: nat)
    requires Simple(p) && k <= |p|
    ensures Simple(p[k..])
  {
    forall i | 0 <= i < |p[k..]| ensures p[k..][i] != '[' && p[k..][i] != '\\' {
      assert p[k..][i] == p[k + i];
    }
  }

  /** In a simple pattern a chunk runs to the next star. */
  lemma {:induction false} ChunkEndSimple(p: string, i: nat)
    requires i <= |p| && Simple(p)
    ensures StarFree(p[i..ChunkEnd(p, i, false)])
    decreases |p| - i
  {
    if i < |p| {
      assert p[i] != '[' && p[i] != '\\';
      if p[i] != '*' {
        ChunkEndSimple(p, i + 1);
        var j := ChunkEnd(p, i, false);
        assert j == ChunkEnd(p, i + 1, false);
        forall x | 0 <= x < |p[i..j]| ensures p[i..j][x] != '*' {
          if x > 0 {
            assert p[i..j][x] == p[i + 1..j][x - 1];
          }
        }
      }
    }
  }

  /** The pieces of a scanned simple pattern. */
  lemma ScanSimple(p: string)
    requires Simple(p)
    ensures var sc := ScanChunk(p);
            Simple(sc.chunk) && StarFree(sc.chunk) && Simple(sc.rest)
  {
    var k := LeadingStars(p);
    var q := p[k..];
    SimpleSuffix(p, k);
    ChunkEndSimple(q, 0);
    var j := ChunkEnd(q, 0, false);
    assert q[0..j] == q[..j];
    SimpleSuffix(q, j);
    forall i | 0 <= i < j ensures q[..j][i] != '[' && q[..j][i] != '\\' {
      assert q[..j][i] == q[i];
    }
  }

  /** A simple pattern is well-formed. */
  lemma {:induction false} SimpleWellFormed(p: string)
    requires Simple(p)
    ensures WellFormed(p)
    decreases |p|
  {
    if |p| > 0 {
      SimpleSuffix(p, 1);
      SimpleWellFormed(p[1..]);
    }
  }

  /** A star-free chunk at the front of a pattern consumes exactly what it fits. */
  lemma {:induction false} GlobChunk(c: string, r: string, n: string)
    requires StarFree(c)
    ensures Matches(c + r, n) == (Fits(c, n) && Matches(r, n[|c|..]))
    decreases |c|
  {
    if |c| > 0 {
      var c' := c[1..];
      assert (c + r)[1..] == c' + r;
      assert StarFree(c') by {
        forall i | 0 <= i < |c'| ensures c'[i] != '*' {
          assert c'[i] == c[i + 1];
        }
      }
      assert c[0] != '*';
      if |n| > 0 {
        GlobChunk(c', r, n[1..]);
        if |c| <= |n| {
          assert n[1..][|c'|..] == n[|c|..];
        }
        if CharFits(c[0], n[0]) {
          assert Fits(c, n) <==> Fits(c', n[1..]) by {
            if Fits(c', n[1..]) {
              forall k | 0 <= k < |c| ensures CharFits(c[k], n[k]) {
                if k > 0 {
                  assert CharFits(c'[k - 1], n[1..][k - 1]);
                }
              }
            }
            if Fits(c, n) {
              forall k | 0 <= k < |c'| ensures CharFits(c'[k], n[1..][k]) {
                assert CharFits(c[k + 1], n[k + 1]);
              }
            }
          }
        }
      }
    } else {
      assert c + r == r;
    }
  }

  /** A star may be widened over any run of non-separators in front of the name. */
  lemma {:induction false} StarAbsorbs(p: string, w: string, y: string)
    requires |p| > 0 && p[0] == '*' && NoSeparator(w) && Matches(p, y)
    ensures Matches(p, w + y)
    decreases |w|
  {
    if |w| > 0 {
      assert NoSeparator(w[1..]) by {
        forall i | 0 <= i < |w[1..]| ensures w[1..][i] != Separator {
          assert w[1..][i] == w[i + 1];
        }
      }
      StarAbsorbs(p, w[1..], y);
      assert (w + y)[1..] == w[1..] + y;
      assert (w + y)[0] == w[0];
    } else {
      assert w + y == y;
    }
  }

  /** A star matches a separator-free front of the name, then the rest of the pattern the remainder. */
  lemma {:induction false} StarWitness(p: string, n: string) returns (i: nat)
    requires |p| > 0 && p[0] == '*' && Matches(p, n)
    ensures i <= |n| && NoSeparator(n[..i]) && Matches(p[1..], n[i..])
    decreases |n|
  {
    if Matches(p[1..], n) {
      i := 0;
      assert n[0..] == n;
    } else {
      var j := StarWitness(p, n[1..]);
      i := j + 1;
      assert n[i..] == n[1..][j..];
      forall x | 0 <= x < i ensures n[..i][x] != Separator {
        if x > 0 {
          assert n[..i][x] == n[1..][..j][x - 1];
        }
      }
    }
  }

  /** Two stars in a row mean no more than one. */
  lemma {:induction false} StarStar(p: string, n: string)
    requires |p| > 1 && p[0] == '*' && p[1] == '*'
    ensures Matches(p, n) == Matches(p[1..], n)
    decreases |n|
  {
    assert p[1..][1..] == p[2..];
    if |n| > 0 {
      StarStar(p, n[1..]);
    }
  }

  /** A run of stars means one star. */
  lemma {:induction false} LeadingStarsCollapse(p: string, n: string)
    requires LeadingStars(p) > 0
    ensures Matches(p, n) == Matches(p[LeadingStars(p) - 1..], n)
    decreases |p|
  {
    if LeadingStars(p) > 1 {
      StarStar(p, n);
      assert LeadingStars(p[1..]) == LeadingStars(p) - 1;
      LeadingStarsCollapse(p[1..], n);
      assert p[1..][LeadingStars(p) - 2..] == p[LeadingStars(p) - 1..];
    }
  }

  /** A lone star matches exactly the names without a separator. */
  lemma {:induction false} GlobStar(n: string)
    ensures Matches("*", n) == (Separator !in n)
    decreases |n|
  {
    var p := "*";
    assert p[1..] == [];
    if |n| > 0 {
      GlobStar(n[1..]);
      assert n == [n[0]] + n[1..];
    }
  }

  /** The candidate positions a star may skip to: the chunk fits there, and the last chunk ends the name. */
  predicate Good(c: string, last: bool, n: string, j: nat)
  {
    j <= |n| && NoSeparator(n[..j]) && Fits(c, n[j..]) && (!last || j + |c| == |n|)
  }

  /** The star loop picks the first good position after i, and reports none when there is none. */
  lemma {:induction false} StarLoopFirst(c: string, last: bool, n: string, i: nat) returns (j: nat)
    requires Simple(c) && StarFree(c) && i <= |n| && NoSeparator(n[..i])
    ensures !StarLoop(c, last, n, i).SkipBad?
    ensures StarLoop(c, last, n, i).NoSkip? ==> forall x :: i < x <= |n| ==> !Good(c, last, n, x)
    ensures StarLoop(c, last, n, i).Skip? ==>
              i < j <= |n| && Good(c, last, n, j) && StarLoop(c, last, n, i).rest == n[j + |c|..] &&
              forall x :: i < x < j ==> !Good(c, last, n, x)
    decreases |n| - i
  {
    j := 0;
    if i >= |n| || n[i] == Separator {
      NoGoodPastSeparator(c, last, n, i);
    } else {
      NoSeparatorExtend(n, i);
      StepSimple(c, n[i + 1..], false);
      var here := MatchChunk(c, n[i + 1..]);
      if here.Matched? && !(last && |here.rest| > 0) {
        j := i + 1;
        assert n[i + 1..][|c|..] == n[j + |c|..];
      } else {
        assert !Good(c, last, n, i + 1);
        j := StarLoopFirst(c, last, n, i + 1);
      }
    }
  }

  /** No position after a separator (or after the end) is good for a star. */
  lemma NoGoodPastSeparator(c: string, last: bool, n: string, i: nat)
    requires i >= |n| || n[i] == Separator
    ensures forall x :: i < x <= |n| ==> !Good(c, last, n, x)
  {
    forall x | i < x <= |n| ensures !Good(c, last, n, x) {
      assert n[..x][i] == n[i];
    }
  }

  /** A separator-free prefix grows by one separator-free character. */
  lemma NoSeparatorExtend(n: string, i: nat)
    requires i < |n| && n[i] != Separator && NoSeparator(n[..i])
    ensures NoSeparator(n[..i + 1])
  {
    var m := n[..i + 1];
    forall x | 0 <= x < |m| ensures m[x] != Separator {
      if x < i {
        assert m[x] == n[..i][x];
      }
    }
  }

  /** Where a chunk fits after a star, every earlier place it also fits is separator-free to its end. */
  lemma {:induction false} ChunkHasNoSlash(c: string, n: string, j: nat, i: nat, m: nat)
    requires j < i && m < |c| && Good(c, false, n, j) && Good(c, false, n, i)
    ensures c[m] != Separator
    decreases m
  {
    assert CharFits(c[m], n[j..][m]);
    assert n[j..][m] == n[j + m];
    if j + m < i {
      assert n[..i][j + m] == n[j + m];
    } else {
      var m' := j + m - i;
      ChunkHasNoSlash(c, n, j, i, m');
      assert CharFits(c[m'], n[i..][m']);
      assert n[i..][m'] == n[j + m];
    }
  }

  /**
    The heart of the greedy star: if the chunk fits at j and at a later i,
    everything from the end of the first fit to the end of the second is free
    of separators, so the next star can absorb it.
  */
  lemma Overlap(c: string, n: string, j: nat, i: nat)
    requires j < i && Good(c, false, n, j) && Good(c, false, n, i)
    ensures NoSeparator(n[j + |c|..i + |c|])
  {
    forall x | j + |c| <= x < i + |c| ensures n[x] != Separator {
      if x < i {
        assert n[..i][x] == n[x];
      } else {
        ChunkHasNoSlash(c, n, j, i, x - i);
        assert CharFits(c[x - i], n[i..][x - i]);
        assert n[i..][x - i] == n[x];
      }
    }
    var m := n[j + |c|..i + |c|];
    forall x | 0 <= x < |m| ensures m[x] != Separator {
      assert m[x] == n[j + |c| + x];
    }
  }

  /** What a pattern starting with one star followed by a chunk means, position by position. */
  lemma GlobStarChunk(p: string, c: string, r: string, n: string, i: nat)
    requires |p| > 0 && p[0] == '*' && p[1..] == c + r && StarFree(c)
    requires Good(c, false, n, i) && Matches(r, n[i + |c|..])
    ensures Matches(p, n)
  {
    GlobChunk(c, r, n[i..]);
    assert n[i..][|c|..] == n[i + |c|..];
    assert Matches(p, n[i..]);
    StarAbsorbs(p, n[..i], n[i..]);
    assert n[..i] + n[i..] == n;
  }

  /** The converse: a match of the star-and-chunk pattern has a good position for the chunk. */
  lemma GlobStarChunkWitness(p: string, c: string, r: string, n: string) returns (i: nat)
    requires |p| > 0 && p[0] == '*' && p[1..] == c + r && StarFree(c) && Matches(p, n)
    ensures Good(c, false, n, i) && Matches(r, n[i + |c|..])
    ensures Good(c, |r| == 0, n, i)
  {
    i := StarWitness(p, n);
    GlobChunk(c, r, n[i..]);
    assert n[i..][|c|..] == n[i + |c|..];
  }

  /** The greedy choice: a later good position that works makes the first good one work too. */
  lemma GreedyEnough(p: string, c: string, r: string, n: string, j: nat, i: nat)
    requires |r| > 0 && r[0] == '*' && j <= i
    requires Good(c, false, n, j) && Good(c, false, n, i) && Matches(r, n[i + |c|..])
    ensures Matches(r, n[j + |c|..])
  {
    if j < i {
      Overlap(c, n, j, i);
      StarAbsorbs(r, n[j + |c|..i + |c|], n[i + |c|..]);
      assert n[j + |c|..i + |c|] + n[i + |c|..] == n[j + |c|..];
    }
  }

  /** `Match` on a chunk after stars, spelled out: the chunk in place, else the star loop. */
  lemma MatchAfterStars(p: string, c: string, r: string, last: bool, n: string)
    requires |p| > 0 && ScanChunk(p) == Scanned(true, c, r) && c != [] && last == (|r| == 0)
    ensures var here := MatchChunk(c, n);
            var loop := StarLoop(c, last, n, 0);
            Match(p, n) ==
              if here.Matched? && (|here.rest| == 0 || |r| > 0) then Match(r, here.rest)
              else if here.BadChunk? then Err(ErrBadPattern)
              else if loop.Skip? then Match(r, loop.rest)
              else if loop.SkipBad? then Err(ErrBadPattern)
              else Validate(r)
  {
  }

  /** With a first good position j, the star-and-chunk pattern means what the rest means after it. */
  lemma StarGlobFound(q: string, c: string, r: string, last: bool, n: string, j: nat)
    requires |q| > 0 && q[0] == '*' && q[1..] == c + r && StarFree(c)
    requires (r == [] || r[0] == '*') && last == (|r| == 0)
    requires Good(c, last, n, j) && j + |c| <= |n|
    requires forall x :: 0 <= x < j ==> !Good(c, last, n, x)
    ensures Matches(q, n) == Matches(r, n[j + |c|..])
  {
    assert Good(c, false, n, j);
    if last {
      assert n[j + |c|..] == [];
      GlobStarChunk(q, c, r, n, j);
    } else if Matches(r, n[j + |c|..]) {
      GlobStarChunk(q, c, r, n, j);
    } else if Matches(q, n) {
      var i := GlobStarChunkWitness(q, c, r, n);
      GreedyEnough(q, c, r, n, j, i);
    }
  }

  /** Without a good position, the star-and-chunk pattern does not match. */
  lemma StarGlobNone(q: string, c: string, r: string, last: bool, n: string)
    requires |q| > 0 && q[0] == '*' && q[1..] == c + r && StarFree(c) && last == (|r| == 0)
    requires forall x :: 0 <= x <= |n| ==> !Good(c, last, n, x)
    ensures !Matches(q, n)
  {
    if Matches(q, n) {
      var i := GlobStarChunkWitness(q, c, r, n);
      assert false;
    }
  }

  /** A chunk after stars that fits in place: `Match` goes on right there. */
  lemma StarHere(p: string, q: string, c: string, r: string, last: bool, n: string)
    requires Simple(p) && |p| > 0
    requires ScanChunk(p) == Scanned(true, c, r) && c != [] && last == (|r| == 0)
    requires |q| > 0 && q[0] == '*' && q[1..] == c + r
    requires forall t :: Match(r, t) == Ok(Matches(r, t))
    requires Good(c, last, n, 0)
    ensures Match(p, n) == Ok(Matches(q, n))
  {
    ScanSimple(p);
    StepSimple(c, n, false);
    MatchAfterStars(p, c, r, last, n);
    assert n[0..] == n;
    assert MatchChunk(c, n) == Matched(n[0 + |c|..]);
    StarGlobFound(q, c, r, last, n, 0);
  }

  /** A chunk after stars that does not fit in place: `Match` goes on at the first good position, if any. */
  lemma StarSkips(p: string, q: string, c: string, r: string, last: bool, n: string)
    requires Simple(p) && |p| > 0
    requires ScanChunk(p) == Scanned(true, c, r) && c != [] && last == (|r| == 0)
    requires |q| > 0 && q[0] == '*' && q[1..] == c + r
    requires forall t :: Match(r, t) == Ok(Matches(r, t))
    requires !Good(c, last, n, 0)
    ensures Match(p, n) == Ok(Matches(q, n))
  {
    ScanSimple(p);
    StepSimple(c, n, false);
    MatchAfterStars(p, c, r, last, n);
    assert n[..0] == [] && n[0..] == n;
    var loop := StarLoop(c, last, n, 0);
    var j := StarLoopFirst(c, last, n, 0);
    if loop.Skip? {
      StarGlobFound(q, c, r, last, n, j);
    } else {
      SimpleWellFormed(r);
      ValidateWellFormed(r);
      StarGlobNone(q, c, r, last, n);
    }
  }

  /** The chunk-after-star step of `Match` decides `Matches` (given the recursive call does). */
  lemma StarCase(p: string, n: string)
    requires Simple(p) && |p| > 0
    requires var sc := ScanChunk(p); sc.star && sc.chunk != []
    requires forall t :: Match(ScanChunk(p).rest, t) == Ok(Matches(ScanChunk(p).rest, t))
    ensures Match(p, n) == Ok(Matches(p, n))
  {
    var sc := ScanChunk(p);
    var k := LeadingStars(p);
    var q := p[k - 1..];
    assert q[1..] == sc.chunk + sc.rest;
    LeadingStarsCollapse(p, n);
    var last := |sc.rest| == 0;
    if Good(sc.chunk, last, n, 0) {
      StarHere(p, q, sc.chunk, sc.rest, last, n);
    } else {
      StarSkips(p, q, sc.chunk, sc.rest, last, n);
    }
  }

  /** The chunk-without-star step of `Match` decides `Matches` (given the recursive call does). */
  lemma PlainCase(p: string, n: string)
    requires Simple(p) && |p| > 0 && !ScanChunk(p).star
    requires forall t :: Match(ScanChunk(p).rest, t) == Ok(Matches(ScanChunk(p).rest, t))
    ensures Match(p, n) == Ok(Matches(p, n))
  {
    var sc := ScanChunk(p);
    ScanSimple(p);
    assert p == sc.chunk + sc.rest;
    StepSimple(sc.chunk, n, false);
    GlobChunk(sc.chunk, sc.rest, n);
    SimpleWellFormed(sc.rest);
    ValidateWellFormed(sc.rest);
  }

  /**
    For patterns of literals, `?` and `*`, the library algorithm computes
    exactly `Matches`: its one-way, first-fit handling of each star loses no
    match, and it never reports an error.
  */
  lemma {:induction false} MatchSimple(p: string, n: string)
    requires Simple(p)
    ensures Match(p, n) == Ok(Matches(p, n))
    decreases |p|
  {
    if |p| > 0 {
      var sc := ScanChunk(p);
      ScanSimple(p);
      forall t ensures Match(sc.rest, t) == Ok(Matches(sc.rest, t)) {
        MatchSimple(sc.rest, t);
      }
      if sc.star && sc.chunk == [] {
        var k := LeadingStars(p);
        assert p[k - 1..] == "*";
        LeadingStarsCollapse(p, n);
        GlobStar(n);
      } else if sc.star {
        StarCase(p, n);
      } else {
        PlainCase(p, n);
      }
    }
  }
}
