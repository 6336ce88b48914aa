/**
  The two helpers of Go's `strings` package that the ignore engine relies on:
  `strings.Split` with a one-character separator, and its inverse, joining a
  list of parts with that separator (`strings.Join`).

  Both are defined from the END of the string (the last separator), which is
  also how `filepath.Dir` looks at a path.
*/
module Strings {

  /** Index of the last occurrence of `c` in `s`, or -1 when there is none. */
  function LastIndexOf(s: string, c: char): (i: int)
    ensures -1 <= i < |s|
    ensures i >= 0 ==> s[i] == c
    ensures forall j :: i < j < |s| ==> s[j] != c
  {
    if |s| == 0 then -1
    else if s[|s| - 1] == c then |s| - 1
    else LastIndexOf(s[..|s| - 1], c)
  }

  /** Number of occurrences of `c` in `s`. */
  function Count(s: string, c: char): nat
  {
    if |s| == 0 then 0
    else Count(s[..|s| - 1], c) + (if s[|s| - 1] == c then 1 else 0)
  }

  /**
    `strings.Split(s, string(c))`: the maximal pieces of `s` between
    occurrences of `c`. The empty string splits into one empty piece.
  */
  function Split(s: string, c: char): (parts: seq<string>)
    ensures |parts| >= 1
    ensures forall k :: 0 <= k < |parts| ==> c !in parts[k]
    decreases |s|
  {
    var i := LastIndexOf(s, c);
    if i < 0 then [s] else Split(s[..i], c) + [After(s, i)]
  }

  /** The part of `s` after position `i`. */
  function After(s: string, i: nat): string
    requires i < |s|
  {
    s[i + 1..]
  }

  /** `strings.Join(parts, string(c))`. */
  function JoinWith(parts: seq<string>, c: char): string
  {
    if |parts| == 0 then ""
    else if |parts| == 1 then parts[0]
    else JoinWith(parts[..|parts| - 1], c) + [c] + parts[|parts| - 1]
  }

  /** No piece of `parts` contains the separator. */
  predicate SeparatorFree(parts: seq<string>, c: char)
  {
    forall k :: 0 <= k < |parts| ==> c !in parts[k]
  }

  lemma LastIndexOfAt(x: string, c: char, y: string)
    requires c !in y
    ensures LastIndexOf(x + [c] + y, c) == |x|
  {
    var s := x + [c] + y;
    var i := LastIndexOf(s, c);
    assert s[|x|] == c;
    assert i <= |x| by {
      if i > |x| {
        assert false;
      }
    }
  }

  /** Joining the pieces of a split gives back the original string. */
  lemma {:induction false} JoinSplit(s: string, c: char)
    ensures JoinWith(Split(s, c), c) == s
    decreases |s|
  {
    var i := LastIndexOf(s, c);
    if i >= 0 {
      var init := Split(s[..i], c);
      JoinSplit(s[..i], c);
      var parts := init + [s[i + 1..]];
      assert parts[..|parts| - 1] == init;
      assert s == s[..i] + [c] + s[i + 1..];
    }
  }

  /** Splitting a join of separator-free pieces gives back the pieces. */
  lemma {:induction false} SplitJoin(parts: seq<string>, c: char)
    requires |parts| >= 1
    requires SeparatorFree(parts, c)
    ensures Split(JoinWith(parts, c), c) == parts
    decreases |parts|
  {
    if |parts| >= 2 {
      var init := parts[..|parts| - 1];
      var last := parts[|parts| - 1];
      SplitJoin(init, c);
      LastIndexOfAt(JoinWith(init, c), c, last);
      var s := JoinWith(parts, c);
      assert s[..|JoinWith(init, c)|] == JoinWith(init, c);
      assert s[|JoinWith(init, c)| + 1..] == last;
      assert init + [last] == parts;
    } else {
      assert c !in parts[0];
    }
  }

  lemma {:induction false} CountAppend(x: string, y: string, c: char)
    ensures Count(x + y, c) == Count(x, c) + Count(y, c)
    decreases |y|
  {
    if |y| > 0 {
      assert (x + y)[..|x + y| - 1] == x + y[..|y| - 1];
      CountAppend(x, y[..|y| - 1], c);
    } else {
      assert x + y == x;
    }
  }

  lemma {:induction false} CountAbsent(s: string, c: char)
    requires c !in s
    ensures Count(s, c) == 0
    decreases |s|
  {
    if |s| > 0 {
      CountAbsent(s[..|s| - 1], c);
    }
  }

  /** A split has one more piece than the string has separators. */
  lemma {:induction false} SplitCount(s: string, c: char)
    ensures |Split(s, c)| == Count(s, c) + 1
    decreases |s|
  {
    var i := LastIndexOf(s, c);
    if i < 0 {
      CountAbsent(s, c);
    } else {
      SplitCount(s[..i], c);
      assert s == s[..i] + [c] + s[i + 1..];
      CountAppend(s[..i] + [c], s[i + 1..], c);
      CountAppend(s[..i], [c], c);
      assert [c][..0] == [];
      assert c !in s[i + 1..];
      CountAbsent(s[i + 1..], c);
    }
  }

  /** Joining two non-empty lists of pieces puts one separator between them. */
  lemma {:induction false} JoinWithAppend(a: seq<string>, b: seq<string>, c: char)
    requires |a| >= 1 && |b| >= 1
    ensures JoinWith(a + b, c) == JoinWith(a, c) + [c] + JoinWith(b, c)
    decreases |b|
  {
    var ab := a + b;
    if |b| == 1 {
      assert ab[..|ab| - 1] == a;
    } else {
      var binit := b[..|b| - 1];
      assert ab[..|ab| - 1] == a + binit;
      JoinWithAppend(a, binit, c);
    }
  }

  /** A join of pieces starts with its first piece. */
  lemma {:induction false} JoinWithStartsWith(parts: seq<string>, c: char)
    requires |parts| >= 1
    ensures parts[0] <= JoinWith(parts, c)
  {
    if |parts| >= 2 {
      JoinWithAppend([parts[0]], parts[1..], c);
      assert [parts[0]] + parts[1..] == parts;
    }
  }
}
