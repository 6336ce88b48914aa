/**
  Go's `path/filepath` helpers on a Unix host, where the separator is `/` and
  there are no volume names: `IsAbs`, `Clean`, `Join` and `Dir`, and the chain
  of ancestors that repeated `Dir` walks through.

  `Clean` works on the pieces of the path between separators: it drops empty
  and `.` pieces, lets `..` remove the piece before it (a leading `..` stays
  in a relative path and disappears at the root of an absolute one), and joins
  the survivors again. The survivors are kept as a list of "elements"; a path
  is clean exactly when it is the rendering of such a list.
*/
module Paths {
  import opened Strings

  const Separator: char := '/'

  /** `filepath.IsAbs`: the path starts at the root. */
  predicate IsAbs(p: string)
  {
    |p| > 0 && p[0] == Separator
  }

  /** One step of `Clean`'s loop: what an element does to the kept elements. */
  function Push(kept: seq<string>, elem: string, rooted: bool): seq<string>
  {
    if elem == "" || elem == "." then kept
    else if elem == ".." then
      if |kept| > 0 && kept[|kept| - 1] != ".." then kept[..|kept| - 1]
      else if rooted then kept
      else kept + [".."]
    else kept + [elem]
  }

  /** The elements that survive `Clean`'s loop over `elems`, in order. */
  function Resolve(elems: seq<string>, rooted: bool): seq<string>
  {
    if |elems| == 0 then []
    else Push(Resolve(elems[..|elems| - 1], rooted), elems[|elems| - 1], rooted)
  }

  /** The path spelled by kept elements: `/`-prefixed when rooted, `.` when empty and relative. */
  function Render(elems: seq<string>, rooted: bool): string
  {
    if rooted then [Separator] + JoinWith(elems, Separator)
    else if |elems| == 0 then "."
    else JoinWith(elems, Separator)
  }

  /** `filepath.Clean`. */
  function Clean(p: string): string
  {
    Render(Resolve(Split(p, Separator), IsAbs(p)), IsAbs(p))
  }

  /**
    `filepath.Join(elems...)`: the non-empty tail of `elems` joined with
    separators and cleaned, or "" when every element is empty.
  */
  function Join(elems: seq<string>): string
  {
    if |elems| == 0 then ""
    else if elems[0] != "" then Clean(JoinWith(elems, Separator))
    else Join(elems[1..])
  }

  /** Everything up to and including the last separator ("" when there is none). */
  function DirPrefix(p: string): string
  {
    p[..LastIndexOf(p, Separator) + 1]
  }

  /** `filepath.Dir`: the cleaned path of everything before the last element. */
  function Dir(p: string): string
  {
    Clean(DirPrefix(p))
  }

  /** The kept elements of `Dir(p)`. */
  function DirElems(p: string): seq<string>
  {
    Resolve(Split(DirPrefix(p), Separator), IsAbs(p))
  }

  /**
    What `Clean` can leave behind: no empty, `.` or separator-containing
    element, no `..` at all under the root, and `..` only as a leading run.
  */
  predicate CleanElems(elems: seq<string>, rooted: bool)
  {
    (forall i :: 0 <= i < |elems| ==>
       elems[i] != "" && elems[i] != "." && Separator !in elems[i] && (rooted ==> elems[i] != ".."))
    && (forall i, j :: 0 <= i < j < |elems| && elems[j] == ".." ==> elems[i] == "..")
  }

  /**
    The proper ancestors of the path rendered from `elems`, nearest first:
    the renderings of `elems[..k]` for k from |elems| down to 1.
  */
  function Lineage(elems: seq<string>, rooted: bool): (chain: seq<string>)
    ensures |chain| == |elems|
  {
    if |elems| == 0 then [] else [Render(elems, rooted)] + Lineage(elems[..|elems| - 1], rooted)
  }

  /**
    The chain of paths that repeated `Dir` visits starting from `s`, up to but
    not including the point where it stops moving: "." for a relative path,
    and "/" included for an absolute one (Dir("/") is "/" again).
  */
  function Ancestors(s: string): seq<string>
  {
    Lineage(DirElems(s), IsAbs(s)) + (if IsAbs(s) then [[Separator]] else [])
  }

  /** `Dir` applied n times. */
  function DirIter(p: string, n: nat): string
  {
    if n == 0 then p else Dir(DirIter(p, n - 1))
  }

  // ---------------------------------------------------------------------
  // Clean

  lemma PushKeepsClean(kept: seq<string>, elem: string, rooted: bool)
    requires CleanElems(kept, rooted) && Separator !in elem
    ensures CleanElems(Push(kept, elem, rooted), rooted)
  {
    if elem == ".." && !(|kept| > 0 && kept[|kept| - 1] != "..") && !rooted {
      var r := kept + [".."];
      forall i, j | 0 <= i < j < |r| && r[j] == ".." ensures r[i] == ".." {
        if j == |kept| {
          assert kept[|kept| - 1] == "..";
          if i < |kept| - 1 {
            assert kept[i] == "..";
          }
        }
      }
    }
  }

  /** Whatever `Clean`'s loop keeps is in clean form. */
  lemma {:induction false} ResolveIsClean(elems: seq<string>, rooted: bool)
    requires SeparatorFree(elems, Separator)
    ensures CleanElems(Resolve(elems, rooted), rooted)
    decreases |elems|
  {
    if |elems| > 0 {
      var init := elems[..|elems| - 1];
      assert SeparatorFree(init, Separator) by {
        forall k | 0 <= k < |init| ensures Separator !in init[k] {
          assert init[k] == elems[k];
        }
      }
      ResolveIsClean(init, rooted);
      PushKeepsClean(Resolve(init, rooted), elems[|elems| - 1], rooted);
    }
  }

  lemma PrefixOfPrefix<T>(s: seq<T>, n: nat, k: nat)
    requires k <= n <= |s|
    ensures s[..n][..k] == s[..k]
  {
  }

  lemma CleanElemsSeparatorFree(elems: seq<string>, rooted: bool)
    requires CleanElems(elems, rooted)
    ensures SeparatorFree(elems, Separator)
  {
  }

  /** A prefix of clean elements is clean. */
  lemma CleanElemsPrefix(elems: seq<string>, rooted: bool, k: nat)
    requires CleanElems(elems, rooted) && k <= |elems|
    ensures CleanElems(elems[..k], rooted)
  {
  }

  /** Appending the last element of a clean list is a plain push. */
  lemma PushLastClean(elems: seq<string>, rooted: bool)
    requires CleanElems(elems, rooted) && |elems| >= 1
    ensures Push(elems[..|elems| - 1], elems[|elems| - 1], rooted) == elems
  {
    var init := elems[..|elems| - 1];
    var last := elems[|elems| - 1];
    assert last != "" && last != "." && (rooted ==> last != "..");
    if last == ".." && |init| > 0 {
      assert elems[|init| - 1] == "..";
    }
    assert init + [last] == elems;
  }

  /** Clean elements pass through `Clean`'s loop unchanged. */
  lemma {:induction false} ResolveOfClean(elems: seq<string>, rooted: bool)
    requires CleanElems(elems, rooted)
    ensures Resolve(elems, rooted) == elems
    decreases |elems|
  {
    if |elems| > 0 {
      CleanElemsPrefix(elems, rooted, |elems| - 1);
      ResolveOfClean(elems[..|elems| - 1], rooted);
      PushLastClean(elems, rooted);
    }
  }

  /** A leading empty element (the root's) is dropped by `Clean`'s loop. */
  lemma {:induction false} ResolveLeadingEmpty(elems: seq<string>, rooted: bool)
    ensures Resolve([""] + elems, rooted) == Resolve(elems, rooted)
    decreases |elems|
  {
    if |elems| > 0 {
      var e := [""] + elems;
      assert e[..|e| - 1] == [""] + elems[..|elems| - 1];
      ResolveLeadingEmpty(elems[..|elems| - 1], rooted);
    } else {
      var e: seq<string> := [""];
      assert [""] + elems == e;
      assert e[..0] == [];
    }
  }

  lemma {:induction false} RootedJoin(elems: seq<string>)
    requires |elems| >= 1
    ensures [Separator] + JoinWith(elems, Separator) == JoinWith([""] + elems, Separator)
  {
    JoinWithAppend([""], elems, Separator);
  }

  lemma SplitTrailing(x: string, c: char)
    ensures Split(x + [c], c) == Split(x, c) + [""]
  {
    LastIndexOfAt(x, c, "");
    assert (x + [c])[..|x|] == x;
    assert x + [c] + "" == x + [c];
  }

  /** How a rendering of clean elements splits at its separators. */
  lemma SplitRender(elems: seq<string>, rooted: bool)
    requires CleanElems(elems, rooted) && |elems| >= 1
    ensures Split(Render(elems, rooted), Separator) == (if rooted then [""] else []) + elems
  {
    if rooted {
      RootedJoin(elems);
      SplitJoin([""] + elems, Separator);
    } else {
      SplitJoin(elems, Separator);
      assert [] + elems == elems;
    }
  }

  /** Rendering clean elements yields a path that is absolute exactly when rooted. */
  lemma RenderIsAbs(elems: seq<string>, rooted: bool)
    requires CleanElems(elems, rooted)
    ensures IsAbs(Render(elems, rooted)) == rooted
  {
    if !rooted && |elems| > 0 {
      JoinWithStartsWith(elems, Separator);
      assert elems[0][0] == JoinWith(elems, Separator)[0];
    }
  }

  /** The empty path and the root keep no elements. */
  lemma EmptyHasNoElems(rooted: bool)
    ensures Resolve(Split([], Separator), rooted) == []
  {
    var e := Split([], Separator);
    assert e == [[]];
    assert e[..0] == [];
  }

  lemma RootHasNoElems()
    ensures Resolve(Split([Separator], Separator), true) == []
  {
    var e := Split([Separator], Separator);
    var r: string := [Separator];
    assert LastIndexOf(r, Separator) == 0;
    assert r[..0] == [] && r[1..] == [];
    assert Split([], Separator) == [[]];
    assert e == Split(r[..0], Separator) + [r[1..]];
    assert e == ["", ""];
    assert e[..1] == [""] && e[..1][..0] == [];
    assert Resolve(e[..1], true) == [];
  }

  /** A rendering of clean elements is a fixed point of `Clean`. */
  lemma CleanOfRender(elems: seq<string>, rooted: bool)
    requires CleanElems(elems, rooted)
    ensures Clean(Render(elems, rooted)) == Render(elems, rooted)
  {
    RenderIsAbs(elems, rooted);
    var p := Render(elems, rooted);
    if |elems| == 0 {
      if rooted {
        assert p == "/";
        assert LastIndexOf(p, Separator) == 0;
        RootHasNoElems();
      } else {
        assert p == ".";
        assert LastIndexOf(p, Separator) == -1;
        var e := Split(p, Separator);
        assert e == [p];
        assert e[..0] == [];
        assert Resolve(e, false) == Push([], p, false) == [];
        assert !IsAbs(p);
      }
    } else {
      ResolveOfRender(elems, rooted);
    }
  }

  /** Splitting the rendering of clean elements and resolving the pieces gives the elements back. */
  lemma ResolveOfRender(elems: seq<string>, rooted: bool)
    requires CleanElems(elems, rooted) && |elems| >= 1
    ensures Resolve(Split(Render(elems, rooted), Separator), rooted) == elems
  {
    SplitRender(elems, rooted);
    ResolveOfClean(elems, rooted);
    if rooted {
      ResolveLeadingEmpty(elems, rooted);
    } else {
      assert [] + elems == elems;
    }
  }

  /** A trailing empty piece leaves nothing behind. */
  lemma ResolveTrailingEmpty(e: seq<string>, rooted: bool)
    ensures Resolve(e + [""], rooted) == Resolve(e, rooted)
  {
    assert (e + [""])[..|e|] == e;
  }

  /** `Clean` is idempotent: a cleaned path is clean. */
  lemma CleanIdempotent(p: string)
    ensures Clean(Clean(p)) == Clean(p)
  {
    var elems := Resolve(Split(p, Separator), IsAbs(p));
    ResolveIsClean(Split(p, Separator), IsAbs(p));
    CleanOfRender(elems, IsAbs(p));
  }

  /** `Clean` keeps a path absolute or relative. */
  lemma CleanIsAbs(p: string)
    ensures IsAbs(Clean(p)) == IsAbs(p)
  {
    ResolveIsClean(Split(p, Separator), IsAbs(p));
    RenderIsAbs(Resolve(Split(p, Separator), IsAbs(p)), IsAbs(p));
  }

  /** A trailing separator makes no difference to `Clean` (except on the empty path). */
  lemma CleanTrailingSlash(x: string)
    requires |x| > 0
    ensures Clean(x + [Separator]) == Clean(x)
  {
    SplitTrailing(x, Separator);
    var e := Split(x, Separator) + [""];
    assert e[..|e| - 1] == Split(x, Separator);
  }

  lemma {:induction false} JoinWithLast(elems: seq<string>, c: char)
    requires |elems| >= 1 && |elems[|elems| - 1]| >= 1
    ensures |JoinWith(elems, c)| >= 1
    ensures JoinWith(elems, c)[|JoinWith(elems, c)| - 1] == elems[|elems| - 1][|elems[|elems| - 1]| - 1]
  {
  }

  /** A cleaned path is never empty and ends in a separator only when it is the root. */
  lemma CleanNoTrailingSlash(p: string)
    ensures var r := Clean(p); |r| > 0 && (r == [Separator] || r[|r| - 1] != Separator)
  {
    var elems := Resolve(Split(p, Separator), IsAbs(p));
    ResolveIsClean(Split(p, Separator), IsAbs(p));
    if |elems| > 0 {
      JoinWithLast(elems, Separator);
      var last := elems[|elems| - 1];
      assert last[|last| - 1] in last;
    }
  }

  // ---------------------------------------------------------------------
  // Join

  /** `filepath.Join(root, line)` when at least one of the two is non-empty. */
  lemma JoinTwo(root: string, line: string)
    requires root != "" || line != ""
    ensures Join([root, line]) == Clean(if root == "" then line else root + [Separator] + line)
  {
    if root == "" {
      assert [root, line][1..] == [line];
    } else {
      assert [root, line][..1] == [root];
      assert JoinWith([root, line], Separator) == root + [Separator] + line;
    }
  }

  /**
    A line ending in a separator names the same joined path as the line
    without it, so a directory rule never keeps its trailing `/`.
  */
  lemma JoinDropsTrailingSlash(root: string, line: string)
    requires |line| >= 1 && line[|line| - 1] == Separator
    requires root != "" || |line| >= 2
    ensures Join([root, line]) == Join([root, line[..|line| - 1]])
  {
    var stem := line[..|line| - 1];
    assert line == stem + [Separator];
    JoinTwo(root, line);
    JoinTwo(root, stem);
    if root == "" {
      CleanTrailingSlash(stem);
    } else {
      RootedTrailingSlash(root, stem);
    }
  }

  /** `Clean` of `root/stem/` and of `root/stem` agree. */
  lemma RootedTrailingSlash(root: string, stem: string)
    ensures Clean(root + [Separator] + (stem + [Separator])) == Clean(root + [Separator] + stem)
  {
    var x := root + [Separator] + stem;
    assert root + [Separator] + (stem + [Separator]) == x + [Separator];
    CleanTrailingSlash(x);
  }

  // ---------------------------------------------------------------------
  // Dir

  lemma DirPrefixIsAbs(p: string)
    ensures IsAbs(DirPrefix(p)) == IsAbs(p)
  {
  }

  /** `Dir(p)` is the rendering of clean elements, rooted exactly when `p` is. */
  lemma DirShape(p: string)
    ensures Dir(p) == Render(DirElems(p), IsAbs(p))
    ensures CleanElems(DirElems(p), IsAbs(p))
  {
    DirPrefixIsAbs(p);
    ResolveIsClean(Split(DirPrefix(p), Separator), IsAbs(p));
  }

  /** For a separator-free `last`, the last separator of `q + "/" + last` is the one after `q`. */
  lemma DirPrefixAfter(q: string, last: string)
    requires Separator !in last
    ensures DirPrefix(q + [Separator] + last) == q + [Separator]
  {
    LastIndexOfAt(q, Separator, last);
    assert (q + [Separator] + last)[..|q| + 1] == q + [Separator];
  }

  /** A path with no separator has an empty directory prefix. */
  lemma NoSeparatorDirPrefix(x: string)
    requires Separator !in x
    ensures DirPrefix(x) == []
  {
    forall i | 0 <= i < |x| ensures x[i] != Separator {
      assert x[i] in x;
    }
  }

  /** The rendering of clean elements followed by a separator resolves back to those elements. */
  lemma ResolveRenderSlash(init: seq<string>, rooted: bool)
    requires CleanElems(init, rooted) && |init| >= 1
    ensures Resolve(Split(Render(init, rooted) + [Separator], Separator), rooted) == init
  {
    var q := Render(init, rooted);
    SplitTrailing(q, Separator);
    ResolveTrailingEmpty(Split(q, Separator), rooted);
    ResolveOfRender(init, rooted);
  }

  /** The parent of a clean path drops its last element. */
  lemma DirElemsOfRender(elems: seq<string>, rooted: bool)
    requires CleanElems(elems, rooted) && |elems| >= 1
    ensures DirElems(Render(elems, rooted)) == elems[..|elems| - 1]
  {
    var p := Render(elems, rooted);
    RenderIsAbs(elems, rooted);
    var last := elems[|elems| - 1];
    assert Separator !in last;
    if |elems| == 1 {
      assert JoinWith(elems, Separator) == last;
      if rooted {
        assert p == [] + [Separator] + last;
        DirPrefixAfter([], last);
        RootHasNoElems();
      } else {
        assert p == last;
        NoSeparatorDirPrefix(last);
        EmptyHasNoElems(false);
      }
      assert elems[..0] == [];
    } else {
      var init := elems[..|elems| - 1];
      CleanElemsPrefix(elems, rooted, |elems| - 1);
      var q := Render(init, rooted);
      assert p == q + [Separator] + last;
      DirPrefixAfter(q, last);
      ResolveRenderSlash(init, rooted);
    }
  }

  /** The parent of a clean path is the rendering of all but its last element. */
  lemma DirOfRender(elems: seq<string>, rooted: bool)
    requires CleanElems(elems, rooted) && |elems| >= 1
    ensures Dir(Render(elems, rooted)) == Render(elems[..|elems| - 1], rooted)
  {
    DirElemsOfRender(elems, rooted);
    RenderIsAbs(elems, rooted);
    DirShape(Render(elems, rooted));
  }

  /** The parent of an absolute path is absolute, so it is never ".". */
  lemma DirKeepsAbsolute(p: string)
    requires IsAbs(p)
    ensures IsAbs(Dir(p)) && Dir(p) != "."
  {
    DirShape(p);
  }

  // ---------------------------------------------------------------------
  // The ancestor chain

  lemma {:induction false} LineageAt(elems: seq<string>, rooted: bool, j: nat)
    requires j < |elems|
    ensures Lineage(elems, rooted)[j] == Render(elems[..|elems| - j], rooted)
    decreases |elems|
  {
    if j > 0 {
      var init := elems[..|elems| - 1];
      assert Lineage(elems, rooted)[j] == Lineage(init, rooted)[j - 1];
      LineageAt(init, rooted, j - 1);
      PrefixOfPrefix(elems, |elems| - 1, |elems| - j);
    } else {
      assert elems[..|elems|] == elems;
    }
  }

  /** A rendering of at least one clean element is neither "." nor "/". */
  lemma RenderNotEnd(elems: seq<string>, rooted: bool)
    requires CleanElems(elems, rooted) && |elems| >= 1
    ensures Render(elems, rooted) != "." && Render(elems, rooted) != [Separator]
  {
    JoinWithStartsWith(elems, Separator);
    if rooted {
      assert |JoinWith(elems, Separator)| >= 1;
    } else if |JoinWith(elems, Separator)| == 1 {
      assert elems[0] == JoinWith(elems, Separator);
    }
  }

  /** The path the walk is at after k steps of `Dir` from `s`. */
  function Walked(s: string, k: nat): string
    requires k <= |Ancestors(s)|
  {
    if k == 0 then s else Ancestors(s)[k - 1]
  }

  lemma AncestorsLength(s: string)
    ensures |Ancestors(s)| == |DirElems(s)| + (if IsAbs(s) then 1 else 0)
  {
  }

  lemma AncestorsAt(s: string, j: nat)
    requires j < |Ancestors(s)|
    ensures var t := DirElems(s);
            Ancestors(s)[j] == if j < |t| then Render(t[..|t| - j], IsAbs(s)) else [Separator]
  {
    var t := DirElems(s);
    if j < |t| {
      LineageAt(t, IsAbs(s), j);
    }
  }

  /** The first step of the walk: `Dir(s)` heads the chain, or is "." when the chain is empty. */
  lemma AncestorFirst(s: string)
    ensures |Ancestors(s)| == 0 ==> !IsAbs(s) && Dir(s) == "."
    ensures |Ancestors(s)| > 0 ==> Dir(s) == Ancestors(s)[0]
  {
    var t := DirElems(s);
    DirShape(s);
    AncestorsLength(s);
    if |Ancestors(s)| > 0 {
      AncestorsAt(s, 0);
      assert t[..|t|] == t;
    }
  }

  /** `Dir` takes a lineage member (the rendering of a prefix) to the rendering of the prefix one shorter. */
  lemma LineageDir(elems: seq<string>, rooted: bool, j: nat)
    requires CleanElems(elems, rooted) && j < |elems|
    ensures Dir(Lineage(elems, rooted)[j]) == Render(elems[..|elems| - j - 1], rooted)
  {
    var m := |elems| - j;
    LineageAt(elems, rooted, j);
    CleanElemsPrefix(elems, rooted, m);
    DirOfRender(elems[..m], rooted);
    PrefixOfPrefix(elems, m, m - 1);
  }

  /** A later step: `Dir` of a chain member that is not "/" is the next member, or ".". */
  lemma AncestorNext(s: string, j: nat)
    requires j < |Ancestors(s)| && Ancestors(s)[j] != [Separator]
    ensures j + 1 == |Ancestors(s)| ==> !IsAbs(s) && Dir(Ancestors(s)[j]) == "."
    ensures j + 1 < |Ancestors(s)| ==> Dir(Ancestors(s)[j]) == Ancestors(s)[j + 1]
  {
    var t := DirElems(s);
    var ch := Ancestors(s);
    DirShape(s);
    AncestorsLength(s);
    AncestorsAt(s, j);
    LineageNext(t, IsAbs(s), j);
    assert ch[j] == Lineage(t, IsAbs(s))[j];
    if j + 1 < |t| {
      assert ch[j + 1] == Lineage(t, IsAbs(s))[j + 1];
    } else if IsAbs(s) {
      assert ch[j + 1] == [Separator];
    }
  }

  /** `Dir` of a lineage member is the next member, or "/" or "." after the last one. */
  lemma LineageNext(t: seq<string>, rooted: bool, j: nat)
    requires CleanElems(t, rooted) && j < |t|
    ensures Dir(Lineage(t, rooted)[j]) ==
            if j + 1 < |t| then Lineage(t, rooted)[j + 1] else if rooted then [Separator] else "."
  {
    if j + 1 < |t| {
      LineageNextInner(t, rooted, j);
    } else {
      LineageNextLast(t, rooted);
    }
  }

  lemma LineageNextInner(t: seq<string>, rooted: bool, j: nat)
    requires CleanElems(t, rooted) && j + 1 < |t|
    ensures Dir(Lineage(t, rooted)[j]) == Lineage(t, rooted)[j + 1]
  {
    LineageDir(t, rooted, j);
    LineageAt(t, rooted, j + 1);
  }

  lemma LineageNextLast(t: seq<string>, rooted: bool)
    requires CleanElems(t, rooted) && |t| >= 1
    ensures Dir(Lineage(t, rooted)[|t| - 1]) == if rooted then [Separator] else "."
  {
    LineageDir(t, rooted, |t| - 1);
    assert t[..0] == [];
    RenderRoot();
  }

  /** The rendering of no elements under the root is "/". */
  lemma RenderRoot()
    ensures Render([], true) == [Separator]
  {
    assert JoinWith([], Separator) == [];
  }

  /** No member of the chain is ".", and only the last member of an absolute chain is "/". */
  lemma AncestorMember(s: string, j: nat)
    requires j < |Ancestors(s)|
    ensures Ancestors(s)[j] != "."
    ensures Ancestors(s)[j] == [Separator] <==> IsAbs(s) && j == |Ancestors(s)| - 1
  {
    var rooted := IsAbs(s);
    var t := DirElems(s);
    DirShape(s);
    AncestorsLength(s);
    AncestorsAt(s, j);
    if j < |t| {
      CleanElemsPrefix(t, rooted, |t| - j);
      RenderNotEnd(t[..|t| - j], rooted);
    }
  }

  /**
    One step of the walk: after k steps (and not yet at "/"), `Dir` lands on
    the next member of the chain, which is never ".", or on "." once the
    chain of a relative path is used up.
  */
  lemma WalkStep(s: string, k: nat)
    requires k <= |Ancestors(s)|
    requires k == 0 || Ancestors(s)[k - 1] != [Separator]
    ensures k < |Ancestors(s)| ==> Dir(Walked(s, k)) == Ancestors(s)[k] && Ancestors(s)[k] != "."
    ensures k == |Ancestors(s)| ==> !IsAbs(s) && Dir(Walked(s, k)) == "."
  {
    if k == 0 {
      AncestorFirst(s);
    } else {
      AncestorNext(s, k - 1);
    }
    if k < |Ancestors(s)| {
      AncestorMember(s, k);
    }
  }

  /** A member of a lineage is the rendering of a non-empty prefix. */
  lemma {:induction false} LineageIndex(elems: seq<string>, rooted: bool, d: string) returns (k: nat)
    requires d in Lineage(elems, rooted)
    ensures 1 <= k <= |elems| && d == Render(elems[..k], rooted)
    decreases |elems|
  {
    var init := elems[..|elems| - 1];
    if d == Render(elems, rooted) {
      k := |elems|;
      assert elems[..k] == elems;
    } else {
      k := LineageIndex(init, rooted, d);
      assert init[..k] == elems[..k];
    }
  }

  /** Conversely, every such rendering is in the lineage. */
  lemma {:induction false} LineageHas(elems: seq<string>, rooted: bool, k: nat)
    requires 1 <= k <= |elems|
    ensures Render(elems[..k], rooted) in Lineage(elems, rooted)
    decreases |elems|
  {
    var init := elems[..|elems| - 1];
    if k < |elems| {
      LineageHas(init, rooted, k);
      assert init[..k] == elems[..k];
    } else {
      assert elems[..k] == elems;
    }
  }

  lemma SeparatorAfterPrefix(d: string, s: string)
    ensures d + [Separator] <= s ==> |d| < |s| && s[|d|] == Separator
  {
    if d + [Separator] <= s {
      assert s[|d|] == (d + [Separator])[|d|];
    }
  }

  /** The join of a proper, non-empty prefix, followed by a separator, begins the whole join. */
  lemma JoinPrefixSlash(elems: seq<string>, k: nat)
    requires 1 <= k < |elems|
    ensures JoinWith(elems[..k], Separator) + [Separator] <= JoinWith(elems, Separator)
  {
    JoinWithAppend(elems[..k], elems[k..], Separator);
    assert elems[..k] + elems[k..] == elems;
  }

  /**
    Conversely, when `d` followed by a separator begins the join of
    separator-free elements, `d` is the join of a proper, non-empty prefix.
  */
  lemma {:induction false} SlashPrefixJoin(elems: seq<string>, d: string) returns (k: nat)
    requires |elems| >= 1 && SeparatorFree(elems, Separator)
    requires d + [Separator] <= JoinWith(elems, Separator)
    ensures 1 <= k < |elems| && d == JoinWith(elems[..k], Separator)
    decreases |elems|
  {
    var s := JoinWith(elems, Separator);
    SeparatorAfterPrefix(d, s);
    if |elems| == 1 {
      assert false;
    } else {
      var init := elems[..|elems| - 1];
      var last := elems[|elems| - 1];
      var q := JoinWith(init, Separator);
      assert s == q + [Separator] + last;
      forall i | |q| < i < |s| ensures s[i] != Separator {
        assert s[i] == last[i - |q| - 1];
        assert s[i] in last;
      }
      if |d| > |q| {
        assert false;
      } else if |d| == |q| {
        assert d == s[..|d|] == q;
        k := |elems| - 1;
      } else {
        assert SeparatorFree(init, Separator) by {
          forall k | 0 <= k < |init| ensures Separator !in init[k] {
            assert init[k] == elems[k];
          }
        }
        assert d + [Separator] <= q;
        k := SlashPrefixJoin(init, d);
        PrefixOfPrefix(elems, |elems| - 1, k);
      }
    }
  }

  /** A clean relative path is "." or the join of its clean elements. */
  lemma CleanRelativeShape(s: string)
    requires !IsAbs(s) && Clean(s) == s
    ensures s == Render(Resolve(Split(s, Separator), false), false)
    ensures CleanElems(Resolve(Split(s, Separator), false), false)
  {
    ResolveIsClean(Split(s, Separator), false);
  }

  /** The chain of a clean relative path is the lineage of all but its last element. */
  lemma AncestorsOfCleanShape(s: string)
    requires !IsAbs(s) && Clean(s) == s
    ensures var elems := Resolve(Split(s, Separator), false);
            |elems| >= 1 ==> Ancestors(s) == Lineage(elems[..|elems| - 1], false)
    ensures s == "." ==> Ancestors(s) == []
  {
    CleanRelativeShape(s);
    var elems := Resolve(Split(s, Separator), false);
    if |elems| == 0 {
      assert DirPrefix(s) == [];
      EmptyHasNoElems(false);
    } else {
      DirElemsOfRender(elems, false);
      RenderNotEnd(elems, false);
    }
  }

  /** The lineage of all but the last element holds exactly the paths that, followed by "/", begin the whole join. */
  lemma LineageSlash(elems: seq<string>, d: string)
    requires SeparatorFree(elems, Separator) && |elems| >= 1
    ensures d in Lineage(elems[..|elems| - 1], false) <==> d + [Separator] <= JoinWith(elems, Separator)
  {
    if d in Lineage(elems[..|elems| - 1], false) {
      LineageSlashPrefix(elems, d);
    }
    if d + [Separator] <= JoinWith(elems, Separator) {
      SlashPrefixLineage(elems, d);
    }
  }

  /** A lineage member of the parent, followed by a separator, starts the joined path. */
  lemma LineageSlashPrefix(elems: seq<string>, d: string)
    requires |elems| >= 1 && d in Lineage(elems[..|elems| - 1], false)
    ensures d + [Separator] <= JoinWith(elems, Separator)
  {
    var k := LineageIndex(elems[..|elems| - 1], false, d);
    PrefixOfPrefix(elems, |elems| - 1, k);
    JoinPrefixSlash(elems, k);
  }

  /** A prefix of the joined path that ends at a separator is in the parent's lineage. */
  lemma SlashPrefixLineage(elems: seq<string>, d: string)
    requires SeparatorFree(elems, Separator) && |elems| >= 1
    requires d + [Separator] <= JoinWith(elems, Separator)
    ensures d in Lineage(elems[..|elems| - 1], false)
  {
    var k := SlashPrefixJoin(elems, d);
    JoinPrefixInLineage(elems, k);
  }

  /** The join of a proper, non-empty prefix is in the parent's lineage. */
  lemma JoinPrefixInLineage(elems: seq<string>, k: nat)
    requires 1 <= k < |elems|
    ensures JoinWith(elems[..k], Separator) in Lineage(elems[..|elems| - 1], false)
  {
    var t := elems[..|elems| - 1];
    PrefixOfPrefix(elems, |elems| - 1, k);
    assert Render(t[..k], false) == JoinWith(elems[..k], Separator);
    LineageHas(t, false, k);
  }



  /**
    For a clean relative path `s`, the chain walked by `Dir` holds exactly the
    paths `d` that `s` lies strictly under: those for which `d + "/"` begins `s`.
    In particular `s` itself is not in its own chain.
  */
  lemma AncestorsOfClean(s: string, d: string)
    requires !IsAbs(s) && Clean(s) == s
    ensures d in Ancestors(s) <==> d + [Separator] <= s
  {
    CleanRelativeShape(s);
    var elems := Resolve(Split(s, Separator), false);
    if |elems| >= 1 {
      AncestorsOfRendered(elems, d);
    } else {
      DotHasNoAncestors();
      var e := d + [Separator];
      assert |e| >= 2 || e[0] == Separator;
    }
  }

  /** The walk from "." stops at once. */
  lemma DotHasNoAncestors()
    ensures Ancestors(".") == []
  {
    var dot: string := ".";
    assert DirPrefix(dot) == [];
    EmptyHasNoElems(false);
  }

  /** `AncestorsOfClean` for the rendering of at least one clean relative element. */
  lemma AncestorsOfRendered(elems: seq<string>, d: string)
    requires CleanElems(elems, false) && |elems| >= 1
    ensures d in Ancestors(Render(elems, false)) <==> d + [Separator] <= Render(elems, false)
  {
    RenderIsAbs(elems, false);
    DirElemsOfRender(elems, false);
    assert Ancestors(Render(elems, false)) == Lineage(elems[..|elems| - 1], false);
    CleanElemsSeparatorFree(elems, false);
    LineageSlash(elems, d);
  }

  /** The walk from a clean relative path takes one step per separator in it. */
  lemma AncestorCount(s: string)
    requires !IsAbs(s) && Clean(s) == s
    ensures |Ancestors(s)| == Count(s, Separator)
  {
    CleanRelativeShape(s);
    AncestorsOfCleanShape(s);
    var elems := Resolve(Split(s, Separator), false);
    if |elems| == 0 {
      assert s == ".";
      assert Count(s, Separator) == Count([], Separator);
    } else {
      SplitJoin(elems, Separator);
      SplitCount(s, Separator);
    }
  }

  /**
    From an absolute path the walk never reaches ".": however many times
    `Dir` is applied, the result is still absolute.
  */
  lemma {:induction false} AbsoluteWalkNeverEnds(s: string, n: nat)
    requires IsAbs(s)
    ensures IsAbs(DirIter(s, n)) && DirIter(s, n) != "."
  {
    if n > 0 {
      AbsoluteWalkNeverEnds(s, n - 1);
      DirKeepsAbsolute(DirIter(s, n - 1));
    }
  }
}
