/** The part of Node's `path` module the rule relies on: `extname` for
    POSIX paths, where `/` is the only separator. */
module PosixPath {
  import opened Wrappers
  import opened Ascii

  const Separator: char := '/'
  const Dot: char := '.'

  /** The path without its trailing separators (`extname` looks at the last
      path component, ignoring separators at the very end). */
  function TrimTrailingSeparators(p: string): (r: string)
    ensures |r| <= |p| && r == p[..|r|]
    ensures r == [] || r[|r| - 1] != Separator
    ensures forall k :: |r| <= k < |p| ==> p[k] == Separator
  {
    if |p| > 0 && p[|p| - 1] == Separator then TrimTrailingSeparators(p[..|p| - 1]) else p
  }

  /** The index of the last occurrence of `c` in `s`, if there is one. */
  function LastIndexOf(s: string, c: char): (r: Option<nat>)
    ensures r.None? <==> forall k :: 0 <= k < |s| ==> s[k] != c
    ensures r.Some? ==> r.value < |s| && s[r.value] == c
    ensures r.Some? ==> forall k :: r.value < k < |s| ==> s[k] != c
  {
    if |s| == 0 then None
    else if s[|s| - 1] == c then Some(|s| - 1)
    else LastIndexOf(s[..|s| - 1], c)
  }

  /** The last component of a path without trailing separators. */
  function Basename(p: string): (r: string)
    ensures |r| <= |p| && r == p[|p| - |r|..]
    ensures forall k :: 0 <= k < |r| ==> r[k] != Separator
  {
    match LastIndexOf(p, Separator)
    case None => p
    case Some(i) => p[i + 1..]
  }

  /** The last component of a path, as `extname` sees it. */
  function LastComponent(path: string): string
  {
    Basename(TrimTrailingSeparators(path))
  }

  predicate IsSuffix(r: string, s: string)
  {
    |r| <= |s| && s[|s| - |r|..] == r
  }

  /** The extension of one path component: its text from its last dot on,
      empty when it has no dot, when that dot is its first character
      (`.bashrc`), and for the component `..`. */
  function ComponentExtension(base: string): (r: string)
    ensures r == [] || (r[0] == Dot && IsSuffix(r, base))
    ensures forall k :: 0 < k < |r| ==> r[k] != Dot
    ensures r != [] <==> base != ".." && exists k :: 0 < k < |base| && base[k] == Dot
  {
    match LastIndexOf(base, Dot)
    case None => ""
    case Some(i) =>
      if i == 0 || base == ".." then ""
      else
        assert 0 < i < |base| && base[i] == Dot;
        base[i..]
  }

  /** `path.extname`: the extension of the last component of the path. */
  function Extname(path: string): (r: string)
    ensures r == [] || (r[0] == Dot && IsSuffix(r, LastComponent(path)))
    ensures forall k :: 0 <= k < |r| ==> r[k] != Separator
    ensures forall k :: 0 < k < |r| ==> r[k] != Dot
    ensures var b := LastComponent(path);
      r != [] <==> b != ".." && exists k :: 0 < k < |b| && b[k] == Dot
  {
    ComponentExtension(LastComponent(path))
  }

  /** Two strings that agree up to case have their case-fixed characters
      (separators, dots) at the same places. */
  lemma SameCaseFixedPositions(s: string, t: string, c: char, k: nat)
    requires Lower(s) == Lower(t) && CaseFixed(c) && k < |s|
    ensures |s| == |t| && (s[k] == c <==> t[k] == c)
  {
    assert |s| == |Lower(s)| == |Lower(t)| == |t|;
    assert LowerChar(s[k]) == Lower(s)[k] == Lower(t)[k] == LowerChar(t[k]);
    LowerCharFixed(s[k], c);
    LowerCharFixed(t[k], c);
  }

  lemma {:induction false} TrimSameUpToCase(s: string, t: string)
    requires Lower(s) == Lower(t)
    ensures |TrimTrailingSeparators(s)| == |TrimTrailingSeparators(t)|
    decreases |s|
  {
    assert |s| == |Lower(s)| == |Lower(t)| == |t|;
    if |s| > 0 {
      SameCaseFixedPositions(s, t, Separator, |s| - 1);
      if s[|s| - 1] == Separator {
        LowerSlice(s, 0, |s| - 1);
        LowerSlice(t, 0, |t| - 1);
        TrimSameUpToCase(s[..|s| - 1], t[..|t| - 1]);
      }
    }
  }

  lemma LastIndexSameUpToCase(s: string, t: string, c: char)
    requires Lower(s) == Lower(t) && CaseFixed(c)
    ensures LastIndexOf(s, c) == LastIndexOf(t, c)
  {
    assert |s| == |Lower(s)| == |Lower(t)| == |t|;
    forall k | 0 <= k < |s| ensures s[k] == c <==> t[k] == c {
      SameCaseFixedPositions(s, t, c, k);
    }
    var a, b := LastIndexOf(s, c), LastIndexOf(t, c);
    if a.Some? && b.Some? {
      assert !(a.value < b.value) && !(b.value < a.value);
    }
  }

  lemma BasenameSameUpToCase(s: string, t: string)
    requires Lower(s) == Lower(t)
    ensures |Basename(s)| == |Basename(t)| && Lower(Basename(s)) == Lower(Basename(t))
  {
    assert |s| == |Lower(s)| == |Lower(t)| == |t|;
    LastIndexSameUpToCase(s, t, Separator);
    match LastIndexOf(s, Separator)
    case None =>
    case Some(i) =>
      assert Basename(s) == s[i + 1..] && Basename(t) == t[i + 1..];
      calc {
        Lower(s[i + 1..]);
        { LowerSlice(s, i + 1, |s|); }
        Lower(s)[i + 1..];
        Lower(t)[i + 1..];
        { LowerSlice(t, i + 1, |t|); }
        Lower(t[i + 1..]);
      }
  }

  lemma LastComponentSameUpToCase(f: string, g: string)
    requires Lower(f) == Lower(g)
    ensures |LastComponent(f)| == |LastComponent(g)|
    ensures Lower(LastComponent(f)) == Lower(LastComponent(g))
  {
    var tf, tg := TrimTrailingSeparators(f), TrimTrailingSeparators(g);
    TrimSameUpToCase(f, g);
    calc {
      Lower(tf);
      { LowerSlice(f, 0, |tf|); }
      Lower(f)[..|tf|];
      Lower(g)[..|tg|];
      { LowerSlice(g, 0, |tg|); }
      Lower(tg);
    }
    BasenameSameUpToCase(tf, tg);
  }

  lemma ComponentExtensionSameUpToCase(bf: string, bg: string)
    requires Lower(bf) == Lower(bg)
    ensures Lower(ComponentExtension(bf)) == Lower(ComponentExtension(bg))
  {
    assert |bf| == |Lower(bf)| == |Lower(bg)| == |bg|;
    LastIndexSameUpToCase(bf, bg, Dot);
    match LastIndexOf(bf, Dot)
    case None =>
    case Some(i) =>
      if bf == ".." || bg == ".." {
        SameCaseFixedPositions(bf, bg, Dot, 0);
        SameCaseFixedPositions(bf, bg, Dot, 1);
        assert bf == ".." && bg == "..";
      } else if i != 0 {
        calc {
          Lower(bf[i..]);
          { LowerSlice(bf, i, |bf|); }
          Lower(bf)[i..];
          Lower(bg)[i..];
          { LowerSlice(bg, i, |bg|); }
          Lower(bg[i..]);
        }
      }
  }

  /** `extname` does not look at the case of letters: two paths that agree
      up to case have extensions that agree up to case. */
  lemma ExtnameSameUpToCase(f: string, g: string)
    requires Lower(f) == Lower(g)
    ensures Lower(Extname(f)) == Lower(Extname(g))
  {
    LastComponentSameUpToCase(f, g);
    ComponentExtensionSameUpToCase(LastComponent(f), LastComponent(g));
  }

  /** A path whose last separator is at `i` and that does not end in a
      separator has the text after `i` as its last component (the whole
      path when `i` is -1, for a path with no separator). */
  lemma LastComponentAfter(p: string, i: int)
    requires -1 <= i < |p| - 1 && p[|p| - 1] != Separator
    requires i >= 0 ==> p[i] == Separator
    requires forall k :: i < k < |p| ==> p[k] != Separator
    ensures LastComponent(p) == p[i + 1..]
  {
    assert TrimTrailingSeparators(p) == p;
    var r := LastIndexOf(p, Separator);
    if i >= 0 {
      assert r.Some? && r.value == i;
    }
  }
}
