/**
 * The set-up steps of `dirWalk_` that decide what is walked: the pattern is
 * translated first, then the base directory is found by climbing to the
 * nearest ancestor without glob characters, and the traversal is recursive
 * exactly when the part of the pattern below that base contains `**`.
 *
 * A path is a sequence of components; its generic text joins them with `/`
 * and an absolute path starts with an empty component (so `/x/a` is
 * `["", "x", "a"]`, and the root `/` alone is `[""]`). "Parent" drops the
 * last component.
 */
module DirWalk {
  import opened Bytes
  import opened GlobToRegex

  type Path = seq<seq<byte>>


  /** The components of a path joined with `/`. */
  function Join(p: Path): seq<byte>
    decreases |p|
  {
    if p == [] then []
    else if |p| == 1 then p[0]
    else Join(p[..|p| - 1]) + [Slash] + p[|p| - 1]
  }

  /**
   * The generic (`/`-separated) text of a path: the components joined with
   * `/`, except that the root alone is `/` itself.
   */
  function Text(p: Path): seq<byte> {
    if p == [[]] then [Slash] else Join(p)
  }

  /** The octets `containsSpecialGlobChar` looks for. */
  predicate IsGlobChar(c: byte) {
    c == '*' as int || c == '?' as int || c == '[' as int || c == ']' as int
  }

  predicate HasGlobChar(s: seq<byte>) {
    exists k :: 0 <= k < |s| && IsGlobChar(s[k])
  }

  predicate HasDoubleStar(s: seq<byte>) {
    exists k :: 0 <= k < |s| - 1 && s[k] == '*' as int && s[k + 1] == '*' as int
  }

  /** `containsSpecialGlobChar`: is one of `* ? [ ]` in the C-string text? */
  method ContainsSpecialGlobChar(s: seq<byte>) returns (b: bool)
    ensures b <==> HasGlobChar(CStr(s))
  {
    var i := 0;
    while i < |s| && s[i] != 0
      invariant 0 <= i <= |s|
      invariant forall k :: 0 <= k < i ==> s[k] != 0 && !IsGlobChar(s[k])
    {
      var c := s[i];
      BeforeNul(s, i);
      i := i + 1;
      if IsGlobChar(c) {
        return true;
      }
    }
    StopsAt(s, i);
    return false;
  }

  /**
   * `containsSpecialRecursiveGlobChar`: is there a `*` followed by another
   * `*` in the C-string text? The byte after the last one is the terminator.
   */
  method ContainsSpecialRecursiveGlobChar(s: seq<byte>) returns (b: bool)
    ensures b <==> HasDoubleStar(CStr(s))
  {
    var i := 0;
    while i < |s| && s[i] != 0
      invariant 0 <= i <= |s|
      invariant forall k :: 0 <= k < i ==> s[k] != 0
      invariant forall k :: 0 <= k < i && k + 1 < |s| && s[k + 1] != 0 ==> !(s[k] == '*' as int && s[k + 1] == '*' as int)
    {
      var c := s[i];
      i := i + 1;
      var next := if i < |s| then s[i] else 0;
      if c == '*' as int && next == '*' as int {
        BeforeNul(s, i);
        return true;
      }
    }
    StopsAt(s, i);
    return false;
  }

  /** The nearest of `p`, its parent, its grandparent, ... whose text has no glob character, or the empty path. */
  function BasePath(p: Path): (r: Path)
    ensures r <= p
    decreases |p|
  {
    if p == [] || !HasGlobChar(CStr(Text(p))) then p else BasePath(p[..|p| - 1])
  }

  /** The base path is glob-free (or empty), and every longer ancestor has a glob character. */
  lemma {:induction false} BasePathNearest(p: Path)
    ensures BasePath(p) == [] || !HasGlobChar(CStr(Text(BasePath(p))))
    ensures forall n :: |BasePath(p)| < n <= |p| ==> HasGlobChar(CStr(Text(p[..n])))
    decreases |p|
  {
    if p != [] && HasGlobChar(CStr(Text(p))) {
      var q := p[..|p| - 1];
      BasePathNearest(q);
      forall n | |BasePath(p)| < n <= |p|
        ensures HasGlobChar(CStr(Text(p[..n])))
      {
        if n < |p| {
          assert p[..n] == q[..n];
        } else {
          assert p[..n] == p;
        }
      }
    }
  }

  /** `findBasePath`: climb to the parent while the text has a glob character. */
  method FindBasePath(path: Path) returns (base: Path)
    ensures base == BasePath(path)
  {
    var p := path;
    while p != []
      invariant BasePath(p) == BasePath(path)
      decreases |p|
    {
      var special := ContainsSpecialGlobChar(Text(p));
      if !special {
        return p;
      }
      p := p[..|p| - 1];
    }
    return p;
  }

  /** Joining two non-empty paths puts one `/` between their joined components. */
  lemma {:induction false} JoinAppend(a: Path, b: Path)
    requires a != [] && b != []
    ensures Join(a + b) == Join(a) + [Slash] + Join(b)
    decreases |b|
  {
    var ab, init, last := a + b, b[..|b| - 1], b[|b| - 1];
    assert ab[..|ab| - 1] == a + init && ab[|ab| - 1] == last;
    assert Join(ab) == Join(a + init) + [Slash] + last;
    if |b| > 1 {
      JoinAppend(a, init);
      assert Join(b) == Join(init) + [Slash] + last;
      JoinAssoc(Join(a), Join(init), last);
    } else {
      assert init == [] && Join(b) == last;
    }
  }

  lemma JoinAssoc(x: seq<byte>, y: seq<byte>, z: seq<byte>)
    ensures x + [Slash] + y + [Slash] + z == x + [Slash] + (y + [Slash] + z)
  {
  }

  /** No `**` straddles a text without `*` and the separator after it. */
  lemma DoubleStarAfter(x: seq<byte>, y: seq<byte>)
    requires !HasGlobChar(x)
    ensures HasDoubleStar(x + [Slash] + y) <==> HasDoubleStar(y)
  {
    var xy := x + [Slash] + y;
    var d := |x| + 1;
    if HasDoubleStar(xy) {
      var k :| 0 <= k < |xy| - 1 && xy[k] == '*' as int && xy[k + 1] == '*' as int;
      if k < |x| {
        assert IsGlobChar(x[k]);
      }
      assert y[k - d] == xy[k] && y[k - d + 1] == xy[k + 1];
    }
    if HasDoubleStar(y) {
      var k :| 0 <= k < |y| - 1 && y[k] == '*' as int && y[k + 1] == '*' as int;
      assert xy[k + d] == y[k] && xy[k + d + 1] == y[k + 1];
    }
  }

  /** A NUL-free joined path splits into NUL-free joins of its two parts. */
  lemma SplitNulFree(base: Path, rest: Path)
    requires base != [] && rest != []
    requires NulFree(Join(base + rest))
    ensures Join(base + rest) == Join(base) + [Slash] + Join(rest)
    ensures NulFree(Join(base)) && NulFree(Join(rest))
  {
    JoinAppend(base, rest);
    var tb, tr, t := Join(base), Join(rest), Join(base + rest);
    forall k | 0 <= k < |tb| ensures tb[k] != 0 {
      assert tb[k] == t[k];
    }
    forall k | 0 <= k < |tr| ensures tr[k] != 0 {
      assert tr[k] == t[k + |tb| + 1];
    }
  }

  /** The text of a path and its joined components differ at most by a lone `/`, which is no `*`. */
  lemma TextJoinStars(p: Path)
    ensures NulFree(Text(p)) <==> NulFree(Join(p))
    ensures HasDoubleStar(Text(p)) <==> HasDoubleStar(Join(p))
  {
    if p == [[]] {
      assert Join(p) == [] && Text(p) == [Slash];
    }
  }

  /** A text without glob characters has no `**`. */
  lemma NoGlobNoDoubleStar(s: seq<byte>)
    requires !HasGlobChar(s)
    ensures !HasDoubleStar(s)
  {
  }

  /**
   * For a path whose text has no NUL, the part below the base path contains
   * `**` exactly when the whole pattern does: the base contributes no `*`.
   */
  lemma RecursiveIffDoubleStar(path: Path)
    requires NulFree(Text(path))
    ensures HasDoubleStar(CStr(Text(path[|BasePath(path)|..]))) <==> HasDoubleStar(Text(path))
  {
    var base := BasePath(path);
    var rest := path[|base|..];
    BasePathNearest(path);
    assert path == base + rest;
    TextJoinStars(path);
    TextJoinStars(rest);
    if base == [] {
      CStrOfNulFree(Text(path));
    } else if rest == [] {
      CStrOfNulFree(Text(path));
      NoGlobNoDoubleStar(Text(path));
    } else {
      SplitNulFree(base, rest);
      TextJoinStars(base);
      CStrOfNulFree(Text(base));
      CStrOfNulFree(Text(rest));
      if base == [[]] {
        assert Join(base) == [];
      } else {
        assert Text(base) == Join(base);
      }
      DoubleStarAfter(Join(base), Join(rest));
    }
  }

  /** The first component of a path is a prefix of its joined components, and so of its text. */
  lemma {:induction false} FirstComponentLeads(p: Path)
    requires p != []
    ensures p[0] <= Join(p) && p[0] <= Text(p)
    decreases |p|
  {
    if |p| > 1 {
      var init := p[..|p| - 1];
      FirstComponentLeads(init);
      assert init[0] == p[0];
    }
  }

  /** A glob character before the first NUL of a prefix is one before the first NUL of the whole text. */
  lemma GlobInPrefix(a: seq<byte>, s: seq<byte>)
    requires a <= s && HasGlobChar(CStr(a))
    ensures HasGlobChar(CStr(s))
  {
    var ca := CStr(a);
    var k :| 0 <= k < |ca| && IsGlobChar(ca[k]);
    assert forall j :: 0 <= j <= k ==> s[j] == ca[j] && ca[j] != 0;
    BeforeNul(s, k);
  }

  /**
   * The base path is empty exactly when the first component of the pattern
   * path already has a glob character (`*.txt`, `[ab]/x`): every ancestor
   * then has one too, so such a pattern, if it translates, always ends in
   * `BadBasePath`.
   */
  lemma BasePathEmpty(p: Path)
    requires p != []
    ensures BasePath(p) == [] <==> HasGlobChar(CStr(p[0]))
  {
    BasePathNearest(p);
    assert p[..1] == [p[0]];
    if p[0] == [] {
      assert Text([p[0]]) == [Slash] && CStr([Slash]) == [Slash];
    } else {
      assert Text([p[0]]) == p[0];
    }
    if HasGlobChar(CStr(p[0])) {
      forall n | 1 <= n <= |p|
        ensures HasGlobChar(CStr(Text(p[..n])))
      {
        FirstComponentLeads(p[..n]);
        GlobInPrefix(p[0], Text(p[..n]));
      }
      BasePathNone(p);
    }
  }

  /** When every non-empty ancestor has a glob character, the climb reaches the empty path. */
  lemma {:induction false} BasePathNone(p: Path)
    requires forall n :: 1 <= n <= |p| ==> HasGlobChar(CStr(Text(p[..n])))
    ensures BasePath(p) == []
    decreases |p|
  {
    if p != [] {
      assert p[..|p|] == p;
      var q := p[..|p| - 1];
      forall n | 1 <= n <= |q|
        ensures HasGlobChar(CStr(Text(q[..n])))
      {
        assert q[..n] == p[..n];
      }
      BasePathNone(q);
    }
  }

  /**
   * The pattern `/` alone: its text is `/`, which translates to the regex
   * `/`, and it is its own base path, so the walk goes on when the root exists.
   */
  lemma RootPattern()
    ensures Translate(CStr(Text([[]]))) == Success("/")
    ensures BasePath([[]]) == [[]]
  {
    var root: seq<byte> := [Slash];
    assert Text([[]]) == root && CStr(root) == root;
    assert root[1..] == [] && Scan([]) == Success([]);
    assert !IsRegexMeta(Slash) && RegexEscape(Slash) == "/";
    assert "/" + [] == "/";
    assert Translate(root) == Success("/");
    assert !HasGlobChar(root);
  }

  datatype Traversal = Recursive | Flat

  /**
   * The decisions `dirWalk_` takes before it touches a directory entry:
   * translate the pattern text (cut at its first NUL, as the `const char*`
   * it is passed as), fail with the translator's error; find the base
   * path; fail with `BadBasePath` if it does not exist; pick recursive or
   * flat traversal from the rest of the pattern below the base.
   * Whether a non-empty path exists is the parameter `baseExists`; the
   * empty path never exists.
   */
  method PrepareWalk(globPatternPath: Path, baseExists: Path -> bool)
    returns (errc: Errc, regex: seq<char>, base: Path, mode: Traversal)
    ensures var t := Translate(CStr(Text(globPatternPath)));
      var b := BasePath(globPatternPath);
      && (t.Failure? ==> errc == t.error)
      && (t.Success? && (b == [] || !baseExists(b)) ==> errc == BadBasePath)
      && (t.Success? && b != [] && baseExists(b) ==>
            && errc == Ok
            && regex == t.value
            && base == b
            && (mode == Recursive <==> HasDoubleStar(CStr(Text(globPatternPath[|base|..])))))
  {
    base, mode := [], Flat;
    regex, errc := TranslateGlobPatternToRegex(CStr(Text(globPatternPath)));
    if Any(errc) {
      return;
    }
    base := FindBasePath(globPatternPath);
    var globPath := globPatternPath[|base|..];
    var found := base != [] && baseExists(base);
    if !found {
      errc := BadBasePath;
      return;
    }
    var recursive := ContainsSpecialRecursiveGlobChar(Text(globPath));
    mode := if recursive then Recursive else Flat;
  }
}
