/**
 * The configuration side of the pseudo-gitattributes example: a line is
 * split into blank-separated elements by a two-state scanner with a
 * backslash escape; the lines that yield elements form the configuration;
 * each row's first element is turned into a rule pattern (a pattern without
 * `/` may match at any depth, a leading `/` anchors it at the base); and a
 * file gets the index of the last rule whose pattern matches it.
 */
module PseudoGitattributes {
  import opened Bytes
  import opened GlobToRegex

  // The three byte classes of the scanner are disjoint: an unescaped byte
  // is a backslash, an end of line, a blank, or none of these.

  /** `isBlank`: tab or space. */
  function IsBlank(c: byte): (b: bool)
    ensures b ==> !IsEol(c) && !IsEscape(c)
  {
    c == '\t' as int || c == ' ' as int
  }

  /** `isEol`: the C-string terminator, `#` (a comment), CR or LF. */
  function IsEol(c: byte): (b: bool)
    ensures b ==> !IsEscape(c)
    ensures c == 0 ==> b
  {
    c == 0 || c == '#' as int || c == '\r' as int || c == '\n' as int
  }

  /** `isEscape`: the backslash. */
  function IsEscape(c: byte): (b: bool)
    ensures b ==> c != 0
  {
    c == '\\' as int
  }

  datatype State = SkipBlank | InString

  /**
   * The variables of `splitLine` between two bytes: the state, the element
   * being built, the escape flag, the elements pushed so far, and whether
   * the loop has left through `break`.
   */
  datatype Splitter = Splitter(s: State, t: seq<byte>, escape: bool, elements: seq<seq<byte>>, stopped: bool)

  const Start := Splitter(SkipBlank, [], false, [], false)

  /** One turn of the `for` loop of `splitLine` on the byte `c`. */
  function Step(z: Splitter, c: byte): Splitter {
    if z.stopped then z
    else if z.escape then z.(t := z.t + [c], escape := false)
    else if IsEscape(c) then z.(escape := true)
    else if IsEol(c) then z.(stopped := true)
    else if z.s == SkipBlank then
      if IsBlank(c) then z else z.(t := z.t + [c], s := InString)
    else if !IsBlank(c) then z.(t := z.t + [c])
    else z.(elements := z.elements + [z.t], t := [], s := SkipBlank)
  }

  /** The loop run over the bytes `cs`, one `Step` per byte. */
  function Run(z: Splitter, cs: seq<byte>): Splitter
    decreases |cs|
  {
    if cs == [] then z else Run(Step(z, cs[0]), cs[1..])
  }

  /** After the loop: an element still being built is pushed. */
  function Finish(z: Splitter): seq<seq<byte>> {
    if z.s == InString && z.t != [] then z.elements + [z.t] else z.elements
  }

  /** What `splitLine` returns for the C string `line`. */
  function Split(line: seq<byte>): seq<seq<byte>> {
    Finish(Run(Start, CStr(line)))
  }

  /** `splitLine`, with its `for(p = 0; line[p]; ++p)` loop. */
  method SplitLine(line: seq<byte>) returns (elements: seq<seq<byte>>)
    ensures elements == Split(line)
  {
    var s := SkipBlank;
    var t: seq<byte> := [];
    var escape := false;
    elements := [];
    var p := 0;
    while p < |line| && line[p] != 0
      invariant 0 <= p <= |line|
      invariant forall k :: 0 <= k < p ==> line[k] != 0
      invariant p <= |CStr(line)|
      invariant Run(Start, CStr(line)) == Run(Splitter(s, t, escape, elements, false), CStr(line)[p..])
    {
      var c := line[p];
      BeforeNul(line, p);
      ghost var z := Splitter(s, t, escape, elements, false);
      assert CStr(line)[p..][1..] == CStr(line)[p + 1..];
      assert Run(z, CStr(line)[p..]) == Run(Step(z, c), CStr(line)[p + 1..]);
      if escape {
        t := t + [c];
        escape := false;
        p := p + 1;
        continue;
      }
      if IsEscape(c) {
        escape := true;
        p := p + 1;
        continue;
      }
      if IsEol(c) {
        RunStopped(Step(z, c), CStr(line)[p + 1..]);
        break;
      }
      if s == SkipBlank {
        if IsBlank(c) {
          p := p + 1;
          continue;
        }
        t := t + [c];
        s := InString;
      } else {
        if !IsBlank(c) {
          t := t + [c];
          p := p + 1;
          continue;
        }
        elements := elements + [t];
        t := [];
        s := SkipBlank;
      }
      p := p + 1;
    }
    if p == |line| || line[p] == 0 {
      StopsAt(line, p);
      assert CStr(line)[p..] == [];
    }
    if s == InString && t != [] {
      elements := elements + [t];
    }
  }

  /** After `break`, the remaining bytes change nothing. */
  lemma {:induction false} RunStopped(z: Splitter, cs: seq<byte>)
    requires z.stopped
    ensures Run(z, cs) == z
    decreases |cs|
  {
    if cs != [] {
      RunStopped(z, cs[1..]);
    }
  }

  /** Running over `a + b` is running over `a`, then over `b`. */
  lemma {:induction false} RunAppend(z: Splitter, a: seq<byte>, b: seq<byte>)
    ensures Run(z, a + b) == Run(Run(z, a), b)
    decreases |a|
  {
    if a != [] {
      assert (a + b)[0] == a[0] && (a + b)[1..] == a[1..] + b;
      RunAppend(Step(z, a[0]), a[1..], b);
    } else {
      assert a + b == b;
    }
  }

  /**
   * What holds of the scanner between any two bytes of a line: pushed
   * elements are non-empty and NUL-free, and `InString` is only entered
   * with a non-empty element.
   */
  predicate Sound(z: Splitter) {
    && (forall k :: 0 <= k < |z.elements| ==> z.elements[k] != [] && NulFree(z.elements[k]))
    && NulFree(z.t)
    && (z.s == InString ==> z.t != [])
  }

  lemma {:induction false} RunSound(z: Splitter, cs: seq<byte>)
    requires Sound(z) && NulFree(cs)
    ensures Sound(Run(z, cs))
    decreases |cs|
  {
    if cs != [] {
      var z' := Step(z, cs[0]);
      assert Sound(z');
      RunSound(z', cs[1..]);
    }
  }

  /** Every element `splitLine` returns is non-empty and has no NUL. */
  lemma SplitElementsNonEmpty(line: seq<byte>)
    ensures forall k :: 0 <= k < |Split(line)| ==> Split(line)[k] != [] && NulFree(Split(line)[k])
  {
    RunSound(Start, CStr(line));
  }

  /**
   * An unescaped end-of-line byte (`#`, CR, LF or NUL) ends the line: the
   * bytes after it contribute nothing.
   */
  lemma StopAtEol(a: seq<byte>, e: byte, b: seq<byte>)
    requires NulFree(a) && IsEol(e)
    requires !Run(Start, a).escape
    ensures Split(a + [e] + b) == Finish(Run(Start, a))
  {
    var z := Run(Start, a);
    if e == 0 {
      CStrAppend(a, [e] + b);
      assert a + [e] + b == a + ([e] + b);
      assert CStr(a + [e] + b) == a;
    } else {
      CStrAppend(a, [e] + b);
      assert a + [e] + b == a + ([e] + b);
      var rest := CStr([e] + b);
      assert rest == [e] + CStr(b);
      RunAppend(Start, a, rest);
      assert rest[1..] == CStr(b);
      if z.stopped {
        RunStopped(z, rest);
      } else {
        RunStopped(Step(z, e), rest[1..]);
      }
    }
  }

  /** A lone backslash at the end of a line adds nothing. */
  lemma TrailingBackslash(a: seq<byte>)
    requires NulFree(a)
    requires !Run(Start, a).escape
    ensures Split(a + ['\\' as int]) == Split(a)
  {
    var bs: seq<byte> := ['\\' as int];
    assert bs[1..] == [];
    CStrAppend(a, bs);
    CStrOfNulFree(a);
    assert CStr(bs) == bs;
    RunAppend(Start, a, bs);
    var z := Run(Start, a);
    assert Run(z, bs) == Step(z, bs[0]);
  }

  /** A backslash is dropped and the byte after it is appended as it is, whatever it is. */
  lemma EscapeAppends(z: Splitter, c: byte)
    requires !z.stopped && !z.escape
    ensures Run(z, ['\\' as int, c]) == z.(t := z.t + [c])
  {
    var cs: seq<byte> := ['\\' as int, c];
    assert cs[1..] == [c] && [c][1..] == [];
    var y := Step(z, '\\' as int);
    assert y == z.(escape := true);
    assert Run(z, cs) == Run(y, [c]);
    assert Run(y, [c]) == Step(y, c);
  }

  // An independent splitter for lines without backslashes.

  predicate NoBackslash(s: seq<byte>) {
    forall k :: 0 <= k < |s| ==> !IsEscape(s[k])
  }

  /** The line up to its first end-of-line byte. */
  function BeforeEol(s: seq<byte>): (r: seq<byte>)
    ensures r <= s
    ensures forall k :: 0 <= k < |r| ==> !IsEol(r[k])
    ensures |r| < |s| ==> IsEol(s[|r|])
  {
    if s == [] || IsEol(s[0]) then [] else [s[0]] + BeforeEol(s[1..])
  }

  /** The longest blank-free prefix. */
  function NonBlankRun(s: seq<byte>): (r: seq<byte>)
    ensures r <= s
    ensures forall k :: 0 <= k < |r| ==> !IsBlank(r[k])
    ensures |r| < |s| ==> IsBlank(s[|r|])
  {
    if s == [] || IsBlank(s[0]) then [] else [s[0]] + NonBlankRun(s[1..])
  }

  /** The maximal blank-free runs of `s`, in order. */
  function Words(s: seq<byte>): seq<seq<byte>>
    decreases |s|
  {
    if s == [] then []
    else if IsBlank(s[0]) then Words(s[1..])
    else
      var w := NonBlankRun(s);
      [w] + Words(s[|w|..])
  }

  predicate IsWord(w: seq<byte>) {
    w != [] && forall j :: 0 <= j < |w| ==> !IsBlank(w[j])
  }

  /** Every word is non-empty and has no blank. */
  lemma {:induction false} WordsAreWords(s: seq<byte>)
    ensures forall k :: 0 <= k < |Words(s)| ==> IsWord(Words(s)[k])
    decreases |s|
  {
    if s != [] {
      if IsBlank(s[0]) {
        WordsAreWords(s[1..]);
      } else {
        var w := NonBlankRun(s);
        WordsAreWords(s[|w|..]);
        assert IsWord(w);
      }
    }
  }

  /** `x` glued to the front of the first word; nothing when there is no word. */
  function Glue(x: seq<byte>, ws: seq<seq<byte>>): seq<seq<byte>> {
    if ws == [] then [] else [x + ws[0]] + ws[1..]
  }

  /** A leading blank is skipped. */
  lemma WordsBlank(c: byte, u: seq<byte>)
    requires IsBlank(c)
    ensures Words([c] + u) == Words(u)
  {
    assert ([c] + u)[1..] == u;
  }

  /** A leading non-blank byte starts the first word. */
  lemma WordsNonBlank(c: byte, u: seq<byte>)
    requires !IsBlank(c)
    ensures var w := NonBlankRun(u); Words([c] + u) == [[c] + w] + Words(u[|w|..])
  {
    var w := NonBlankRun(u);
    NonBlankCons(c, u);
    DropCons(c, u, |w|);
  }

  lemma GlueNothing(ws: seq<seq<byte>>)
    ensures Glue([], ws) == ws
  {
    if ws != [] {
      assert [] + ws[0] == ws[0];
    }
  }

  /** The non-blank case of `RunSkipBlank`: `t` and `c` open the first word. */
  lemma GlueWord(t: seq<byte>, es: seq<seq<byte>>, c: byte, u: seq<byte>)
    requires !IsBlank(c)
    ensures var w := NonBlankRun(u);
      es + [t + [c] + w] + Words(u[|w|..]) == es + Glue(t, Words([c] + u))
  {
    var w := NonBlankRun(u);
    WordsNonBlank(c, u);
    GlueCons(t, es, [c] + w, Words(u[|w|..]));
    assert t + [c] + w == t + ([c] + w);
  }

  lemma GlueCons(t: seq<byte>, es: seq<seq<byte>>, x: seq<byte>, ws: seq<seq<byte>>)
    ensures es + [t + x] + ws == es + Glue(t, [x] + ws)
  {
    assert ([x] + ws)[0] == x && ([x] + ws)[1..] == ws;
  }

  /** The non-blank case of `RunInString`: `c` extends the current word. */
  lemma ExtendWord(t: seq<byte>, c: byte, u: seq<byte>)
    requires !IsBlank(c)
    ensures var w := NonBlankRun(u);
      && t + [c] + w == t + NonBlankRun([c] + u)
      && ([c] + u)[|NonBlankRun([c] + u)|..] == u[|w|..]
  {
    var w := NonBlankRun(u);
    NonBlankCons(c, u);
    assert t + [c] + w == t + ([c] + w);
    DropCons(c, u, |w|);
  }

  lemma NonBlankCons(c: byte, u: seq<byte>)
    requires !IsBlank(c)
    ensures NonBlankRun([c] + u) == [c] + NonBlankRun(u)
  {
    assert ([c] + u)[1..] == u;
  }

  lemma DropCons(c: byte, u: seq<byte>, k: nat)
    requires k <= |u|
    ensures ([c] + u)[1 + k..] == u[k..]
  {
  }

  /**
   * In `SkipBlank`, with `t` already collected (from escapes), the rest of a
   * backslash-free line yields its words, with `t` glued to the first one.
   */
  lemma {:induction false} RunSkipBlank(t: seq<byte>, es: seq<seq<byte>>, s: seq<byte>)
    requires NoBackslash(s)
    ensures Finish(Run(Splitter(SkipBlank, t, false, es, false), s)) == es + Glue(t, Words(BeforeEol(s)))
    decreases |s|, 1
  {
    var z := Splitter(SkipBlank, t, false, es, false);
    if s == [] {
    } else if IsEol(s[0]) {
      RunStopped(Step(z, s[0]), s[1..]);
    } else if IsBlank(s[0]) {
      RunSkipBlank(t, es, s[1..]);
      WordsBlank(s[0], BeforeEol(s[1..]));
    } else {
      RunInString(t + [s[0]], es, s[1..]);
      GlueWord(t, es, s[0], BeforeEol(s[1..]));
    }
  }

  /**
   * In `InString` with element `t`, the rest of a backslash-free line first
   * extends `t` to the next blank, then yields its words.
   */
  lemma {:induction false} RunInString(t: seq<byte>, es: seq<seq<byte>>, s: seq<byte>)
    requires NoBackslash(s) && t != []
    ensures
      var u := BeforeEol(s);
      Finish(Run(Splitter(InString, t, false, es, false), s))
        == es + [t + NonBlankRun(u)] + Words(u[|NonBlankRun(u)|..])
    decreases |s|, 0
  {
    var z := Splitter(InString, t, false, es, false);
    if s == [] {
      assert t + [] == t;
    } else if IsEol(s[0]) {
      RunStopped(Step(z, s[0]), s[1..]);
      assert t + [] == t;
    } else if IsBlank(s[0]) {
      RunSkipBlank([], es + [t], s[1..]);
      GlueNothing(Words(BeforeEol(s[1..])));
      WordsBlank(s[0], BeforeEol(s[1..]));
      assert t + [] == t;
    } else {
      RunInString(t + [s[0]], es, s[1..]);
      ExtendWord(t, s[0], BeforeEol(s[1..]));
    }
  }

  /** The end of a line comes no later in its C-string view. */
  lemma {:induction false} BeforeEolCStr(s: seq<byte>)
    ensures BeforeEol(CStr(s)) == BeforeEol(s)
    decreases |s|
  {
    if s != [] && s[0] != 0 {
      BeforeEolCStr(s[1..]);
    }
  }

  /**
   * A line without backslashes splits into the blank-free runs of its text
   * before the first `#`, CR, LF or NUL.
   */
  lemma SplitPlainLine(line: seq<byte>)
    requires NoBackslash(line)
    ensures Split(line) == Words(BeforeEol(line))
  {
    RunSkipBlank([], [], CStr(line));
    BeforeEolCStr(line);
    GlueNothing(Words(BeforeEol(line)));
  }

  /**
   * An escaped byte before the first element does not start an element: it
   * is glued to the front of the next word, or dropped if none follows.
   */
  lemma EscapedLead(c: byte, rest: seq<byte>)
    requires c != 0 && NoBackslash(rest)
    ensures Split(['\\' as int, c] + rest) == Glue([c], Words(BeforeEol(rest)))
  {
    var lead: seq<byte> := ['\\' as int, c];
    CStrAppend(lead, rest);
    RunAppend(Start, lead, CStr(rest));
    EscapeAppends(Start, c);
    assert Run(Start, lead) == Splitter(SkipBlank, [c], false, [], false);
    RunSkipBlank([c], [], CStr(rest));
    BeforeEolCStr(rest);
    var ws := Glue([c], Words(BeforeEol(rest)));
    assert [] + ws == ws;
  }

  // An independent splitter for any line, escapes included.

  /** A byte of the line after escape processing, and whether a backslash escaped it. */
  datatype Mark = Mark(b: byte, escaped: bool)

  /**
   * The line as marked bytes, up to its first unescaped end-of-line byte:
   * `\c` is the escaped `c`, a final lone `\` is dropped.
   */
  function Marked(cs: seq<byte>): seq<Mark>
    decreases |cs|
  {
    if cs == [] then []
    else if IsEscape(cs[0]) then
      if |cs| == 1 then [] else [Mark(cs[1], true)] + Marked(cs[2..])
    else if IsEol(cs[0]) then []
    else [Mark(cs[0], false)] + Marked(cs[1..])
  }

  predicate Separates(m: Mark) { !m.escaped && IsBlank(m.b) }

  /** The longest prefix without an unescaped blank. */
  function WordMarks(m: seq<Mark>): (r: seq<Mark>)
    ensures r <= m
    ensures m != [] && !Separates(m[0]) ==> r != []
    decreases |m|
  {
    if m == [] || Separates(m[0]) then [] else [m[0]] + WordMarks(m[1..])
  }

  function Unmark(m: seq<Mark>): seq<byte> {
    if m == [] then [] else [m[0].b] + Unmark(m[1..])
  }

  /**
   * The elements of a marked line: unescaped blanks separate them; a word
   * starts at an unescaped non-blank byte and runs to the next unescaped
   * blank; escaped bytes met between words are collected in `pending` and
   * put in front of the next word, or lost when no word follows.
   */
  function Tokens(m: seq<Mark>, pending: seq<byte>): seq<seq<byte>>
    decreases |m|
  {
    if m == [] then []
    else if Separates(m[0]) then Tokens(m[1..], pending)
    else if m[0].escaped then Tokens(m[1..], pending + [m[0].b])
    else
      var w := WordMarks(m);
      [pending + Unmark(w)] + Tokens(m[|w|..], [])
  }

  /** The element that is being built, `t`, completed by the rest of its word, then the words after it. */
  function Continue(t: seq<byte>, m: seq<Mark>): seq<seq<byte>> {
    var w := WordMarks(m);
    [t + Unmark(w)] + Tokens(m[|w|..], [])
  }

  lemma WordMarksCons(x: Mark, m: seq<Mark>)
    requires !Separates(x)
    ensures WordMarks([x] + m) == [x] + WordMarks(m)
    ensures Unmark([x] + WordMarks(m)) == [x.b] + Unmark(WordMarks(m))
    ensures ([x] + m)[|WordMarks([x] + m)|..] == m[|WordMarks(m)|..]
  {
    assert ([x] + m)[1..] == m;
    assert ([x] + WordMarks(m))[1..] == WordMarks(m);
  }

  /** A byte that does not separate extends the element being built. */
  lemma ContinueCons(t: seq<byte>, x: Mark, m: seq<Mark>)
    requires !Separates(x)
    ensures Continue(t, [x] + m) == Continue(t + [x.b], m)
  {
    WordMarksCons(x, m);
    var u := Unmark(WordMarks(m));
    assert t + ([x.b] + u) == t + [x.b] + u;
  }

  /** An unescaped non-blank byte between words starts a word. */
  lemma TokensStart(t: seq<byte>, x: Mark, m: seq<Mark>)
    requires !x.escaped && !IsBlank(x.b)
    ensures Tokens([x] + m, t) == Continue(t + [x.b], m)
  {
    WordMarksCons(x, m);
    ContinueCons(t, x, m);
  }

  lemma TokensSkip(t: seq<byte>, x: Mark, m: seq<Mark>)
    ensures Separates(x) ==> Tokens([x] + m, t) == Tokens(m, t)
    ensures x.escaped ==> Tokens([x] + m, t) == Tokens(m, t + [x.b])
  {
    assert ([x] + m)[1..] == m;
  }

  /** A blank right after an element ends it. */
  lemma ContinueBlank(t: seq<byte>, x: Mark, m: seq<Mark>)
    requires Separates(x)
    ensures Continue(t, [x] + m) == [t] + Tokens(m, [])
  {
    assert WordMarks([x] + m) == [] && ([x] + m)[0..] == [x] + m;
    assert t + [] == t;
    TokensSkip([], x, m);
  }

  lemma ContinueEnd(t: seq<byte>)
    ensures Continue(t, []) == [t]
  {
    assert t + [] == t;
  }

  /** Two bytes `\c` are one escaped mark; one byte is marked or ends the line. */
  lemma MarkedCons(cs: seq<byte>)
    requires cs != []
    ensures IsEscape(cs[0]) && |cs| >= 2 ==> Marked(cs) == [Mark(cs[1], true)] + Marked(cs[2..])
    ensures !IsEscape(cs[0]) && !IsEol(cs[0]) ==> Marked(cs) == [Mark(cs[0], false)] + Marked(cs[1..])
  {
  }

  /** The scanner in `SkipBlank` with collected bytes `t` yields the tokens of the marked rest, `t` pending. */
  lemma {:induction false} RunSkipBlankMarked(t: seq<byte>, es: seq<seq<byte>>, cs: seq<byte>)
    ensures Finish(Run(Splitter(SkipBlank, t, false, es, false), cs)) == es + Tokens(Marked(cs), t)
    decreases |cs|, 1
  {
    var z := Splitter(SkipBlank, t, false, es, false);
    if cs == [] {
      assert es + [] == es;
    } else if IsEscape(cs[0]) {
      var z1 := Step(z, cs[0]);
      if |cs| == 1 {
        assert es + [] == es;
      } else {
        MarkedCons(cs);
        assert cs[1..][1..] == cs[2..] && cs[1..][0] == cs[1];
        assert Run(z, cs) == Run(Step(z1, cs[1]), cs[2..]);
        RunSkipBlankMarked(t + [cs[1]], es, cs[2..]);
        TokensSkip(t, Mark(cs[1], true), Marked(cs[2..]));
      }
    } else if IsEol(cs[0]) {
      RunStopped(Step(z, cs[0]), cs[1..]);
      assert es + [] == es;
    } else {
      MarkedCons(cs);
      if IsBlank(cs[0]) {
        RunSkipBlankMarked(t, es, cs[1..]);
        TokensSkip(t, Mark(cs[0], false), Marked(cs[1..]));
      } else {
        RunInStringMarked(t + [cs[0]], es, cs[1..]);
        TokensStart(t, Mark(cs[0], false), Marked(cs[1..]));
      }
    }
  }

  /** The scanner in `InString` with element `t` completes it, then yields the tokens of the rest. */
  lemma {:induction false} RunInStringMarked(t: seq<byte>, es: seq<seq<byte>>, cs: seq<byte>)
    requires t != []
    ensures Finish(Run(Splitter(InString, t, false, es, false), cs)) == es + Continue(t, Marked(cs))
    decreases |cs|, 0
  {
    var z := Splitter(InString, t, false, es, false);
    if cs == [] {
      ContinueEnd(t);
    } else if IsEscape(cs[0]) {
      var z1 := Step(z, cs[0]);
      if |cs| == 1 {
        ContinueEnd(t);
      } else {
        MarkedCons(cs);
        assert cs[1..][1..] == cs[2..] && cs[1..][0] == cs[1];
        assert Run(z, cs) == Run(Step(z1, cs[1]), cs[2..]);
        RunInStringMarked(t + [cs[1]], es, cs[2..]);
        ContinueCons(t, Mark(cs[1], true), Marked(cs[2..]));
      }
    } else if IsEol(cs[0]) {
      RunStopped(Step(z, cs[0]), cs[1..]);
      ContinueEnd(t);
    } else {
      MarkedCons(cs);
      if IsBlank(cs[0]) {
        RunSkipBlankMarked([], es + [t], cs[1..]);
        ContinueBlank(t, Mark(cs[0], false), Marked(cs[1..]));
        assert es + [t] + Tokens(Marked(cs[1..]), []) == es + ([t] + Tokens(Marked(cs[1..]), []));
      } else {
        RunInStringMarked(t + [cs[0]], es, cs[1..]);
        ContinueCons(t, Mark(cs[0], false), Marked(cs[1..]));
      }
    }
  }

  /**
   * Every line splits like the independent description: the words of its
   * marked C-string text, separated by unescaped blanks.
   */
  lemma SplitMarked(line: seq<byte>)
    ensures Split(line) == Tokens(Marked(CStr(line)), [])
  {
    RunSkipBlankMarked([], [], CStr(line));
    assert [] + Tokens(Marked(CStr(line)), []) == Tokens(Marked(CStr(line)), []);
  }

  // Reading the configuration.

  /** The rows `readConfigStream` keeps for the lines `getline` yields: the non-empty splits, in order. */
  function Config(lines: seq<seq<byte>>): seq<seq<seq<byte>>>
    decreases |lines|
  {
    if lines == [] then []
    else
      var e := Split(lines[|lines| - 1]);
      Config(lines[..|lines| - 1]) + (if e == [] then [] else [e])
  }

  /** `readConfigStream` over the lines of the stream. */
  method ReadConfigStream(lines: seq<seq<byte>>) returns (config: seq<seq<seq<byte>>>)
    ensures config == Config(lines)
  {
    config := [];
    var i := 0;
    while i < |lines|
      invariant 0 <= i <= |lines|
      invariant config == Config(lines[..i])
    {
      var elements := SplitLine(lines[i]);
      if elements != [] {
        config := config + [elements];
      }
      assert lines[..i + 1][..i] == lines[..i];
      i := i + 1;
    }
    assert lines[..i] == lines;
  }

  /** Reading two runs of lines one after the other concatenates their rows. */
  lemma {:induction false} ConfigAppend(a: seq<seq<byte>>, b: seq<seq<byte>>)
    ensures Config(a + b) == Config(a) + Config(b)
    decreases |b|
  {
    if b == [] {
      assert a + b == a;
    } else {
      var b' := b[..|b| - 1];
      assert (a + b)[..|a + b| - 1] == a + b';
      assert (a + b)[|a + b| - 1] == b[|b| - 1];
      ConfigAppend(a, b');
    }
  }

  /** One line gives one row exactly when its split is non-empty. */
  lemma ConfigLine(line: seq<byte>)
    ensures Config([line]) == if Split(line) == [] then [] else [Split(line)]
  {
    assert [line][..0] == [];
  }

  /** Every row is the non-empty split of one of the lines, so it has a first element. */
  lemma {:induction false} ConfigRows(lines: seq<seq<byte>>)
    ensures forall k :: 0 <= k < |Config(lines)| ==>
      Config(lines)[k] != [] && exists i :: 0 <= i < |lines| && Config(lines)[k] == Split(lines[i])
    decreases |lines|
  {
    if lines != [] {
      var init := lines[..|lines| - 1];
      ConfigRows(init);
      forall k | 0 <= k < |Config(lines)|
        ensures Config(lines)[k] != [] && exists i :: 0 <= i < |lines| && Config(lines)[k] == Split(lines[i])
      {
        if k < |Config(init)| {
          var i :| 0 <= i < |init| && Config(init)[k] == Split(init[i]);
          assert lines[i] == init[i];
        } else {
          assert Config(lines)[k] == Split(lines[|lines| - 1]);
        }
      }
    }
  }

  // Turning rows into rules.


  /** `**` + `/`, prepended to a pattern that has no `/`. */
  const AnyDirsPrefix: seq<byte> := ['*' as int, '*' as int, '/' as int]

  /**
   * The rewriting of a rule pattern in `procConfig`. `&pattern[1]` is read as
   * a C string, so it also stops at a NUL.
   */
  function NormalizePattern(pattern: seq<byte>): (r: seq<byte>)
    ensures r == AnyDirsPrefix + pattern <==> Slash !in pattern
    ensures Slash in pattern ==> |r| <= |pattern|
  {
    if Slash in pattern then
      if pattern[0] == Slash then CStr(pattern[1..]) else pattern
    else AnyDirsPrefix + pattern
  }

  /** The three outcomes of the rewriting, for a pattern without NUL. */
  lemma NormalizeCases(pattern: seq<byte>)
    requires NulFree(pattern)
    ensures Slash !in pattern ==> NormalizePattern(pattern) == AnyDirsPrefix + pattern
    ensures Slash in pattern && pattern[0] == Slash ==> NormalizePattern(pattern) == pattern[1..]
    ensures Slash in pattern && pattern[0] != Slash ==> NormalizePattern(pattern) == pattern
  {
    if Slash in pattern && pattern[0] == Slash {
      CStrOfNulFree(pattern[1..]);
    }
  }

  /**
   * A pattern without `/` becomes one that lets any number of directories
   * come first: its regex is the original one behind `([^/]+/)*`.
   */
  lemma NormalizeAnyDepth(pattern: seq<byte>)
    requires pattern != [] && Slash !in pattern
    ensures Translate(NormalizePattern(pattern)) == Prepend("([^/]+/)*", Translate(pattern))
  {
    var n := NormalizePattern(pattern);
    assert n[0] == '*' as int && Peek(n, 1) == '*' as int && Peek(n, 2) == '/' as int;
    assert n[3..] == pattern;
  }

  /**
   * A leading `/` only anchors the pattern at the base directory: the
   * original pattern's regex is `/` followed by the rewritten one.
   */
  lemma NormalizeAnchored(pattern: seq<byte>)
    requires |pattern| >= 2 && pattern[0] == Slash && NulFree(pattern)
    ensures Translate(pattern) == Prepend("/", Translate(NormalizePattern(pattern)))
  {
    assert Slash in pattern;
    CStrOfNulFree(pattern[1..]);
    assert !IsRegexMeta(Slash) && RegexEscape(Slash) == "/";
  }

  /** The pattern `/` alone is rewritten to the empty pattern, which does not translate. */
  lemma NormalizeRootOnly()
    ensures NormalizePattern([Slash]) == []
    ensures Translate(NormalizePattern([Slash])) == Failure(Empty)
  {
    assert Slash in [Slash];
    assert [Slash][1..] == [];
  }

  datatype Rule = Rule(index: int, globPattern: seq<byte>)

  /** The `rules` loop of `procConfig`: one rule per row, from the row's first element. */
  method BuildRules(config: seq<seq<seq<byte>>>) returns (rules: seq<Rule>)
    requires forall i :: 0 <= i < |config| ==> config[i] != []
    ensures |rules| == |config|
    ensures forall i :: 0 <= i < |config| ==> rules[i] == Rule(i, NormalizePattern(config[i][0]))
  {
    rules := [];
    for i := 0 to |config|
      invariant |rules| == i
      invariant forall j :: 0 <= j < i ==> rules[j] == Rule(j, NormalizePattern(config[j][0]))
    {
      var pattern := config[i][0];
      if Slash in pattern {
        if pattern[0] == Slash {
          pattern := CStr(pattern[1..]);
        }
      } else {
        pattern := AnyDirsPrefix + pattern;
      }
      rules := rules + [Rule(i, pattern)];
    }
  }

  /**
   * The index loop over the rules for one file: -1 when no rule matches,
   * otherwise the last matching one, so later rules win. Whether a rule's
   * pattern matches the file is the parameter `isMatch`.
   */
  method LastMatchedRuleIndex(rules: seq<Rule>, isMatch: Rule -> bool) returns (last: int)
    ensures -1 <= last < |rules|
    ensures last == -1 <==> forall i :: 0 <= i < |rules| ==> !isMatch(rules[i])
    ensures last >= 0 ==> isMatch(rules[last])
    ensures forall i :: last < i < |rules| ==> !isMatch(rules[i])
  {
    last := -1;
    for i := 0 to |rules|
      invariant -1 <= last < i
      invariant last >= 0 ==> isMatch(rules[last])
      invariant forall j :: last < j < i ==> !isMatch(rules[j])
    {
      if isMatch(rules[i]) {
        last := i;
      }
    }
  }
}
