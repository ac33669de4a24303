/**
 * The glob constructs the translator understands, as a token datatype with
 * its canonical glob spelling (`Unparse`) and the regex each construct is
 * meant to become (`Render`). The lemmas here connect the two through the
 * translator: the spelling of any well-formed token sequence translates to
 * the intended regex, and a malformed construct after a well-formed prefix
 * fails with exactly the error the code reports for it.
 */
module GlobTokens {
  import opened Bytes
  import opened GlobToRegex

  datatype Token =
    | Literal(b: byte)                          // one octet, matched as itself
    | AnyChar                                   // `?`
    | Star                                      // `*`
    | AnyPath                                   // `**` at the end of the pattern
    | AnyDirs                                   // `**/`
    | Class(negated: bool, members: seq<byte>)  // `[...]` or `[!...]`

  /** Octets that mean something to the glob scanner and must be escaped to stand for themselves. */
  predicate IsGlobMeta(b: byte) {
    b == '\\' as int || b == '?' as int || b == '*' as int || b == '[' as int
  }

  /** A class member as written inside `[...]`: `]`, `\` and `!` are escaped, everything else is raw. */
  function UnparseMember(b: byte): seq<byte> {
    if b == ']' as int || b == '\\' as int || b == '!' as int then ['\\' as int, b] else [b]
  }

  function UnparseMembers(ms: seq<byte>): seq<byte> {
    if ms == [] then [] else UnparseMember(ms[0]) + UnparseMembers(ms[1..])
  }

  function RenderMembers(ms: seq<byte>): seq<char> {
    if ms == [] then [] else RegexEscape(ms[0]) + RenderMembers(ms[1..])
  }

  /** The `[` or `[!` that opens a class token. */
  function Opening(negated: bool): seq<byte> {
    if negated then ['[' as int, '!' as int] else ['[' as int]
  }

  /** The canonical glob spelling of one token. */
  function UnparseToken(t: Token): seq<byte> {
    match t
    case Literal(b) => if IsGlobMeta(b) then ['\\' as int, b] else [b]
    case AnyChar => ['?' as int]
    case Star => ['*' as int]
    case AnyPath => ['*' as int, '*' as int]
    case AnyDirs => ['*' as int, '*' as int, '/' as int]
    case Class(negated, ms) =>
      Opening(negated) + UnparseMembers(ms) + [']' as int]
  }

  /** The regex each construct stands for. */
  function RenderToken(t: Token): seq<char> {
    match t
    case Literal(b) => RegexEscape(b)
    case AnyChar => "[^/]"
    case Star => "[^/]*"
    case AnyPath => ".*"
    case AnyDirs => "([^/]+/)*"
    case Class(negated, ms) => (if negated then "[^" else "[") + RenderMembers(ms) + "]"
  }

  function Unparse(toks: seq<Token>): seq<byte> {
    if toks == [] then [] else UnparseToken(toks[0]) + Unparse(toks[1..])
  }

  function Render(toks: seq<Token>): seq<char> {
    if toks == [] then [] else RenderToken(toks[0]) + Render(toks[1..])
  }

  predicate StartsWithStar(t: Token) {
    t.Star? || t.AnyPath? || t.AnyDirs?
  }

  /**
   * Token sequences that have a spelling: `**` without `/` only at the end,
   * and no `*` directly before another star construct (the two would read
   * as `**` or `***`).
   */
  predicate WellFormed(toks: seq<Token>) {
    forall k :: 0 <= k < |toks| - 1 ==>
      !toks[k].AnyPath? && (toks[k].Star? ==> !StartsWithStar(toks[k + 1]))
  }

  /** The text `rest` cannot merge with the last token of `toks`. */
  predicate FitsBefore(toks: seq<Token>, rest: seq<byte>) {
    toks != [] ==>
      && (toks[|toks| - 1].AnyPath? ==> rest == [])
      && (toks[|toks| - 1].Star? ==> rest == [] || rest[0] != '*' as int)
  }

  lemma UnparseTokenShape(t: Token)
    ensures UnparseToken(t) != []
    ensures UnparseToken(t)[0] == '*' as int <==> StartsWithStar(t)
  {
  }

  /** One spelled class member is read back as that member. */
  lemma ClassBodyMember(m: byte, tail: seq<byte>)
    ensures ClassBody(UnparseMember(m) + tail) == PrependClass(RegexEscape(m), ClassBody(tail))
  {
    var s := UnparseMember(m) + tail;
    if m == ']' as int || m == '\\' as int || m == '!' as int {
      assert s[0] == '\\' as int && Peek(s, 1) == m && s[2..] == tail;
    } else {
      assert s[0] == m && s[1..] == tail;
    }
  }

  /** The body of a class, as spelled by `UnparseMembers`, is read back member by member. */
  lemma {:induction false} ClassBodyMembers(ms: seq<byte>, rest: seq<byte>)
    ensures ClassBody(UnparseMembers(ms) + rest) == PrependClass(RenderMembers(ms), ClassBody(rest))
    decreases |ms|
  {
    if ms == [] {
      assert UnparseMembers(ms) + rest == rest;
      PrependClassNothing(ClassBody(rest));
    } else {
      var tail := UnparseMembers(ms[1..]) + rest;
      assert UnparseMembers(ms) + rest == UnparseMember(ms[0]) + tail;
      ClassBodyMembers(ms[1..], rest);
      ClassBodyMember(ms[0], tail);
      PrependClassPrependClass(RegexEscape(ms[0]), RenderMembers(ms[1..]), ClassBody(rest));
    }
  }

  /** The class body spelled by `UnparseMembers` and closed by `]` is read up to that `]`. */
  lemma ClassBodyClosed(ms: seq<byte>, rest: seq<byte>)
    ensures ClassBody(UnparseMembers(ms) + ([']' as int] + rest)) == Success((RenderMembers(ms), rest))
  {
    ClassBodyMembers(ms, [']' as int] + rest);
    assert ([']' as int] + rest)[1..] == rest;
    assert RenderMembers(ms) + [] == RenderMembers(ms);
  }

  /** A spelled class body never starts with `!`, so `[` + body is not read as negated. */
  lemma MembersNotBang(ms: seq<byte>, rest: seq<byte>)
    requires UnparseMembers(ms) + rest != []
    requires ms == [] ==> rest[0] != '!' as int
    ensures (UnparseMembers(ms) + rest)[0] != '!' as int
  {
    if ms != [] {
      assert UnparseMembers(ms) == UnparseMember(ms[0]) + UnparseMembers(ms[1..]);
    }
  }

  lemma Regroup(a: seq<byte>, b: seq<byte>, c: seq<byte>, d: seq<byte>)
    ensures a + b + c + d == a + (b + (c + d))
  {
  }

  lemma Regroup5(a: seq<byte>, b: seq<byte>, c: seq<byte>, d: seq<byte>, e: seq<byte>)
    ensures a + b + c + d + e == a + (b + (c + (d + e)))
  {
  }

  /** `[` or `[!` followed by a class body that is not itself read as `!`. */
  lemma ScanOpening(negated: bool, body: seq<byte>, members: seq<char>, rest: seq<byte>)
    requires body != [] && (!negated ==> body[0] != '!' as int)
    requires ClassBody(body) == Success((members, rest))
    ensures Scan(Opening(negated) + body) == Prepend((if negated then "[^" else "[") + members + "]", Scan(rest))
  {
    var s := Opening(negated) + body;
    if negated {
      assert s[2..] == body && Peek(s, 1) == '!' as int;
    } else {
      assert s[1..] == body && Peek(s, 1) == body[0];
    }
    ScanBracket(s, negated, body, members, rest);
  }

  /** A spelled class body, closed and followed by `rest`, after its opening. */
  lemma ScanClassSpelled(negated: bool, ms: seq<byte>, rest: seq<byte>)
    ensures Scan(Opening(negated) + (UnparseMembers(ms) + ([']' as int] + rest)))
         == Prepend((if negated then "[^" else "[") + RenderMembers(ms) + "]", Scan(rest))
  {
    ClassBodyClosed(ms, rest);
    MembersNotBang(ms, [']' as int] + rest);
    ScanOpening(negated, UnparseMembers(ms) + ([']' as int] + rest), RenderMembers(ms), rest);
  }

  /** The spelling of a class token, followed by `rest`, regrouped around its body. */
  lemma SpelledClass(negated: bool, ms: seq<byte>, rest: seq<byte>)
    ensures UnparseToken(Class(negated, ms)) + rest == Opening(negated) + (UnparseMembers(ms) + ([']' as int] + rest))
  {
    assert UnparseToken(Class(negated, ms)) == Opening(negated) + UnparseMembers(ms) + [']' as int];
    Regroup(Opening(negated), UnparseMembers(ms), [']' as int], rest);
  }

  /** A bracket class, `[!` read as negation only when the token is negated. */
  lemma ScanClassToken(negated: bool, ms: seq<byte>, rest: seq<byte>)
    ensures Scan(UnparseToken(Class(negated, ms)) + rest) == Prepend(RenderToken(Class(negated, ms)), Scan(rest))
  {
    SpelledClass(negated, ms, rest);
    ScanClassSpelled(negated, ms, rest);
  }

  /** One token, followed by text it cannot merge with, is translated to its regex. */
  lemma ScanToken(t: Token, rest: seq<byte>)
    requires FitsBefore([t], rest)
    ensures Scan(UnparseToken(t) + rest) == Prepend(RenderToken(t), Scan(rest))
  {
    var s := UnparseToken(t) + rest;
    match t
    case Literal(b) =>
      if IsGlobMeta(b) {
        assert s[0] == '\\' as int && Peek(s, 1) == b && s[2..] == rest;
      } else {
        assert s[0] == b && s[1..] == rest;
      }
    case AnyChar =>
      assert s[1..] == rest;
    case Star =>
      assert s[1..] == rest;
    case AnyPath =>
      assert rest == [] && s == ['*' as int, '*' as int];
      assert Peek(s, 1) == '*' as int && Peek(s, 2) == EOL;
      assert RenderToken(t) + [] == RenderToken(t);
    case AnyDirs =>
      assert s[3..] == rest;
    case Class(negated, ms) =>
      ScanClassToken(negated, ms, rest);
  }

  /** The first token of a well-formed sequence cannot merge with the spelling of the others. */
  lemma FirstFits(toks: seq<Token>, rest: seq<byte>)
    requires toks != [] && WellFormed(toks) && FitsBefore(toks, rest)
    ensures WellFormed(toks[1..]) && FitsBefore(toks[1..], rest)
    ensures FitsBefore([toks[0]], Unparse(toks[1..]) + rest)
  {
    var more := toks[1..];
    assert WellFormed(more);
    if more != [] {
      UnparseTokenShape(more[0]);
      assert Unparse(more) == UnparseToken(more[0]) + Unparse(more[1..]);
      assert (Unparse(more) + rest)[0] == UnparseToken(more[0])[0];
    }
  }

  /**
   * The spelling of a well-formed token sequence, followed by text that
   * cannot merge with its last token, is translated token by token.
   */
  lemma {:induction false} ScanTokens(toks: seq<Token>, rest: seq<byte>)
    requires WellFormed(toks) && FitsBefore(toks, rest)
    ensures Scan(Unparse(toks) + rest) == Prepend(Render(toks), Scan(rest))
    decreases |toks|
  {
    if toks == [] {
      assert Unparse(toks) + rest == rest;
      PrependNothing(Scan(rest));
    } else {
      var t, more := toks[0], toks[1..];
      var after := Unparse(more) + rest;
      assert Unparse(toks) + rest == UnparseToken(t) + after;
      FirstFits(toks, rest);
      ScanTokens(more, rest);
      ScanToken(t, after);
      PrependPrepend(RenderToken(t), Render(more), Scan(rest));
    }
  }

  lemma UnparseEmpty(toks: seq<Token>)
    ensures Unparse(toks) == [] <==> toks == []
  {
    if toks != [] {
      UnparseTokenShape(toks[0]);
    }
  }

  /**
   * Round trip: the canonical spelling of any well-formed token sequence is
   * translated to the regex those tokens stand for (and the empty sequence,
   * spelled as the empty pattern, to `Empty`).
   */
  lemma TranslateUnparse(toks: seq<Token>)
    requires WellFormed(toks)
    ensures Translate(Unparse(toks)) == if toks == [] then Failure(Empty) else Success(Render(toks))
  {
    UnparseEmpty(toks);
    if toks != [] {
      ScanTokens(toks, []);
      assert Unparse(toks) + [] == Unparse(toks);
      assert Render(toks) + [] == Render(toks);
    }
  }

  /** A failure right after a well-formed token sequence is the failure of the whole pattern. */
  lemma TranslateAfterTokens(toks: seq<Token>, rest: seq<byte>, e: Errc)
    requires WellFormed(toks) && FitsBefore(toks, rest)
    requires rest != [] && Scan(rest) == Failure(e)
    ensures Translate(Unparse(toks) + rest) == Failure(e)
  {
    ScanTokens(toks, rest);
  }

  lemma ScanBadEscape(tail: seq<byte>)
    requires IsBadEscapeChar(Peek(tail, 0))
    ensures Scan(['\\' as int] + tail) == Failure(BadEscape)
  {
    assert Peek(['\\' as int] + tail, 1) == Peek(tail, 0);
  }

  /** `\X` with X a forbidden octet, or `\` at the very end, is `BadEscape`. */
  lemma TranslateBadEscape(toks: seq<Token>, tail: seq<byte>)
    requires WellFormed(toks) && FitsBefore(toks, ['\\' as int] + tail)
    requires IsBadEscapeChar(Peek(tail, 0))
    ensures Translate(Unparse(toks) + ['\\' as int] + tail) == Failure(BadEscape)
  {
    ScanBadEscape(tail);
    TranslateAfterTokens(toks, ['\\' as int] + tail, BadEscape);
    assert Unparse(toks) + ['\\' as int] + tail == Unparse(toks) + (['\\' as int] + tail);
  }

  lemma ScanBadDoubleStar(x: byte, tail: seq<byte>)
    requires x != '/' as int
    ensures Scan(['*' as int, '*' as int, x] + tail) == Failure(BadDoubleStar)
  {
    var rest := ['*' as int, '*' as int, x] + tail;
    assert rest[0] == '*' as int && Peek(rest, 1) == '*' as int && Peek(rest, 2) == x;
  }

  lemma {:induction false} UnparseSnoc(toks: seq<Token>, t: Token)
    ensures Unparse(toks + [t]) == Unparse(toks) + UnparseToken(t)
    decreases |toks|
  {
    if toks == [] {
      assert [] + [t] == [t];
      assert UnparseToken(t) + [] == UnparseToken(t);
    } else {
      assert (toks + [t])[0] == toks[0] && (toks + [t])[1..] == toks[1..] + [t];
      UnparseSnoc(toks[1..], t);
    }
  }

  /** Dropping the last token keeps a sequence well-formed, and a `*` fits after it unless it ends in a star. */
  lemma DropLast(toks: seq<Token>)
    requires toks != [] && WellFormed(toks)
    ensures var init := toks[..|toks| - 1];
      && WellFormed(init) && toks == init + [toks[|toks| - 1]]
      && (StartsWithStar(toks[|toks| - 1]) ==> FitsBefore(init, ['*' as int]))
  {
  }

  /**
   * `**` followed by anything but `/` or the end is `BadDoubleStar`, a third
   * `*` included, after any well-formed prefix: a prefix ending in `*` or
   * `**` only makes the run of stars longer.
   */
  lemma TranslateBadDoubleStar(toks: seq<Token>, x: byte, tail: seq<byte>)
    requires WellFormed(toks)
    requires x != '/' as int
    ensures Translate(Unparse(toks) + ['*' as int, '*' as int, x] + tail) == Failure(BadDoubleStar)
  {
    var stars := ['*' as int, '*' as int, x] + tail;
    assert Unparse(toks) + ['*' as int, '*' as int, x] + tail == Unparse(toks) + stars;
    if toks == [] || !StartsWithStar(toks[|toks| - 1]) {
      ScanBadDoubleStar(x, tail);
      TranslateAfterTokens(toks, stars, BadDoubleStar);
    } else {
      var init, last := toks[..|toks| - 1], toks[|toks| - 1];
      DropLast(toks);
      UnparseSnoc(init, last);
      StarRunBad(init, last, x, tail);
    }
  }

  /** The same, when the prefix ends in a star construct that runs into the `**`. */
  lemma StarRunBad(init: seq<Token>, last: Token, x: byte, tail: seq<byte>)
    requires WellFormed(init) && FitsBefore(init, ['*' as int])
    requires StartsWithStar(last) && x != '/' as int
    ensures Translate(Unparse(init) + UnparseToken(last) + (['*' as int, '*' as int, x] + tail)) == Failure(BadDoubleStar)
  {
    var u, stars := UnparseToken(last), ['*' as int, '*' as int, x] + tail;
    ScanStarRun(last, x, tail);
    FitsAny(init, u + stars);
    TranslateAfterTokens(init, u + stars, BadDoubleStar);
    Assoc(Unparse(init), u, stars);
  }

  /** A sequence whose last token is no `*` or `**` fits before any text. */
  lemma FitsAny(toks: seq<Token>, rest: seq<byte>)
    requires FitsBefore(toks, ['*' as int])
    ensures FitsBefore(toks, rest)
  {
  }

  lemma Assoc(a: seq<byte>, b: seq<byte>, c: seq<byte>)
    ensures a + b + c == a + (b + c)
  {
  }

  lemma ScanStarRun(last: Token, x: byte, tail: seq<byte>)
    requires StartsWithStar(last) && x != '/' as int
    ensures Scan(UnparseToken(last) + (['*' as int, '*' as int, x] + tail)) == Failure(BadDoubleStar)
  {
    var rest := UnparseToken(last) + (['*' as int, '*' as int, x] + tail);
    match last
    case Star =>
      assert rest == ['*' as int, '*' as int, '*' as int] + ([x] + tail);
      ScanBadDoubleStar('*' as int, [x] + tail);
    case AnyPath =>
      assert rest == ['*' as int, '*' as int, '*' as int] + (['*' as int, x] + tail);
      ScanBadDoubleStar('*' as int, ['*' as int, x] + tail);
    case AnyDirs =>
      assert rest == ['*' as int, '*' as int, '/' as int] + (['*' as int, '*' as int, x] + tail);
      ScanAnyDirsThenBad(x, tail);
  }

  lemma ScanAnyDirsThenBad(x: byte, tail: seq<byte>)
    requires x != '/' as int
    ensures Scan(['*' as int, '*' as int, '/' as int] + (['*' as int, '*' as int, x] + tail)) == Failure(BadDoubleStar)
  {
    var s := ['*' as int, '*' as int, '/' as int] + (['*' as int, '*' as int, x] + tail);
    assert s[0] == '*' as int && Peek(s, 1) == '*' as int && Peek(s, 2) == '/' as int;
    assert s[3..] == ['*' as int, '*' as int, x] + tail;
    ScanBadDoubleStar(x, tail);
  }

  /**
   * One item of a class body as the inner loop reads it: a raw octet other
   * than `]` and `\`, or a backslash with the octet it escapes.
   */
  datatype ClassAtom = Raw(b: byte) | Escaped(e: byte)

  predicate GoodAtom(a: ClassAtom) {
    match a
    case Raw(b) => b != ']' as int && b != '\\' as int
    case Escaped(e) => !IsBadEscapeChar(e)
  }

  function SpellAtom(a: ClassAtom): seq<byte> {
    match a
    case Raw(b) => [b]
    case Escaped(e) => ['\\' as int, e]
  }

  function SpellAtoms(atoms: seq<ClassAtom>): seq<byte> {
    if atoms == [] then [] else SpellAtom(atoms[0]) + SpellAtoms(atoms[1..])
  }

  predicate GoodAtoms(atoms: seq<ClassAtom>) {
    forall k :: 0 <= k < |atoms| ==> GoodAtom(atoms[k])
  }

  lemma ClassBodyAtom(a: ClassAtom, tail: seq<byte>)
    requires GoodAtom(a)
    ensures ClassBody(SpellAtom(a) + tail).Failure? <==> ClassBody(tail).Failure?
    ensures ClassBody(tail).Failure? ==> ClassBody(SpellAtom(a) + tail) == ClassBody(tail)
  {
    var s := SpellAtom(a) + tail;
    match a
    case Raw(b) =>
      assert s[0] == b && s[1..] == tail;
    case Escaped(e) =>
      assert s[0] == '\\' as int && Peek(s, 1) == e && s[2..] == tail;
  }

  /** Good atoms in front of a failing class body change nothing: the body fails the same way. */
  lemma {:induction false} ClassBodyAtoms(atoms: seq<ClassAtom>, rest: seq<byte>)
    requires GoodAtoms(atoms) && ClassBody(rest).Failure?
    ensures ClassBody(SpellAtoms(atoms) + rest) == ClassBody(rest)
    decreases |atoms|
  {
    if atoms == [] {
      assert SpellAtoms(atoms) + rest == rest;
    } else {
      var more := SpellAtoms(atoms[1..]) + rest;
      assert SpellAtoms(atoms) + rest == SpellAtom(atoms[0]) + more;
      ClassBodyAtoms(atoms[1..], rest);
      ClassBodyAtom(atoms[0], more);
    }
  }

  /** A class body made of good atoms that reaches the end of the pattern is `BadBracket`. */
  lemma {:induction false} ClassBodyUnterminated(atoms: seq<ClassAtom>)
    requires GoodAtoms(atoms)
    ensures ClassBody(SpellAtoms(atoms)) == Failure(BadBracket)
  {
    ClassBodyAtoms(atoms, []);
    assert SpellAtoms(atoms) + [] == SpellAtoms(atoms);
  }

  /** Conversely, every class body that ends in `BadBracket` is such a run of good atoms. */
  lemma {:induction false} UnterminatedIsAtoms(body: seq<byte>)
    requires ClassBody(body) == Failure(BadBracket)
    ensures exists atoms :: GoodAtoms(atoms) && SpellAtoms(atoms) == body
    decreases |body|
  {
    if body == [] {
      assert GoodAtoms([]) && SpellAtoms([]) == body;
    } else if body[0] == '\\' as int {
      var e := Peek(body, 1);
      assert !IsBadEscapeChar(e) && |body| >= 2;
      UnterminatedIsAtoms(body[2..]);
      var more :| GoodAtoms(more) && SpellAtoms(more) == body[2..];
      var atoms := [Escaped(e as byte)] + more;
      assert atoms[1..] == more;
      assert SpellAtoms(atoms) == ['\\' as int, e as byte] + body[2..];
      assert body == ['\\' as int, e as byte] + body[2..];
      assert GoodAtoms(atoms);
    } else {
      UnterminatedIsAtoms(body[1..]);
      var more :| GoodAtoms(more) && SpellAtoms(more) == body[1..];
      var atoms := [Raw(body[0])] + more;
      assert atoms[1..] == more;
      assert SpellAtoms(atoms) == [body[0]] + body[1..];
      assert body == [body[0]] + body[1..];
      assert GoodAtoms(atoms);
    }
  }

  /**
   * A `[`, good atoms, then a failing class body: the scan fails the same
   * way, whether or not the first atom is a `!` that negates the class.
   */
  lemma ScanUnclosed(atoms: seq<ClassAtom>, rest: seq<byte>)
    requires GoodAtoms(atoms) && ClassBody(rest).Failure?
    ensures Scan(['[' as int] + (SpellAtoms(atoms) + rest)) == Failure(ClassBody(rest).error)
  {
    var body := SpellAtoms(atoms) + rest;
    var s := ['[' as int] + body;
    ClassBodyAtoms(atoms, rest);
    if Peek(s, 1) == '!' as int {
      assert body == SpellAtom(Raw('!' as int)) + body[1..];
      ClassBodyAtom(Raw('!' as int), body[1..]);
      assert s[2..] == body[1..];
      ScanBracketFailure(s, true, body[1..]);
    } else {
      assert s[1..] == body;
      ScanBracketFailure(s, false, body);
    }
  }

  /**
   * A `[` (or `[!`) whose class reaches the end of the pattern without its
   * `]` is `BadBracket`, after any well-formed prefix it cannot merge with.
   */
  lemma TranslateBadBracket(toks: seq<Token>, atoms: seq<ClassAtom>)
    requires WellFormed(toks) && FitsBefore(toks, ['[' as int])
    requires GoodAtoms(atoms)
    ensures Translate(Unparse(toks) + ['[' as int] + SpellAtoms(atoms)) == Failure(BadBracket)
  {
    var spelled := SpellAtoms(atoms);
    ScanUnclosed(atoms, []);
    assert spelled + [] == spelled;
    TranslateAfterTokens(toks, ['[' as int] + spelled, BadBracket);
    Assoc(Unparse(toks), ['[' as int], spelled);
  }

  lemma ClassBodyBadEscape(tail: seq<byte>)
    requires IsBadEscapeChar(Peek(tail, 0))
    ensures ClassBody(['\\' as int] + tail) == Failure(BadEscape)
  {
    assert Peek(['\\' as int] + tail, 1) == Peek(tail, 0);
  }

  /**
   * Inside a class, after any good atoms, `\X` with X forbidden, or `\` at
   * the end, is `BadEscape`, after any well-formed prefix it cannot merge with.
   */
  lemma TranslateBadClassEscape(toks: seq<Token>, atoms: seq<ClassAtom>, tail: seq<byte>)
    requires WellFormed(toks) && FitsBefore(toks, ['[' as int])
    requires GoodAtoms(atoms)
    requires IsBadEscapeChar(Peek(tail, 0))
    ensures Translate(Unparse(toks) + ['[' as int] + SpellAtoms(atoms) + ['\\' as int] + tail) == Failure(BadEscape)
  {
    var esc := ['\\' as int] + tail;
    var rest := ['[' as int] + (SpellAtoms(atoms) + esc);
    ClassBodyBadEscape(tail);
    ScanUnclosed(atoms, esc);
    TranslateAfterTokens(toks, rest, BadEscape);
    Regroup5(Unparse(toks), ['[' as int], SpellAtoms(atoms), ['\\' as int], tail);
  }

  /**
   * A pattern of octets that are neither glob nor regex metacharacters
   * translates to itself.
   */
  lemma {:induction false} ScanPlainText(p: seq<byte>)
    requires forall k :: 0 <= k < |p| ==> !IsGlobMeta(p[k]) && !IsRegexMeta(p[k])
    ensures Scan(p) == Success(Chars(p))
    decreases |p|
  {
    if p != [] {
      ScanPlainText(p[1..]);
      assert Chars(p) == [p[0] as char] + Chars(p[1..]);
    }
  }

  lemma TranslatePlainText(p: seq<byte>)
    requires p != []
    requires forall k :: 0 <= k < |p| ==> !IsGlobMeta(p[k]) && !IsRegexMeta(p[k])
    ensures Translate(p) == Success(Chars(p))
  {
    ScanPlainText(p);
  }
}
