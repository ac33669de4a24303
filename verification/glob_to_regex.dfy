/**
 * The glob-to-regex translator of glob_to_regex.hpp: one left-to-right scan
 * with one octet of lookahead that turns `?`, `*`, `**`, `[...]`, `\X` and
 * ordinary octets into an ECMAScript regex, or stops with an error code.
 *
 * `Scan` and `ClassBody` say, for the rest of the pattern still to be
 * scanned, what the loop appends or which error it stops with;
 * `TranslateGlobPatternToRegex` is the loop itself, proved to agree with them.
 */
module GlobToRegex {
  import opened Bytes

  /** `GlobToRegexErrc`. */
  datatype Errc = Ok | Empty | BadTerm | BadEscape | BadDoubleStar | BadBracket | BadBasePath

  /** The integer value of each enumerator. */
  function Code(e: Errc): (r: int)
    ensures -6 <= r <= 0
    ensures r == 0 <==> e == Ok
  {
    match e
    case Ok => 0
    case Empty => -1
    case BadTerm => -2
    case BadEscape => -3
    case BadDoubleStar => -4
    case BadBracket => -5
    case BadBasePath => -6
  }

  /** Distinct enumerators have distinct values. */
  lemma CodeInjective(e1: Errc, e2: Errc)
    ensures Code(e1) == Code(e2) ==> e1 == e2
  {
  }

  /** `any(e)`: whether `e` reports a failure, that is, whether its value is non-zero. */
  function Any(e: Errc): (b: bool)
    ensures b <==> Code(e) != 0
  {
    e != Ok
  }

  /** A regex (or a piece of one) that was produced, or the error that stopped the scan. */
  datatype Result<T> = Success(value: T) | Failure(error: Errc)

  /** `eolChar`: what the lookahead reads past the end of the pattern. */
  const EOL: int := -256

  /** `peekNextChar`: the octet at `i`, or `EOL` past the end; `EOL` is no octet. */
  function Peek(s: seq<byte>, i: nat): (r: int)
    ensures r == EOL <==> i >= |s|
    ensures r != EOL ==> 0 <= r < 256
  {
    if i < |s| then s[i] else EOL
  }

  /**
   * `isBadEscapeChar`: octets that may not follow a backslash (`EOL` included).
   * Of the octets, what may follow is printable ASCII other than a letter or digit.
   */
  function IsBadEscapeChar(c: int): (b: bool)
    ensures c == EOL ==> b
    ensures !b && c < 256 ==> 0x20 <= c < 0x7f
    ensures !b ==> !('A' as int <= c <= 'Z' as int) && !('a' as int <= c <= 'z' as int) && !('0' as int <= c <= '9' as int)
    ensures 0x20 <= c < 0x7f && !('A' as int <= c <= 'Z' as int) && !('a' as int <= c <= 'z' as int) && !('0' as int <= c <= '9' as int) ==> !b
  {
    || c < 0
    || (0 <= c < 32)
    || c == 0x7f
    || ('A' as int <= c <= 'Z' as int)
    || ('a' as int <= c <= 'z' as int)
    || ('0' as int <= c <= '9' as int)
    || (0x80 <= c <= 0xff)
  }

  /**
   * The `specialChars` array that `isSpecialRegexChar` walks: the fourteen
   * regex metacharacters and the array's NUL terminator, which the range-for
   * visits too.
   */
  const SpecialChars: seq<char> := "$()*+.?[]^{|}\\\0"

  /** The octets `putCharWithRegexEscape` prefixes with a backslash. */
  predicate IsRegexMeta(c: int) {
    c in {0, '$' as int, '(' as int, ')' as int, '*' as int, '+' as int, '.' as int, '?' as int,
          '[' as int, ']' as int, '^' as int, '{' as int, '|' as int, '}' as int, '\\' as int}
  }

  /** `isSpecialRegexChar`: a linear search of `SpecialChars`. */
  method IsSpecialRegexChar(c: int) returns (b: bool)
    ensures b <==> IsRegexMeta(c)
  {
    var k := 0;
    while k < |SpecialChars|
      invariant 0 <= k <= |SpecialChars|
      invariant forall j :: 0 <= j < k ==> SpecialChars[j] as int != c
    {
      if SpecialChars[k] as int == c {
        return true;
      }
      k := k + 1;
    }
    // The loop has compared `c` with each of these.
    assert && SpecialChars[0] == '$' && SpecialChars[1] == '(' && SpecialChars[2] == ')'
           && SpecialChars[3] == '*' && SpecialChars[4] == '+' && SpecialChars[5] == '.'
           && SpecialChars[6] == '?' && SpecialChars[7] == '[' && SpecialChars[8] == ']'
           && SpecialChars[9] == '^' && SpecialChars[10] == '{' && SpecialChars[11] == '|'
           && SpecialChars[12] == '}' && SpecialChars[13] == '\\' && SpecialChars[14] == '\0';
    return false;
  }

  /** The text `putCharWithRegexEscape(c)` appends. */
  function RegexEscape(c: byte): seq<char> {
    if IsRegexMeta(c) then ['\\', c as char] else [c as char]
  }

  /** `putCharWithRegexEscape`, as a method over `isSpecialRegexChar`. */
  method PutCharWithRegexEscape(c: byte) returns (out: seq<char>)
    ensures out == RegexEscape(c)
    ensures out[|out| - 1] == c as char
    ensures |out| == 2 <==> IsRegexMeta(c)
  {
    var special := IsSpecialRegexChar(c);
    if special {
      out := ['\\', c as char];
    } else {
      out := [c as char];
    }
  }

  /** Output appended in front of a scan's own outcome; a failure stays a failure with no output. */
  function Prepend(prefix: seq<char>, r: Result<seq<char>>): Result<seq<char>> {
    match r
    case Success(v) => Success(prefix + v)
    case Failure(e) => Failure(e)
  }

  /** The same for the body of a bracket class, which also hands back the rest of the pattern. */
  function PrependClass(prefix: seq<char>, r: Result<(seq<char>, seq<byte>)>): Result<(seq<char>, seq<byte>)> {
    match r
    case Success(v) => Success((prefix + v.0, v.1))
    case Failure(e) => Failure(e)
  }

  /**
   * The inner `for(;;)` loop of a bracket class, from just after `[` (or `[!`):
   * the class body emitted up to the closing `]` and the pattern after it.
   */
  function ClassBody(s: seq<byte>): (r: Result<(seq<char>, seq<byte>)>)
    ensures r.Success? ==> |r.value.1| < |s| && r.value.1 == s[|s| - |r.value.1|..]
    ensures r.Success? ==> s[|s| - |r.value.1| - 1] == ']' as int
    ensures r.Failure? ==> r.error == BadEscape || r.error == BadBracket
    decreases |s|
  {
    if s == [] then Failure(BadBracket)
    else if s[0] == ']' as int then Success(([], s[1..]))
    else if s[0] == '-' as int then PrependClass("-", ClassBody(s[1..]))
    else if s[0] == '\\' as int then
      var e := Peek(s, 1);
      if IsBadEscapeChar(e) then Failure(BadEscape)
      else PrependClass(RegexEscape(e), ClassBody(s[2..]))
    else PrependClass(RegexEscape(s[0]), ClassBody(s[1..]))
  }

  /** What the outer loop appends for the rest `s` of the pattern, or the error it stops with. */
  function Scan(s: seq<byte>): (r: Result<seq<char>>)
    ensures r.Failure? ==> r.error in {BadEscape, BadDoubleStar, BadBracket}
    ensures r.Success? ==> (r.value == [] <==> s == [])
    decreases |s|
  {
    if s == [] then Success([])
    else
      var c0, c1 := s[0], Peek(s, 1);
      if c0 == '\\' as int then
        if IsBadEscapeChar(c1) then Failure(BadEscape)
        else Prepend(RegexEscape(c1), Scan(s[2..]))
      else if c0 == '?' as int then Prepend("[^/]", Scan(s[1..]))
      else if c0 == '*' as int && c1 != '*' as int then Prepend("[^/]*", Scan(s[1..]))
      else if c0 == '*' as int then
        var c2 := Peek(s, 2);
        if c2 == EOL then Success(".*")
        else if c2 != '/' as int then Failure(BadDoubleStar)
        else Prepend("([^/]+/)*", Scan(s[3..]))
      else if c0 == '[' as int then
        var negate := c1 == '!' as int;
        match ClassBody(if negate then s[2..] else s[1..])
        case Failure(e) => Failure(e)
        case Success((body, rest)) =>
          Prepend((if negate then "[^" else "[") + body + "]", Scan(rest))
      else Prepend(RegexEscape(c0), Scan(s[1..]))
  }

  /**
   * Outside a class, a backslash before an octet `isBadEscapeChar` accepts
   * (space or ASCII punctuation) stands for that octet, regex-escaped.
   */
  lemma ScanEscape(x: byte, rest: seq<byte>)
    requires !IsBadEscapeChar(x)
    ensures Scan(['\\' as int, x] + rest) == Prepend(RegexEscape(x), Scan(rest))
  {
    assert (['\\' as int, x] + rest)[2..] == rest;
  }

  /** Inside a class, the same escape stands for the same octet, regex-escaped. */
  lemma ClassBodyEscape(x: byte, rest: seq<byte>)
    requires !IsBadEscapeChar(x)
    ensures ClassBody(['\\' as int, x] + rest) == PrependClass(RegexEscape(x), ClassBody(rest))
  {
    assert (['\\' as int, x] + rest)[2..] == rest;
  }

  /** `translateGlobPatternToRegex`: the regex for a whole pattern, or why there is none. */
  function Translate(pattern: seq<byte>): (r: Result<seq<char>>)
    ensures r == Failure(Empty) <==> pattern == []
    ensures r.Failure? ==> Any(r.error) && r.error != BadTerm && r.error != BadBasePath
  {
    if pattern == [] then Failure(Empty) else Scan(pattern)
  }

  lemma PrependNothing(r: Result<seq<char>>)
    ensures Prepend([], r) == r
  {
    if r.Success? {
      assert [] + r.value == r.value;
    }
  }

  lemma PrependClassNothing(r: Result<(seq<char>, seq<byte>)>)
    ensures PrependClass([], r) == r
  {
    if r.Success? {
      assert [] + r.value.0 == r.value.0;
    }
  }

  lemma PrependPrepend(a: seq<char>, b: seq<char>, r: Result<seq<char>>)
    ensures Prepend(a, Prepend(b, r)) == Prepend(a + b, r)
  {
    if r.Success? {
      assert a + (b + r.value) == (a + b) + r.value;
    }
  }

  lemma PrependClassPrependClass(a: seq<char>, b: seq<char>, r: Result<(seq<char>, seq<byte>)>)
    ensures PrependClass(a, PrependClass(b, r)) == PrependClass(a + b, r)
  {
    if r.Success? {
      assert a + (b + r.value.0) == (a + b) + r.value.0;
    }
  }

  /**
   * The `for(;;)` loop of a bracket class, entered with `i` just after `[` or
   * `[!`: it appends the class body to `result` and leaves `i` after the `]`.
   */
  method AppendClassBody(globPattern: seq<byte>, i0: nat, result0: seq<char>) returns (result: seq<char>, i: nat, errc: Errc)
    requires i0 <= |globPattern|
    ensures ClassBody(globPattern[i0..]).Failure? ==> errc == ClassBody(globPattern[i0..]).error
    ensures ClassBody(globPattern[i0..]).Success? ==>
      && errc == Ok && i0 < i <= |globPattern| && result0 <= result
      && ClassBody(globPattern[i0..]).value == (result[|result0|..], globPattern[i..])
  {
    var n := |globPattern|;
    result, i := result0, i0;
    PrependClassNothing(ClassBody(globPattern[i0..]));
    assert result[|result0|..] == [];
    while true
      invariant i0 <= i <= n
      invariant result0 <= result
      invariant ClassBody(globPattern[i0..]) == PrependClass(result[|result0|..], ClassBody(globPattern[i..]))
      decreases n - i
    {
      if i >= n {
        return result, i, BadBracket;
      }
      ghost var at := i;
      var d := globPattern[i];
      i := i + 1;
      assert globPattern[at..][1..] == globPattern[i..];
      if d == ']' as int {
        break;
      }
      if d == '-' as int {
        PrependClassPrependClass(result[|result0|..], "-", ClassBody(globPattern[i..]));
        assert (result + "-")[|result0|..] == result[|result0|..] + "-";
        result := result + "-";
        continue;
      }
      if d == '\\' as int {
        var e := Peek(globPattern, i);
        if e != EOL {
          i := i + 1;
        }
        if IsBadEscapeChar(e) {
          return result, i, BadEscape;
        }
        assert globPattern[at..][2..] == globPattern[i..];
        var esc := PutCharWithRegexEscape(e);
        PrependClassPrependClass(result[|result0|..], esc, ClassBody(globPattern[i..]));
        assert (result + esc)[|result0|..] == result[|result0|..] + esc;
        result := result + esc;
        continue;
      }
      var esc := PutCharWithRegexEscape(d);
      PrependClassPrependClass(result[|result0|..], esc, ClassBody(globPattern[i..]));
      assert (result + esc)[|result0|..] == result[|result0|..] + esc;
      result := result + esc;
    }
    assert result[|result0|..] + [] == result[|result0|..];
    errc := Ok;
  }

  /**
   * The `[` branch of the outer loop: `[`, then `^` for a leading `!`, the
   * class body, and the closing `]`.
   */
  method AppendBracket(globPattern: seq<byte>, i0: nat, result0: seq<char>) returns (result: seq<char>, i: nat, errc: Errc)
    requires i0 < |globPattern| && globPattern[i0] == '[' as int
    ensures errc != Ok ==> Scan(globPattern[i0..]) == Failure(errc)
    ensures errc == Ok ==>
      && i0 < i <= |globPattern| && result0 <= result
      && Scan(globPattern[i0..]) == Prepend(result[|result0|..], Scan(globPattern[i..]))
  {
    i := i0 + 1;
    var c1 := Peek(globPattern, i);
    result := result0 + "[";
    if c1 == '!' as int {
      result := result + "^";
      i := i + 1;
    }
    ghost var start, afterOpen := i, result;
    result, i, errc := AppendClassBody(globPattern, i, result);
    if errc != Ok {
      BracketFailed(globPattern, i0, c1 == '!' as int);
      return;
    }
    BracketClosed(globPattern, i0, c1 == '!' as int, result0, afterOpen, result, i);
    result := result + "]";
  }

  /** A bracket class whose body fails fails the scan with the same error. */
  lemma BracketFailed(p: seq<byte>, i0: nat, negated: bool)
    requires i0 < |p| && p[i0] == '[' as int
    requires negated <==> Peek(p, i0 + 1) == '!' as int
    requires ClassBody(p[i0 + (if negated then 2 else 1)..]).Failure?
    ensures Scan(p[i0..]) == Failure(ClassBody(p[i0 + (if negated then 2 else 1)..]).error)
  {
    var s := p[i0..];
    assert Peek(s, 1) == Peek(p, i0 + 1);
    if negated {
      assert p[i0 + 2..] == s[2..];
    } else {
      assert p[i0 + 1..] == s[1..];
    }
    ScanBracketFailure(s, negated, p[i0 + (if negated then 2 else 1)..]);
  }

  /** A bracket class closed by `]`: the regex so far, then `]`, then the scan of the rest. */
  lemma BracketClosed(p: seq<byte>, i0: nat, negated: bool, result0: seq<char>, afterOpen: seq<char>, result: seq<char>, i: nat)
    requires i0 < |p| && p[i0] == '[' as int
    requires negated <==> Peek(p, i0 + 1) == '!' as int
    requires afterOpen == result0 + (if negated then "[^" else "[")
    requires afterOpen <= result && i <= |p|
    requires ClassBody(p[i0 + (if negated then 2 else 1)..]) == Success((result[|afterOpen|..], p[i..]))
    ensures result0 <= result + "]"
    ensures Scan(p[i0..]) == Prepend((result + "]")[|result0|..], Scan(p[i..]))
  {
    var s := p[i0..];
    var open: seq<char> := if negated then "[^" else "[";
    var body := result[|afterOpen|..];
    assert Peek(s, 1) == Peek(p, i0 + 1);
    if negated {
      assert p[i0 + 2..] == s[2..];
    } else {
      assert p[i0 + 1..] == s[1..];
    }
    ScanBracket(s, negated, p[i0 + (if negated then 2 else 1)..], body, p[i..]);
    assert result == afterOpen + body;
    SliceAfter(result0, open, body, "]", result + "]");
  }

  /** Output `r0 + a + b + c`, read from where `r0` ends. */
  lemma SliceAfter(r0: seq<char>, a: seq<char>, b: seq<char>, c: seq<char>, r: seq<char>)
    requires r == r0 + a + b + c
    ensures r0 <= r && r[|r0|..] == a + b + c
  {
  }

  /** The `[` branch of the scan when the class body is well-formed. */
  lemma ScanBracket(s: seq<byte>, negated: bool, body: seq<byte>, members: seq<char>, rest: seq<byte>)
    requires s != [] && s[0] == '[' as int
    requires Peek(s, 1) == '!' as int <==> negated
    requires (if negated then s[2..] else s[1..]) == body
    requires ClassBody(body) == Success((members, rest))
    ensures Scan(s) == Prepend((if negated then "[^" else "[") + members + "]", Scan(rest))
  {
  }

  /** The `[` branch of the scan when the class body is not. */
  lemma ScanBracketFailure(s: seq<byte>, negated: bool, body: seq<byte>)
    requires s != [] && s[0] == '[' as int
    requires Peek(s, 1) == '!' as int <==> negated
    requires (if negated then s[2..] else s[1..]) == body
    requires ClassBody(body).Failure?
    ensures Scan(s) == Failure(ClassBody(body).error)
  {
  }

  /**
   * One pass of the outer loop of `translateGlobPatternToRegex`, from the
   * construct that starts at `i0` (read by `getNextChar`) to its `continue`:
   * it appends that construct's regex to `result` and advances `i` past it.
   * `done` is the `break` after a trailing `**`.
   */
  method AppendConstruct(globPattern: seq<byte>, i0: nat, result0: seq<char>)
      returns (result: seq<char>, i: nat, errc: Errc, done: bool)
    requires i0 < |globPattern|
    ensures errc != Ok ==> Scan(globPattern[i0..]) == Failure(errc)
    ensures errc == Ok ==>
      && i0 < i <= |globPattern| && result0 <= result
      && (done ==> i == |globPattern| && Scan(globPattern[i0..]) == Success(result[|result0|..]))
      && (!done ==> Scan(globPattern[i0..]) == Prepend(result[|result0|..], Scan(globPattern[i..])))
  {
    ghost var s := globPattern[i0..];
    result, i, errc, done := result0, i0, Ok, false;
    var c0 := globPattern[i];
    i := i + 1;
    var c1 := Peek(globPattern, i);
    assert s[1..] == globPattern[i..] && c1 == Peek(s, 1);

    if c0 == '\\' as int {
      if IsBadEscapeChar(c1) {
        return result, i, BadEscape, false;
      }
      i := i + 1;
      assert s[2..] == globPattern[i..];
      var esc := PutCharWithRegexEscape(c1);
      result := result + esc;
      assert result[|result0|..] == esc;
      return;
    }

    if c0 == '?' as int {
      result := result + "[^/]";
      assert result[|result0|..] == "[^/]";
      return;
    }

    if c0 == '*' as int && c1 != '*' as int {
      result := result + "[^/]*";
      assert result[|result0|..] == "[^/]*";
      return;
    }

    if c0 == '*' as int && c1 == '*' as int {
      i := i + 1;
      var c2 := Peek(globPattern, i);
      assert c2 == Peek(s, 2);
      if c2 != EOL {
        i := i + 1;
      }
      if c2 == EOL {
        result := result + ".*";
        assert result[|result0|..] == ".*";
        return result, i, Ok, true;
      }
      if c2 != '/' as int {
        return result, i, BadDoubleStar, false;
      }
      assert s[3..] == globPattern[i..];
      result := result + "([^/]+/)*";
      assert result[|result0|..] == "([^/]+/)*";
      return;
    }

    if c0 == '[' as int {
      result, i, errc := AppendBracket(globPattern, i0, result0);
      return;
    }

    var esc := PutCharWithRegexEscape(c0);
    result := result + esc;
    assert result[|result0|..] == esc;
  }

  /**
   * `translateGlobPatternToRegex(globPattern, outputErrorCode)`: the scan loop
   * with its `advance`/`getNextChar` steps. On failure nothing of the partial
   * output escapes: the result is empty and only the code is meaningful.
   */
  method TranslateGlobPatternToRegex(globPattern: seq<byte>) returns (result: seq<char>, errc: Errc)
    ensures Any(errc) <==> Translate(globPattern).Failure?
    ensures Translate(globPattern).Success? ==> errc == Ok && result == Translate(globPattern).value
    ensures Translate(globPattern).Failure? ==> errc == Translate(globPattern).error && result == []
  {
    result := [];
    if |globPattern| == 0 {
      return [], Empty;
    }
    var n := |globPattern|;
    var i := 0;
    assert globPattern[i..] == globPattern;
    PrependNothing(Scan(globPattern));
    while i < n
      invariant 0 <= i <= n
      invariant Scan(globPattern) == Prepend(result, Scan(globPattern[i..]))
      decreases n - i
    {
      ghost var before := result;
      var e, done;
      result, i, e, done := AppendConstruct(globPattern, i, result);
      if e != Ok {
        return [], e;
      }
      if done {
        assert result == before + result[|before|..];
        break;
      }
      PrependPrepend(before, result[|before|..], Scan(globPattern[i..]));
      assert result == before + result[|before|..];
    }
    if i == n {
      assert Scan(globPattern[i..]) == Success([]);
      assert result + [] == result;
    }
    errc := Ok;
  }

  /**
   * `translateGlobPatternToRegex(globPattern)`, the overload that drops the
   * code: callers test the returned string for emptiness, which is sound
   * because every successful translation is non-empty.
   */
  method TranslateGlobPatternToRegexString(globPattern: seq<byte>) returns (result: seq<char>)
    ensures result == [] <==> Translate(globPattern).Failure?
    ensures Translate(globPattern).Success? ==> result == Translate(globPattern).value
  {
    var errc;
    result, errc := TranslateGlobPatternToRegex(globPattern);
  }
}
