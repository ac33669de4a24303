/**
 * Worked translations of patterns from the repository's test table
 * (tests/test-0.cpp) and of error cases of the code, each proved from
 * the definition of `Translate`.
 */
module GlobExamples {
  import opened Bytes
  import opened GlobToRegex
  import opened GlobTokens

  lemma ScanAt()
    ensures Scan(['a' as int, 't' as int]) == Success("at")
  {
    var rest: seq<byte> := ['a' as int, 't' as int];
    assert rest[1..] == ['t' as int] && rest[1..][1..] == [];
    assert Scan(['t' as int]) == Success("t") by { assert "t" + [] == "t"; }
    assert "a" + "t" == "at";
  }

  lemma ClassBodyC()
    ensures ClassBody(['c' as int, ']' as int, 'a' as int, 't' as int]) == Success(("c", ['a' as int, 't' as int]))
  {
    var body: seq<byte> := ['c' as int, ']' as int, 'a' as int, 't' as int];
    assert body[1..] == [']' as int, 'a' as int, 't' as int];
    assert body[1..][1..] == ['a' as int, 't' as int];
    assert "c" + [] == "c";
  }

  lemma ScanNegatedClass()
    ensures Scan(['[' as int, '!' as int, 'c' as int, ']' as int, 'a' as int, 't' as int]) == Success("[^c]at")
  {
    var p: seq<byte> := ['[' as int, '!' as int, 'c' as int, ']' as int, 'a' as int, 't' as int];
    assert p[2..] == ['c' as int, ']' as int, 'a' as int, 't' as int];
    ClassBodyC();
    ScanAt();
    assert "[^" + "c" + "]" + "at" == "[^c]at";
  }

  /** `[!c]at`: a negated class followed by literals. */
  lemma NegatedClassExample()
    ensures Translate(Of("[!c]at")) == Success("[^c]at")
  {
    assert Of("[!c]at") == ['[' as int, '!' as int, 'c' as int, ']' as int, 'a' as int, 't' as int];
    ScanNegatedClass();
  }

  lemma ClassBodyRange()
    ensures ClassBody(['3' as int, '-' as int, '5' as int, ']' as int]) == Success(("3-5", []))
  {
    var body: seq<byte> := ['3' as int, '-' as int, '5' as int, ']' as int];
    assert body[1..] == ['-' as int, '5' as int, ']' as int];
    assert body[1..][1..] == ['5' as int, ']' as int];
    assert body[1..][1..][1..] == [']' as int];
    assert ClassBody([']' as int]) == Success(([], []));
    assert ClassBody(['5' as int, ']' as int]) == Success(("5", [])) by { assert "5" + [] == "5"; }
    assert "3" + ("-" + "5") == "3-5";
  }

  lemma ScanNegatedRangeClass()
    ensures Scan(['[' as int, '!' as int, '3' as int, '-' as int, '5' as int, ']' as int]) == Success("[^3-5]")
  {
    var q: seq<byte> := ['[' as int, '!' as int, '3' as int, '-' as int, '5' as int, ']' as int];
    assert q[2..] == ['3' as int, '-' as int, '5' as int, ']' as int];
    ClassBodyRange();
    assert "[^" + "3-5" + "]" + [] == "[^3-5]";
  }

  /** An octet that is neither a glob nor a regex metacharacter is copied as it is. */
  lemma ScanPlainCons(c: byte, rest: seq<byte>)
    requires !IsGlobMeta(c) && !IsRegexMeta(c)
    ensures Scan([c] + rest) == Prepend([c as char], Scan(rest))
  {
    assert ([c] + rest)[1..] == rest;
  }

  lemma ScanPlainThenRange()
    ensures Scan(['a' as int, '[' as int, '!' as int, '3' as int, '-' as int, '5' as int, ']' as int]) == Success("a[^3-5]")
  {
    var q: seq<byte> := ['[' as int, '!' as int, '3' as int, '-' as int, '5' as int, ']' as int];
    assert ['a' as int] + q == ['a' as int, '[' as int, '!' as int, '3' as int, '-' as int, '5' as int, ']' as int];
    ScanPlainCons('a' as int, q);
    ScanNegatedRangeClass();
    JoinRange();
  }

  /** `a[!3-5]`: `-` inside a class is kept as the regex range operator. */
  lemma NegatedRangeExample()
    ensures Translate(Of("a[!3-5]")) == Success("a[^3-5]")
  {
    assert Of("a[!3-5]") == ['a' as int, '[' as int, '!' as int, '3' as int, '-' as int, '5' as int, ']' as int];
    ScanPlainThenRange();
  }

  lemma JoinRange()
    ensures "a" + "[^3-5]" == "a[^3-5]"
  {
  }

  lemma ScanDotStar()
    ensures Scan(['a' as int, '.' as int, '*' as int]) == Success("a\\.[^/]*")
  {
    var p: seq<byte> := ['a' as int, '.' as int, '*' as int];
    assert p[1..] == ['.' as int, '*' as int] && p[1..][1..] == ['*' as int] && p[1..][1..][1..] == [];
    assert Scan(['*' as int]) == Success("[^/]*") by { assert "[^/]*" + [] == "[^/]*"; }
    assert IsRegexMeta('.' as int) && RegexEscape('.' as int) == "\\.";
    assert Scan(['.' as int, '*' as int]) == Success("\\.[^/]*") by { assert "\\." + "[^/]*" == "\\.[^/]*"; }
    assert "a" + "\\.[^/]*" == "a\\.[^/]*";
  }

  /** `a.*`: `.` is escaped and `*` stays inside one path component. */
  lemma DotStarExample()
    ensures Translate(Of("a.*")) == Success("a\\.[^/]*")
  {
    assert Of("a.*") == ['a' as int, '.' as int, '*' as int];
    ScanDotStar();
  }

  lemma ScanATxt()
    ensures Scan(['a' as int, '.' as int, 't' as int, 'x' as int, 't' as int]) == Success("a\\.txt")
  {
    var p: seq<byte> := ['a' as int, '.' as int, 't' as int, 'x' as int, 't' as int];
    var txt: seq<byte> := ['t' as int, 'x' as int, 't' as int];
    assert txt[1..] == ['x' as int, 't' as int] && txt[1..][1..] == ['t' as int] && txt[1..][1..][1..] == [];
    assert Scan(['t' as int]) == Success("t") by { assert "t" + [] == "t"; }
    assert Scan(['x' as int, 't' as int]) == Success("xt") by { assert "x" + "t" == "xt"; }
    assert Scan(txt) == Success("txt") by { assert "t" + "xt" == "txt"; }
    assert p[1..] == ['.' as int] + txt && p[1..][1..] == txt;
    assert IsRegexMeta('.' as int) && RegexEscape('.' as int) == "\\.";
    assert Scan(p[1..]) == Success("\\.txt") by { assert "\\." + "txt" == "\\.txt"; }
    assert "a" + "\\.txt" == "a\\.txt";
  }

  lemma ScanAnyDirs()
    ensures Scan(['*' as int, '*' as int, '/' as int, 'a' as int, '.' as int, 't' as int, 'x' as int, 't' as int])
         == Success("([^/]+/)*a\\.txt")
  {
    var p: seq<byte> := ['*' as int, '*' as int, '/' as int, 'a' as int, '.' as int, 't' as int, 'x' as int, 't' as int];
    assert p[3..] == ['a' as int, '.' as int, 't' as int, 'x' as int, 't' as int];
    ScanATxt();
    assert "([^/]+/)*" + "a\\.txt" == "([^/]+/)*a\\.txt";
  }

  /** `**` + `/`: any number of leading directories. */
  lemma AnyDirsExample()
    ensures Translate(Of("**/a.txt")) == Success("([^/]+/)*a\\.txt")
  {
    assert Of("**/a.txt") == ['*' as int, '*' as int, '/' as int, 'a' as int, '.' as int, 't' as int, 'x' as int, 't' as int];
    ScanAnyDirs();
  }

  /** A `**` followed by anything but `/` or the end is `BadDoubleStar`. */
  lemma BadDoubleStarExample()
    ensures Translate(Of("**x")) == Failure(BadDoubleStar)
  {
    assert Of("**x") == ['*' as int, '*' as int, 'x' as int];
  }

  /** A class that reaches the end of the pattern is `BadBracket`. */
  lemma BadBracketExample()
    ensures Translate(Of("a[b")) == Failure(BadBracket)
  {
    var p: seq<byte> := ['a' as int, '[' as int, 'b' as int];
    assert Of("a[b") == p;
    assert p[1..] == ['[' as int, 'b' as int] && p[1..][1..] == ['b' as int] && p[1..][1..][1..] == [];
    assert ClassBody(['b' as int]) == Failure(BadBracket);
  }

  /** An escaped digit is `BadEscape`: digits are among the octets `isBadEscapeChar` rejects. */
  lemma BadEscapeExample()
    ensures Translate(Of("\\5")) == Failure(BadEscape)
  {
    assert Of("\\5") == ['\\' as int, '5' as int];
  }

  /** An escaped regex metacharacter that is no glob metacharacter stays escaped: `\.` gives `\.`. */
  lemma EscapedDotExample()
    ensures Translate(Of("\\.")) == Success("\\.")
  {
    assert Of("\\.") == ['\\' as int, '.' as int] + [];
    ScanEscape('.' as int, []);
    assert IsRegexMeta('.' as int) && Scan([]) == Success([]);
    assert RegexEscape('.' as int) + [] == "\\.";
  }

  /** An escaped space, which no regex treats specially, gives the space alone. */
  lemma EscapedSpaceExample()
    ensures Translate(Of("a\\ b")) == Success("a b")
  {
    var b: seq<byte> := ['b' as int];
    var q: seq<byte> := ['\\' as int, ' ' as int] + b;
    assert Of("a\\ b") == ['a' as int] + q;
    ScanPlainCons('a' as int, q);
    ScanEscape(' ' as int, b);
    ScanPlainCons('b' as int, []);
    assert b == b + [];
    assert "a" + (" " + ("b" + [])) == "a b";
  }
}
