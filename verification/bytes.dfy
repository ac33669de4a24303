/** Octets and the text views the C++ code takes of them. */
module Bytes {

  /** One octet, as the code sees a `char` after `static_cast<uint8_t>`. */
  type byte = x: int | 0 <= x < 256

  /** The path separator `/`. */
  const Slash: byte := '/' as int

  /** The octets of a Latin-1 string literal (used for constants and examples). */
  function Of(s: string): (r: seq<byte>)
    requires forall k :: 0 <= k < |s| ==> s[k] as int < 256
    ensures |r| == |s|
    ensures forall k :: 0 <= k < |s| ==> r[k] == s[k] as int
  {
    if s == [] then [] else [s[0] as int] + Of(s[1..])
  }

  /** The characters a regex string built by `result += static_cast<char>(c)` holds. */
  function Chars(s: seq<byte>): (r: seq<char>)
    ensures |r| == |s|
    ensures forall k :: 0 <= k < |s| ==> r[k] == s[k] as char
  {
    if s == [] then [] else [s[0] as char] + Chars(s[1..])
  }

  /**
   * What a `const char*` view of `s` denotes: the octets before the first NUL.
   * `std::string(p)`, `while(*p)` and `for(...; line[p]; ...)` all stop there.
   */
  function CStr(s: seq<byte>): (r: seq<byte>)
    ensures r <= s
    ensures forall k :: 0 <= k < |r| ==> r[k] != 0
    ensures |r| < |s| ==> s[|r|] == 0
  {
    if s == [] || s[0] == 0 then [] else [s[0]] + CStr(s[1..])
  }

  predicate NulFree(s: seq<byte>) {
    forall k :: 0 <= k < |s| ==> s[k] != 0
  }

  /** A text with no NUL octet is its own C-string view. */
  lemma {:induction false} CStrOfNulFree(s: seq<byte>)
    requires NulFree(s)
    ensures CStr(s) == s
  {
  }

  /** Facts about an index before the first NUL of `s`. */
  lemma BeforeNul(s: seq<byte>, i: nat)
    requires i < |s| && s[i] != 0
    requires forall k :: 0 <= k < i ==> s[k] != 0
    ensures i < |CStr(s)| && CStr(s)[i] == s[i]
  {
  }

  /** Where a `while(*p)` loop that saw no NUL before `i` stops. */
  lemma StopsAt(s: seq<byte>, i: nat)
    requires i <= |s| && (i == |s| || s[i] == 0)
    requires forall k :: 0 <= k < i ==> s[k] != 0
    ensures CStr(s) == s[..i]
  {
  }

  /** A NUL-free prefix is kept whole by the C-string view. */
  lemma {:induction false} CStrAppend(a: seq<byte>, b: seq<byte>)
    requires NulFree(a)
    ensures CStr(a + b) == a + CStr(b)
    decreases |a|
  {
    if a != [] {
      assert (a + b)[0] == a[0] && (a + b)[1..] == a[1..] + b;
      CStrAppend(a[1..], b);
      assert CStr(a + b) == [a[0]] + CStr(a[1..] + b);
      assert [a[0]] + (a[1..] + CStr(b)) == ([a[0]] + a[1..]) + CStr(b);
      assert [a[0]] + a[1..] == a;
    } else {
      assert a + b == b;
    }
  }
}
