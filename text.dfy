/** Character classes used by the .NET string and number routines the reader calls. */
module Text {

  /**
   * The characters char.IsWhiteSpace accepts, one by one: the ASCII controls
   * U+0009..U+000D, the Unicode separators of categories Zs, Zl and Zp, and U+0085.
   */
  const WhiteSpaceTable: seq<char> := [
    '\U{0009}', '\U{000A}', '\U{000B}', '\U{000C}', '\U{000D}', '\U{0020}', '\U{0085}', '\U{00A0}',
    '\U{1680}', '\U{2000}', '\U{2001}', '\U{2002}', '\U{2003}', '\U{2004}', '\U{2005}', '\U{2006}',
    '\U{2007}', '\U{2008}', '\U{2009}', '\U{200A}', '\U{2028}', '\U{2029}', '\U{202F}', '\U{205F}',
    '\U{3000}']

  /** char.IsWhiteSpace, written as the ranges of the table above. */
  function IsWhiteSpace(c: char): (b: bool)
    ensures b <==> c in WhiteSpaceTable
  {
    var n := c as int;
    (0x09 <= n <= 0x0D) || n == 0x20 || n == 0x85 || n == 0xA0 || n == 0x1680
    || (0x2000 <= n <= 0x200A) || n == 0x2028 || n == 0x2029
    || n == 0x202F || n == 0x205F || n == 0x3000
  }

  /** string.IsNullOrWhiteSpace applied to a string that is not null. */
  function IsBlank(s: string): (b: bool)
    ensures s == [] ==> b
    ensures b <==> forall c :: c in s ==> c in WhiteSpaceTable
  {
    forall i :: 0 <= i < |s| ==> IsWhiteSpace(s[i])
  }

  /** The white space that NumberStyles.AllowLeadingWhite and AllowTrailingWhite skip. */
  predicate IsNumberWhite(c: char) {
    c == ' ' || ('\t' <= c <= '\r')
  }

  /** An ASCII decimal digit, the only digits the invariant culture parses. */
  predicate IsDigit(c: char) {
    '0' <= c <= '9'
  }

  /** The two character classes a number scan runs over. */
  datatype CharClass = NumberWhite | Digit

  predicate InClass(c: char, cls: CharClass) {
    match cls
    case NumberWhite => IsNumberWhite(c)
    case Digit => IsDigit(c)
  }

  /** Splits `s` after the longest prefix whose characters all belong to `cls`. */
  function Split(s: string, cls: CharClass): (r: (string, string))
    ensures r.0 + r.1 == s
    ensures forall i :: 0 <= i < |r.0| ==> InClass(r.0[i], cls)
    ensures r.1 == [] || !InClass(r.1[0], cls)
  {
    if |s| > 0 && InClass(s[0], cls) then
      var (p, rest) := Split(s[1..], cls);
      assert [s[0]] + (p + rest) == s;
      ([s[0]] + p, rest)
    else
      ([], s)
  }

  /** The split is unique: it falls exactly where the characters of `cls` run out. */
  lemma SplitOfConcat(a: string, b: string, cls: CharClass)
    requires forall i :: 0 <= i < |a| ==> InClass(a[i], cls)
    requires b == [] || !InClass(b[0], cls)
    ensures Split(a + b, cls) == (a, b)
  {
    var (p, r) := Split(a + b, cls);
    assert forall i :: 0 <= i < |a| ==> (a + b)[i] == a[i];
    assert b != [] ==> (a + b)[|a|] == b[0];
    assert forall i :: 0 <= i < |p| ==> (p + r)[i] == p[i];
    assert r != [] ==> (p + r)[|p|] == r[0];
    assert |p| == |a|;
    assert p == (a + b)[..|a|] == a;
    assert r == (a + b)[|a|..] == b;
  }
}
