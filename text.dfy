/** Strings as the player uses them: blank tests, ordinal ordering,
    case-insensitive containment and the path helpers of file loading. */
module Text {

  /** The characters for which .NET's Char.IsWhiteSpace holds. */
  predicate IsWhiteSpace(c: char) {
    ('\U{0009}' <= c <= '\U{000D}') || c == ' ' || c == '\U{0085}' || c == '\U{00A0}'
    || c == '\U{1680}' || ('\U{2000}' <= c <= '\U{200A}') || c == '\U{2028}' || c == '\U{2029}'
    || c == '\U{202F}' || c == '\U{205F}' || c == '\U{3000}'
  }

  /** string.IsNullOrWhiteSpace for a non-null string. */
  predicate IsBlank(s: string) {
    forall i | 0 <= i < |s| :: IsWhiteSpace(s[i])
  }

  // ---------------------------------------------------------------------------
  // Ordinal order: strings compared character by character, a proper prefix first.

  predicate StrLeq(a: string, b: string) {
    if a == [] then true
    else if b == [] then false
    else if a[0] == b[0] then StrLeq(a[1..], b[1..])
    else a[0] < b[0]
  }

  lemma {:induction false} StrLeqTotal(a: string, b: string)
    ensures StrLeq(a, b) || StrLeq(b, a)
  {
    if a != [] && b != [] && a[0] == b[0] {
      StrLeqTotal(a[1..], b[1..]);
    }
  }

  lemma {:induction false} StrLeqAntisymmetric(a: string, b: string)
    requires StrLeq(a, b) && StrLeq(b, a)
    ensures a == b
  {
    if a != [] && b != [] {
      StrLeqAntisymmetric(a[1..], b[1..]);
      assert a == [a[0]] + a[1..] && b == [b[0]] + b[1..];
    }
  }

  lemma {:induction false} StrLeqTransitive(a: string, b: string, c: string)
    requires StrLeq(a, b) && StrLeq(b, c)
    ensures StrLeq(a, c)
  {
    if a != [] && b != [] && c != [] && a[0] == b[0] && b[0] == c[0] {
      StrLeqTransitive(a[1..], b[1..], c[1..]);
    }
  }

  // ---------------------------------------------------------------------------
  // Case mapping, ASCII letters only.

  function ToLowerChar(c: char): (r: char)
  {
    if 'A' <= c <= 'Z' then (c as int + 32) as char else c
  }

  function ToUpperChar(c: char): (r: char)
  {
    if 'a' <= c <= 'z' then (c as int - 32) as char else c
  }

  /** String.ToLower, character by character. */
  function ToLower(s: string): string {
    seq(|s|, i requires 0 <= i < |s| => ToLowerChar(s[i]))
  }

  /** The case folding OrdinalIgnoreCase compares under. */
  function FoldCase(s: string): (r: string)
    ensures |r| == |s|
    ensures forall i | 0 <= i < |s| :: r[i] == ToUpperChar(s[i])
  {
    if s == [] then [] else [ToUpperChar(s[0])] + FoldCase(s[1..])
  }

  /** The needle occurs at position i of the haystack, ignoring case. */
  predicate OccursAt(haystack: string, needle: string, i: int)
    requires 0 <= i <= |haystack| - |needle|
  {
    FoldCase(haystack[i..i + |needle|]) == FoldCase(needle)
  }

  /** string.Contains(needle, StringComparison.OrdinalIgnoreCase). */
  predicate ContainsIgnoreCase(haystack: string, needle: string) {
    exists i | 0 <= i <= |haystack| - |needle| :: OccursAt(haystack, needle, i)
  }

  /** Containment depends on the needle only up to case. */
  lemma ContainsIgnoreCaseUpToCase(haystack: string, n1: string, n2: string)
    requires FoldCase(n1) == FoldCase(n2)
    ensures ContainsIgnoreCase(haystack, n1) <==> ContainsIgnoreCase(haystack, n2)
  {
    assert |n1| == |n2|;
    if ContainsIgnoreCase(haystack, n1) {
      var i :| 0 <= i <= |haystack| - |n1| && OccursAt(haystack, n1, i);
      assert OccursAt(haystack, n2, i);
    }
    if ContainsIgnoreCase(haystack, n2) {
      var i :| 0 <= i <= |haystack| - |n2| && OccursAt(haystack, n2, i);
      assert OccursAt(haystack, n1, i);
    }
  }

  // ---------------------------------------------------------------------------
  // Paths, after System.IO.Path.

  predicate IsSeparator(c: char) {
    c == '/' || c == '\\'
  }

  predicate IsDotOrSeparator(c: char) {
    c == '.' || IsSeparator(c)
  }

  /** The last position below n whose character satisfies p, or -1. */
  function LastWhere(s: string, n: nat, p: char -> bool): (r: int)
    requires n <= |s|
    ensures -1 <= r < n
    ensures r >= 0 ==> p(s[r])
    ensures forall k | r < k < n :: !p(s[k])
    decreases n
  {
    if n == 0 then -1
    else if p(s[n - 1]) then n - 1
    else LastWhere(s, n - 1, p)
  }

  /** Path.GetExtension: the text from the last '.' of the file name on,
      empty when the file name has no '.' or ends with it. */
  function Extension(path: string): string {
    var j := LastWhere(path, |path|, IsDotOrSeparator);
    if j >= 0 && path[j] == '.' && j != |path| - 1 then path[j..] else ""
  }

  /** Path.GetFileName: the text after the last separator, that is the longest
      suffix of the path holding no separator. */
  function FileName(path: string): (r: string)
    ensures |r| <= |path| && r == path[|path| - |r|..]
    ensures forall k | 0 <= k < |r| :: !IsSeparator(r[k])
    ensures |r| < |path| ==> IsSeparator(path[|path| - |r| - 1])
  {
    path[LastWhere(path, |path|, IsSeparator) + 1..]
  }

  /** Path.GetFileNameWithoutExtension: the file name up to its last '.'. */
  function FileNameWithoutExtension(path: string): (r: string)
    ensures forall k | 0 <= k < |r| :: !IsSeparator(r[k])
  {
    var name := FileName(path);
    var d := LastWhere(name, |name|, IsDot);
    if d < 0 then name else name[..d]
  }

  predicate IsDot(c: char) {
    c == '.'
  }

  /** The stem is the whole file name when it holds no '.'; otherwise the file
      name is the stem, a '.', and a rest holding no '.'. */
  lemma FileNameWithoutExtensionIsStem(path: string)
    ensures var name := FileName(path);
      var stem := FileNameWithoutExtension(path);
      && ((forall k | 0 <= k < |name| :: name[k] != '.') ==> stem == name)
      && ((exists k | 0 <= k < |name| :: name[k] == '.') ==>
          && |stem| < |name| && name[..|stem|] == stem && name[|stem|] == '.'
          && forall k | |stem| < k < |name| :: name[k] != '.')
  {
    var name := FileName(path);
    var d := LastWhere(name, |name|, IsDot);
    if exists k | 0 <= k < |name| :: name[k] == '.' {
      var k :| 0 <= k < |name| && name[k] == '.';
      assert IsDot(name[k]);
      assert d >= 0;
    }
  }

  /** A path ends in the extension e (a '.' followed by characters that are
      neither '.' nor separators), compared after lower-casing, exactly when
      Path.GetExtension lower-cased is e. */
  lemma {:induction false} ExtensionIsLowerSuffix(path: string, e: string)
    requires |e| >= 2 && e[0] == '.'
    requires forall k | 1 <= k < |e| :: !IsDotOrSeparator(e[k])
    ensures ToLower(Extension(path)) == e <==> (|e| <= |path| && ToLower(path[|path| - |e|..]) == e)
  {
    var j := LastWhere(path, |path|, IsDotOrSeparator);
    if ToLower(Extension(path)) == e {
      assert Extension(path) == path[j..];
    }
    if |e| <= |path| && ToLower(path[|path| - |e|..]) == e {
      var m := |path| - |e|;
      var u := path[m..];
      assert ToLowerChar(path[m]) == ToLower(u)[0] == '.';
      assert path[m] == '.';
      forall k | m < k < |path|
        ensures !IsDotOrSeparator(path[k])
      {
        assert ToLowerChar(path[k]) == ToLower(u)[k - m] == e[k - m];
      }
      assert j == m;
      assert Extension(path) == u;
    }
  }
}
