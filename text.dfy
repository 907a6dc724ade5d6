/**
 * String primitives of the JavaScript runtime that the suggestion pipeline
 * relies on: the white-space class shared by `String.prototype.trim` and the
 * regular-expression escape `\s`, `trim` itself, and `startsWith`.
 */
module Text {

  /** The characters JavaScript's `trim()` removes and `\s` matches:
      the WhiteSpace and LineTerminator productions of ECMAScript. */
  predicate IsWhitespace(c: char) {
    || c == ' ' || c == '\t' || c == '\n' || c == '\r'
    || c == '\U{000B}' || c == '\U{000C}' || c == '\U{00A0}' || c == '\U{1680}'
    || ('\U{2000}' <= c <= '\U{200A}')
    || c == '\U{2028}' || c == '\U{2029}' || c == '\U{202F}' || c == '\U{205F}'
    || c == '\U{3000}' || c == '\U{FEFF}'
  }

  /** True when every character of `s` is white space (the empty string included). */
  predicate IsBlank(s: string) {
    forall i :: 0 <= i < |s| ==> IsWhitespace(s[i])
  }

  /** True when no character of `s` is white space. */
  predicate HasNoWhitespace(s: string) {
    forall i :: 0 <= i < |s| ==> !IsWhitespace(s[i])
  }

  /** `s.startsWith(prefix)` */
  predicate StartsWith(s: string, prefix: string) {
    |prefix| <= |s| && s[..|prefix|] == prefix
  }

  /** The first index at or after `i` whose character is not white space,
      or `|s|`. */
  function SkipWhitespace(s: string, i: nat): (a: nat)
    requires i <= |s|
    ensures i <= a <= |s|
    ensures forall k :: i <= k < a ==> IsWhitespace(s[k])
    ensures a < |s| ==> !IsWhitespace(s[a])
    decreases |s| - i
  {
    if i < |s| && IsWhitespace(s[i]) then SkipWhitespace(s, i + 1) else i
  }

  /** Where `s[lo..j]` ends once its trailing white space is dropped. */
  function DropTrailing(s: string, lo: nat, j: nat): (b: nat)
    requires lo <= j <= |s|
    ensures lo <= b <= j
    ensures forall k :: b <= k < j ==> IsWhitespace(s[k])
    ensures lo < b ==> !IsWhitespace(s[b - 1])
    decreases j
  {
    if lo < j && IsWhitespace(s[j - 1]) then DropTrailing(s, lo, j - 1) else j
  }

  /** `s.trim()`: the piece of `s` between its leading and its trailing
      white space. */
  function Trim(s: string): string {
    var a := SkipWhitespace(s, 0);
    s[a..DropTrailing(s, a, |s|)]
  }

  /** `trim()` yields the empty string exactly on blank input; otherwise it
      starts and ends with a character that is not white space. */
  lemma TrimShape(s: string)
    ensures Trim(s) == [] <==> IsBlank(s)
    ensures Trim(s) != [] ==> !IsWhitespace(Trim(s)[0]) && !IsWhitespace(Trim(s)[|Trim(s)| - 1])
  {
    var a := SkipWhitespace(s, 0);
    var b := DropTrailing(s, a, |s|);
    if a < |s| {
      assert !IsWhitespace(s[a]);
      assert b > a;
      assert Trim(s)[0] == s[a];
      assert Trim(s)[|Trim(s)| - 1] == s[b - 1];
    }
  }

  /** A string with no white space at either end is its own trim. */
  lemma TrimOfTrimmed(s: string)
    requires s != [] ==> !IsWhitespace(s[0]) && !IsWhitespace(s[|s| - 1])
    ensures Trim(s) == s
  {
    if s != [] {
      assert SkipWhitespace(s, 0) == 0;
      assert DropTrailing(s, 0, |s|) == |s|;
    }
  }

  /** Trimming twice is trimming once. */
  lemma TrimIdempotent(s: string)
    ensures Trim(Trim(s)) == Trim(s)
  {
    TrimShape(s);
    TrimOfTrimmed(Trim(s));
  }

  /** If `s` ends in a character that is not white space, so does `trim(s)`. */
  lemma TrimKeepsLast(s: string)
    requires s != [] && !IsWhitespace(s[|s| - 1])
    ensures Trim(s) != [] && Trim(s)[|Trim(s)| - 1] == s[|s| - 1]
  {
    var a := SkipWhitespace(s, 0);
    assert a < |s|;
    assert DropTrailing(s, a, |s|) == |s|;
  }

  /** The characters of `trim(s)` are characters of `s`. */
  lemma TrimChars(s: string, j: nat)
    requires j < |Trim(s)|
    ensures Trim(s)[j] in s
  {
    var a := SkipWhitespace(s, 0);
    assert Trim(s)[j] == s[a + j];
  }

  // ---------------------------------------------------------------------
  // Regrouping concatenations, stated once for any element type
  // ---------------------------------------------------------------------

  lemma AppendAssoc<T>(a: seq<T>, b: seq<T>, c: seq<T>)
    ensures (a + b) + c == a + (b + c)
  {
  }

  lemma AppendNil<T>(a: seq<T>)
    ensures a + [] == a && [] + a == a
  {
  }

  lemma AppendRegroup<T>(a: seq<T>, b: seq<T>, c: seq<T>, d: seq<T>)
    ensures a + ((b + c) + d) == ((a + b) + c) + d
  {
  }
}
