/**
  The handful of JavaScript string built-ins the core relies on, with the
  semantics ECMAScript gives them: the `\s` character class and `trim()`
  (which share one whitespace set), `indexOf`, `split` on a one-character
  separator, and `toLowerCase` (ASCII letters only, see README).
 */
module JsText {

  /** ECMAScript WhiteSpace and LineTerminator code points: the set matched by
      `\s` in a regular expression and removed by `String.prototype.trim`. */
  predicate IsWhitespace(c: char) {
    var n := c as int;
    || 0x09 <= n <= 0x0D || n == 0x20 || n == 0xA0 || n == 0x1680
    || 0x2000 <= n <= 0x200A || n == 0x2028 || n == 0x2029 || n == 0x202F
    || n == 0x205F || n == 0x3000 || n == 0xFEFF
  }

  predicate AllWhitespace(s: string) {
    forall i :: 0 <= i < |s| ==> IsWhitespace(s[i])
  }

  predicate NoWhitespace(s: string) {
    forall i :: 0 <= i < |s| ==> !IsWhitespace(s[i])
  }

  /** `s.indexOf(c)`: the first position of `c`, or -1. */
  function IndexOf(s: string, c: char): (r: int)
    ensures r == -1 <==> c !in s
    ensures r != -1 ==> 0 <= r < |s| && s[r] == c && c !in s[..r]
  {
    if |s| == 0 then -1
    else if s[0] == c then 0
    else
      var k := IndexOf(s[1..], c);
      assert s == [s[0]] + s[1..];
      if k == -1 then -1
      else
        assert s[..k + 1] == [s[0]] + s[1..][..k];
        k + 1
  }

  /** The length of the whitespace prefix of `s`. */
  function LeadingWhitespace(s: string): (n: nat)
    ensures n <= |s|
    ensures forall i :: 0 <= i < n ==> IsWhitespace(s[i])
    ensures n < |s| ==> !IsWhitespace(s[n])
  {
    if |s| == 0 || !IsWhitespace(s[0]) then 0
    else
      var n := LeadingWhitespace(s[1..]);
      assert forall i :: 1 <= i < |s| ==> s[i] == s[1..][i - 1];
      1 + n
  }

  /** Where the whitespace suffix of `s` starts. */
  function TrailingStart(s: string): (e: nat)
    ensures e <= |s|
    ensures forall i :: e <= i < |s| ==> IsWhitespace(s[i])
    ensures e > 0 ==> !IsWhitespace(s[e - 1])
  {
    if |s| == 0 || !IsWhitespace(s[|s| - 1]) then |s|
    else
      var e := TrailingStart(s[..|s| - 1]);
      assert forall i :: 0 <= i < |s| - 1 ==> s[i] == s[..|s| - 1][i];
      e
  }

  /** `s.trim()`: the part of `s` between its whitespace prefix and its
      whitespace suffix. */
  function Trim(s: string): (r: string)
    ensures var a := LeadingWhitespace(s);
            && a + |r| <= |s| && r == s[a..a + |r|]
            && (forall i :: 0 <= i < a ==> IsWhitespace(s[i]))
            && (forall i :: a + |r| <= i < |s| ==> IsWhitespace(s[i]))
    ensures |r| > 0 ==> !IsWhitespace(r[0]) && !IsWhitespace(r[|r| - 1])
  {
    var a := LeadingWhitespace(s);
    if a == |s| then ""
    else
      var e := TrailingStart(s);
      assert a < e;
      s[a..e]
  }

  /** `s.trim()` is empty exactly when `s` is all whitespace. */
  lemma TrimEmptyIffAllWhitespace(s: string)
    ensures Trim(s) == "" <==> AllWhitespace(s)
  {
  }

  /** The inverse of `Split`: the parts glued back with the separator. */
  function Join(parts: seq<string>, sep: char): string
  {
    if |parts| == 0 then ""
    else if |parts| == 1 then parts[0]
    else parts[0] + [sep] + Join(parts[1..], sep)
  }

  /** `s.split(sep)` for a one-character separator: the maximal
      separator-free runs of `s`, including empty ones, in order. */
  function Split(s: string, sep: char): (parts: seq<string>)
    ensures |parts| >= 1
    ensures forall i :: 0 <= i < |parts| ==> sep !in parts[i]
    ensures Join(parts, sep) == s
    decreases |s|
  {
    var i := IndexOf(s, sep);
    if i == -1 then [s]
    else
      var rest := Split(s[i + 1..], sep);
      var parts := [s[..i]] + rest;
      assert parts[1..] == rest;
      assert forall k :: 1 <= k < |parts| ==> parts[k] == rest[k - 1];
      assert Join(parts, sep) == s[..i] + [sep] + s[i + 1..];
      assert s == s[..i] + [sep] + s[i + 1..];
      parts
  }

  /** A position holding `c` with no earlier `c` is what `IndexOf` finds. */
  lemma IndexOfIsFirst(s: string, c: char, k: nat)
    requires k < |s| && s[k] == c && c !in s[..k]
    ensures IndexOf(s, c) == k
  {
    assert s[..k + 1][k] == c;
  }

  /** Splitting a join of separator-free parts gives the parts back. */
  lemma {:induction false} SplitJoin(parts: seq<string>, sep: char)
    requires |parts| >= 1
    requires forall i :: 0 <= i < |parts| ==> sep !in parts[i]
    ensures Split(Join(parts, sep), sep) == parts
    decreases |parts|
  {
    var s := Join(parts, sep);
    if |parts| > 1 {
      var k := |parts[0]|;
      var tail := Join(parts[1..], sep);
      assert s == parts[0] + [sep] + tail;
      assert s[..k] == parts[0];
      IndexOfIsFirst(s, sep, k);
      assert s[k + 1..] == tail;
      SplitJoin(parts[1..], sep);
      assert Split(s, sep) == [parts[0]] + parts[1..];
      assert parts == [parts[0]] + parts[1..];
    } else {
      assert sep !in s;
    }
  }

  predicate IsAsciiUpper(c: char) {
    'A' <= c <= 'Z'
  }

  function ToLowerChar(c: char): char {
    if IsAsciiUpper(c) then (c as int + 32) as char else c
  }

  /** `s.toLowerCase()` restricted to ASCII letters. */
  function ToLowerAscii(s: string): (r: string)
    ensures |r| == |s|
    ensures forall i :: 0 <= i < |s| ==> r[i] == ToLowerChar(s[i])
  {
    seq(|s|, i requires 0 <= i < |s| => ToLowerChar(s[i]))
  }
}
