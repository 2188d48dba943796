/**
  The e-mail check shared by the registration and password-reset forms:
  the regular expression `/^[^\s@]+@[^\s@]+\.[^\s@]+$/`.

  `MatchesPattern` reads the language off the pattern (three runs of the
  class `[^\s@]+` separated by an `@` and a `.`); `IsValidEmail` is the
  decision procedure the model uses. `EmailCharacterisation` proves the two
  agree on every string.
 */
module EmailPattern {
  import opened JsText

  /** A string matched by `[^\s@]+`. */
  predicate IsRun(x: string) {
    |x| > 0 && '@' !in x && NoWhitespace(x)
  }

  /** `s` splits as run `@` run `.` run, with `@` at `i` and `.` at `j`. */
  predicate SplitsAt(s: string, i: int, j: int) {
    && 0 <= i < j < |s|
    && s[i] == '@' && s[j] == '.'
    && IsRun(s[..i]) && IsRun(s[i + 1..j]) && IsRun(s[j + 1..])
  }

  /** The language of the regular expression. */
  ghost predicate MatchesPattern(s: string) {
    exists i, j :: SplitsAt(s, i, j)
  }

  /** Some `.` of the domain is neither its first nor its last character. */
  predicate HasInnerDot(d: string) {
    exists k :: 0 < k < |d| - 1 && d[k] == '.'
  }

  /** Exactly one `@`, not in first position; no whitespace anywhere; and the
      part after the `@` has a `.` that is neither its first nor its last character. */
  predicate IsValidEmail(s: string) {
    var at := IndexOf(s, '@');
    && at > 0
    && '@' !in s[at + 1..]
    && NoWhitespace(s)
    && HasInnerDot(s[at + 1..])
  }

  /** The decision procedure accepts exactly the strings the regular expression matches. */
  lemma EmailCharacterisation(s: string)
    ensures IsValidEmail(s) <==> MatchesPattern(s)
  {
    if IsValidEmail(s) {
      ValidEmailMatches(s);
    }
    if MatchesPattern(s) {
      var i, j :| SplitsAt(s, i, j);
      MatchingEmailIsValid(s, i, j);
    }
  }

  lemma ValidEmailMatches(s: string)
    requires IsValidEmail(s)
    ensures MatchesPattern(s)
  {
    var i := IndexOf(s, '@');
    var d := s[i + 1..];
    var k :| 0 < k < |d| - 1 && d[k] == '.';
    var j := i + 1 + k;
    assert s[i + 1..j] == d[..k];
    assert s[j + 1..] == d[k + 1..];
    assert '@' !in s[i + 1..j];
    assert '@' !in s[j + 1..];
    assert SplitsAt(s, i, j);
  }

  lemma MatchingEmailIsValid(s: string, i: int, j: int)
    requires SplitsAt(s, i, j)
    ensures IsValidEmail(s)
  {
    IndexOfIsFirst(s, '@', i);
    var d := s[i + 1..];
    assert d == s[i + 1..j] + ['.'] + s[j + 1..];
    assert '@' !in d;
    assert d[j - i - 1] == '.';
    assert HasInnerDot(d);
    forall m | 0 <= m < |s| ensures !IsWhitespace(s[m]) {
      if m < i {
        assert s[m] == s[..i][m];
      } else if i < m < j {
        assert s[m] == s[i + 1..j][m - i - 1];
      } else if j < m {
        assert s[m] == s[j + 1..][m - j - 1];
      }
    }
  }

  /** The empty string is not an e-mail address. */
  lemma EmptyIsNotEmail()
    ensures !IsValidEmail("")
  {
  }

  /** Two of the form's boundary cases: an empty string and a dotless domain are refused. */
  lemma RejectsEmptyAndDotless()
    ensures !IsValidEmail("")
    ensures !IsValidEmail("a@b")
    ensures !IsValidEmail("a@.b")
    ensures IsValidEmail("a@b.c")
  {
    assert IndexOf("a@b", '@') == 1;
    assert IndexOf("a@.b", '@') == 1;
    assert "a@b"[2..] == "b";
    assert "a@.b"[2..] == ".b";
    IndexOfIsFirst("a@b.c", '@', 1);
    assert "a@b.c"[2..] == "b.c";
    assert "b.c"[1] == '.';
  }
}
