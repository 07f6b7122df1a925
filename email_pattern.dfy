/** The e-mail pattern `^[^\s@]+@[^\s@]+\.[^\s@]+$` shared by the server
    route and the client form. It is a loose ad-hoc pattern, not the
    `addr-spec` of RFC 5322.

    Matching on `char`s gives the same verdict as JavaScript's matching on
    UTF-16 code units: a surrogate half is neither `\s` nor `@`, and neither
    is a character above U+FFFF, so `[^\s@]` accepts both forms alike. */
module EmailPattern {
  import opened JsString

  /** The character class `[^\s@]`. */
  predicate PartChar(c: char) {
    !IsJsWhitespace(c) && c != '@'
  }

  /** `[^\s@]+`: a non-empty run of `PartChar`s. */
  predicate Part(s: string) {
    |s| > 0 && forall k :: 0 <= k < |s| ==> PartChar(s[k])
  }

  /** The regular expression, anchored at both ends: some `@` at `i` and some
      `.` at `j` split `s` into three `[^\s@]+` runs. Backtracking over the
      second run, which may itself hold dots, is the choice of `j`. */
  predicate Matches(s: string): (b: bool)
    ensures b ==> |s| >= 5 && '@' in s && '.' in s
    ensures b ==> s[0] != '@'
  {
    exists i, j :: 0 < i < j < |s| && s[i] == '@' && s[j] == '.' &&
      Part(s[..i]) && Part(s[i + 1..j]) && Part(s[j + 1..])
  }

  /** The pattern in plain words: no whitespace anywhere, exactly one `@`,
      not in first position, and after it a `.` that is neither the first
      nor the last character of the part after the `@`. */
  predicate PlainRule(s: string) {
    && (forall k :: 0 <= k < |s| ==> !IsJsWhitespace(s[k]))
    && exists i :: 0 < i < |s| && s[i] == '@' &&
         (forall k :: 0 <= k < |s| && s[k] == '@' ==> k == i) &&
         (exists j :: i + 1 < j < |s| - 1 && s[j] == '.')
  }

  lemma MatchesImpliesPlainRule(s: string)
    requires Matches(s)
    ensures PlainRule(s)
  {
    var i, j :| 0 < i < j < |s| && s[i] == '@' && s[j] == '.' &&
      Part(s[..i]) && Part(s[i + 1..j]) && Part(s[j + 1..]);
    forall k | 0 <= k < |s| ensures !IsJsWhitespace(s[k]) && (s[k] == '@' ==> k == i) {
      if k < i {
        assert s[..i][k] == s[k];
      } else if i < k < j {
        assert s[i + 1..j][k - i - 1] == s[k];
      } else if j < k {
        assert s[j + 1..][k - j - 1] == s[k];
      }
    }
    assert i + 1 < j < |s| - 1;
  }

  lemma PlainRuleImpliesMatches(s: string)
    requires PlainRule(s)
    ensures Matches(s)
  {
    var i :| 0 < i < |s| && s[i] == '@' &&
      (forall k :: 0 <= k < |s| && s[k] == '@' ==> k == i) &&
      (exists j :: i + 1 < j < |s| - 1 && s[j] == '.');
    var j :| i + 1 < j < |s| - 1 && s[j] == '.';
    var local, domain, top := s[..i], s[i + 1..j], s[j + 1..];
    forall k | 0 <= k < |local| ensures PartChar(local[k]) {
      assert local[k] == s[k];
    }
    forall k | 0 <= k < |domain| ensures PartChar(domain[k]) {
      assert domain[k] == s[k + i + 1];
    }
    forall k | 0 <= k < |top| ensures PartChar(top[k]) {
      assert top[k] == s[k + j + 1];
    }
    assert Part(local) && Part(domain) && Part(top);
  }

  /** The regular expression accepts exactly the strings of `PlainRule`. */
  lemma MatchesIffPlainRule(s: string)
    ensures Matches(s) <==> PlainRule(s)
  {
    if Matches(s) {
      MatchesImpliesPlainRule(s);
    }
    if PlainRule(s) {
      PlainRuleImpliesMatches(s);
    }
  }
}
