/** `escapeHtml` of app/api/contact/route.ts: one left-to-right pass of
    `text.replace(/[&<>"']/g, ...)` that turns each of the five characters
    into its character reference (HTML Living Standard, section 13.1.4,
    "Character references"); every other character is copied. */
module HtmlEscape {
  import opened JsString

  /** The five characters the pattern `[&<>"']` matches. */
  predicate IsSpecial(c: char) {
    c == '&' || c == '<' || c == '>' || c == '"' || c == '\''
  }

  /** The lookup table of `escapeHtml`. */
  function Reference(c: char): (e: string)
    ensures IsSpecial(c) ==> |e| > 1 && e[0] == '&' && e[|e| - 1] == ';'
    ensures !IsSpecial(c) ==> e == [c]
  {
    match c
    case '&' => "&amp;"
    case '<' => "&lt;"
    case '>' => "&gt;"
    case '"' => "&quot;"
    case '\'' => "&#039;"
    case _ => [c]
  }

  /** `escapeHtml(text)`: the output holds none of `< > " '`, which only
      ever appear in it as parts of the references it writes. */
  function EscapeHtml(text: string): (r: string)
    ensures forall k :: 0 <= k < |r| ==> r[k] != '<' && r[k] != '>' && r[k] != '"' && r[k] != '\''
  {
    if text == [] then []
    else Reference(text[0]) + EscapeHtml(text[1..])
  }

  /** `&` at position `k` of `r` begins one of the five references. */
  predicate ReferenceAt(r: string, k: nat)
    requires k <= |r|
  {
    var tail := r[k..];
    "&amp;" <= tail || "&lt;" <= tail || "&gt;" <= tail || "&quot;" <= tail || "&#039;" <= tail
  }

  /** Decoding of exactly the five references `escapeHtml` writes. */
  function UnescapeHtml(s: string): string
    decreases |s|
  {
    if s == [] then []
    else if "&amp;" <= s then "&" + UnescapeHtml(s[5..])
    else if "&lt;" <= s then "<" + UnescapeHtml(s[4..])
    else if "&gt;" <= s then ">" + UnescapeHtml(s[4..])
    else if "&quot;" <= s then "\"" + UnescapeHtml(s[6..])
    else if "&#039;" <= s then "'" + UnescapeHtml(s[6..])
    else [s[0]] + UnescapeHtml(s[1..])
  }

  lemma UnescapeReference(c: char, rest: string)
    ensures UnescapeHtml(Reference(c) + rest) == [c] + UnescapeHtml(rest)
  {
    var e := Reference(c);
    var s := e + rest;
    assert s[|e|..] == rest;
    assert s[..|e|] == e;
    match c
    case '&' =>
      assert "&amp;" <= s;
    case '<' =>
      assert s[1] == 'l';
      assert "&lt;" <= s;
    case '>' =>
      assert s[1] == 'g';
      assert "&gt;" <= s;
    case '"' =>
      assert s[1] == 'q';
      assert "&quot;" <= s;
    case '\'' =>
      assert s[1] == '#';
      assert "&#039;" <= s;
    case _ =>
      assert s[0] == c != '&';
  }

  /** An escaped special character begins with one of the five references. */
  lemma ReferenceBegins(c: char, rest: string)
    requires IsSpecial(c)
    ensures ReferenceAt(Reference(c) + rest, 0)
  {
    var s := Reference(c) + rest;
    assert s[0..] == s;
    assert s[..|Reference(c)|] == Reference(c);
  }

  /** Escaping loses nothing: decoding the five references gives the text
      back, so every character that is not special survives, in order. */
  lemma {:induction false} UnescapeEscape(text: string)
    ensures UnescapeHtml(EscapeHtml(text)) == text
  {
    if text != [] {
      UnescapeReference(text[0], EscapeHtml(text[1..]));
      UnescapeEscape(text[1..]);
    }
  }

  /** Every `&` of the output begins one of `&amp; &lt; &gt; &quot; &#039;`. */
  lemma {:induction false} AmpersandsBeginReferences(text: string)
    ensures forall k :: 0 <= k < |EscapeHtml(text)| && EscapeHtml(text)[k] == '&' ==>
      ReferenceAt(EscapeHtml(text), k)
  {
    if text != [] {
      var e, rest := Reference(text[0]), EscapeHtml(text[1..]);
      var r := e + rest;
      AmpersandsBeginReferences(text[1..]);
      forall k | 0 <= k < |r| && r[k] == '&' ensures ReferenceAt(r, k) {
        if k < |e| {
          assert r[k] == e[k];
          assert IsSpecial(text[0]) && k == 0;
          ReferenceBegins(text[0], rest);
        } else {
          assert r[k] == rest[k - |e|];
          assert ReferenceAt(rest, k - |e|);
          assert r[k..] == rest[k - |e|..];
        }
      }
    }
  }

  /** Each special character grows by the length of its reference minus one. */
  lemma {:induction false} EscapeLength(text: string)
    ensures |EscapeHtml(text)| == |text| + 4 * Occurrences(text, '&') + 3 * Occurrences(text, '<')
      + 3 * Occurrences(text, '>') + 5 * Occurrences(text, '"') + 5 * Occurrences(text, '\'')
  {
    if text != [] {
      EscapeLength(text[1..]);
    }
  }

  /** Text without special characters is left as it is. */
  lemma {:induction false} EscapePlain(text: string)
    requires forall k :: 0 <= k < |text| ==> !IsSpecial(text[k])
    ensures EscapeHtml(text) == text
  {
    if text != [] {
      EscapePlain(text[1..]);
    }
  }

  /** Escaping a special character always writes an `&`. */
  lemma {:induction false} EscapeWritesAmpersand(text: string)
    requires exists k :: 0 <= k < |text| && IsSpecial(text[k])
    ensures '&' in EscapeHtml(text)
  {
    var r := EscapeHtml(text);
    assert r == Reference(text[0]) + EscapeHtml(text[1..]);
    if !IsSpecial(text[0]) {
      var k :| 0 <= k < |text| && IsSpecial(text[k]);
      assert text[1..][k - 1] == text[k];
      EscapeWritesAmpersand(text[1..]);
      assert '&' in EscapeHtml(text[1..]);
    } else {
      assert r[0] == '&';
    }
  }

  /** A single pass is not idempotent: escaping again changes the text
      exactly when the text held a special character (`&lt;` becomes
      `&amp;lt;`). */
  lemma EscapeIdempotentIffPlain(text: string)
    ensures EscapeHtml(EscapeHtml(text)) == EscapeHtml(text) <==>
      forall k :: 0 <= k < |text| ==> !IsSpecial(text[k])
  {
    if forall k :: 0 <= k < |text| ==> !IsSpecial(text[k]) {
      EscapePlain(text);
    } else {
      var once := EscapeHtml(text);
      EscapeWritesAmpersand(text);
      EscapeLength(once);
      assert Occurrences(once, '&') > 0;
    }
  }

  lemma EscapeExamples()
    ensures EscapeHtml("<") == "&lt;"
    ensures EscapeHtml("&lt;") == "&amp;lt;"
  {
  }
}
