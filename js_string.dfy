/** JavaScript string semantics the contact-form code relies on.

    Dafny's `char` is a Unicode scalar value, while a JavaScript string is a
    sequence of UTF-16 code units: `s.length` counts a character above U+FFFF
    twice (once per surrogate half). `Utf16Length` gives that count. */
module JsString {

  /** Number of UTF-16 code units of `s`, i.e. JavaScript's `s.length`. */
  function Utf16Length(s: string): (n: nat)
    ensures |s| <= n <= 2 * |s|
    ensures n == 0 <==> s == []
  {
    if s == [] then 0
    else (if s[0] as int >= 0x1_0000 then 2 else 1) + Utf16Length(s[1..])
  }

  /** Every character of `s` lies in the Basic Multilingual Plane. */
  predicate InBmp(s: string) {
    forall k :: 0 <= k < |s| ==> s[k] as int < 0x1_0000
  }

  /** For text made only of BMP characters, `.length` is the character count. */
  lemma {:induction false} Utf16LengthInBmp(s: string)
    requires InBmp(s)
    ensures Utf16Length(s) == |s|
  {
    if s != [] {
      assert InBmp(s[1..]) by {
        forall k | 0 <= k < |s[1..]| ensures s[1..][k] as int < 0x1_0000 {
          assert s[1..][k] == s[k + 1];
        }
      }
      Utf16LengthInBmp(s[1..]);
    }
  }

  /** The characters matched by `\s` in an ECMAScript regular expression:
      the code points of the WhiteSpace and LineTerminator productions of
      ECMA-262 (the Unicode Zs category as of recent Unicode versions, plus
      the listed controls). All of them lie in the BMP. */
  predicate IsJsWhitespace(c: char): (b: bool)
    ensures b ==> c as int <= 0xFFFF
    ensures b ==> c != '@' && c != '.'
  {
    var u := c as int;
    || (0x09 <= u <= 0x0D)      // tab, line feed, vertical tab, form feed, carriage return
    || u == 0x20                // space
    || u == 0xA0                // no-break space
    || u == 0x1680              // Ogham space mark
    || (0x2000 <= u <= 0x200A)  // en quad .. hair space
    || u == 0x2028 || u == 0x2029  // line and paragraph separators
    || u == 0x202F || u == 0x205F || u == 0x3000
    || u == 0xFEFF              // byte order mark
  }

  /** Number of occurrences of `c` in `s`. */
  function Occurrences(s: string, c: char): (n: nat)
    ensures n <= |s|
    ensures n == 0 <==> c !in s
  {
    if s == [] then 0
    else (if s[0] == c then 1 else 0) + Occurrences(s[1..], c)
  }
}
