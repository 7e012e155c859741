/**
 Character classes used by the registration form's regular expressions, read
 the way a JavaScript engine reads them in non-Unicode mode, and the length
 that `String.prototype.length` reports (UTF-16 code units), which is what the
 `minLength` rule of react-hook-form compares against.
 */
module Chars {

  /** `[A-Za-z]`. The `i` flag adds nothing: in non-Unicode mode no character
      outside ASCII canonicalises onto an ASCII letter. */
  predicate IsAsciiLetter(c: char) {
    ('A' <= c <= 'Z') || ('a' <= c <= 'z')
  }

  /** `\d`: the ASCII digits only. */
  predicate IsDigit(c: char) {
    '0' <= c <= '9'
  }

  /** `[!@#$%^&*]`: the eight special characters of the password rule. */
  predicate IsSpecial(c: char) {
    c == '!' || c == '@' || c == '#' || c == '$' || c == '%' || c == '^' || c == '&' || c == '*'
  }

  /** The line terminators, which `.` does not match. */
  predicate IsLineTerminator(c: char) {
    c == '\n' || c == '\r' || c == '\U{2028}' || c == '\U{2029}'
  }

  /** `\s`: JavaScript white space and line terminators. */
  predicate IsWhitespace(c: char) {
    || c == '\t' || c == '\U{000B}' || c == '\U{000C}' || c == ' ' || c == '\U{00A0}'
    || c == '\U{1680}' || ('\U{2000}' <= c <= '\U{200A}') || c == '\U{202F}'
    || c == '\U{205F}' || c == '\U{3000}' || c == '\U{FEFF}'
    || IsLineTerminator(c)
  }

  /** True iff the character is a single UTF-16 code unit. */
  predicate InBmp(c: char) {
    c as int <= 0xFFFF
  }

  /** The JavaScript `length` of a string: characters outside the Basic
      Multilingual Plane take two code units. */
  function Utf16Length(s: string): nat
  {
    if |s| == 0 then 0
    else (if InBmp(s[0]) then 1 else 2) + Utf16Length(s[1..])
  }

  /** A string's JavaScript length is never below its character count, and
      equals it exactly when every character fits one code unit. */
  lemma {:induction false} Utf16LengthBounds(s: string)
    ensures Utf16Length(s) >= |s|
    ensures Utf16Length(s) == |s| <==> forall i :: 0 <= i < |s| ==> InBmp(s[i])
  {
    if |s| > 0 {
      Utf16LengthBounds(s[1..]);
      if forall i :: 0 <= i < |s| ==> InBmp(s[i]) {
        assert forall i :: 0 <= i < |s[1..]| ==> InBmp(s[1..][i]) by {
          forall i | 0 <= i < |s[1..]| ensures InBmp(s[1..][i]) {
            assert s[1..][i] == s[i + 1];
          }
        }
      } else {
        var k :| 0 <= k < |s| && !InBmp(s[k]);
        if k > 0 {
          assert s[1..][k - 1] == s[k];
        }
      }
    }
  }

  /** Every ASCII letter is a single code unit. */
  lemma LettersAreBmp(s: string)
    requires forall i :: 0 <= i < |s| ==> IsAsciiLetter(s[i])
    ensures Utf16Length(s) == |s|
  {
    Utf16LengthBounds(s);
  }
}
