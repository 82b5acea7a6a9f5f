/**
  Character classes used by the site's regular expressions, and the
  digits-only projection of a string.

  Strings are sequences of Unicode scalar values, so a JavaScript string
  holding a lone surrogate has no counterpart here.
 */
module Text {

  /** The ASCII decimal digits: JavaScript's `\d` (with or without the `u` flag). */
  predicate IsAsciiDigit(c: char) {
    '0' <= c <= '9'
  }

  /** JavaScript's `\s`: the WhiteSpace and LineTerminator code points of ECMA-262
      (TAB, VT, FF, SP, NBSP, ZWNBSP, every other Zs code point, LF, CR, LS, PS).
      The same set is what `String.prototype.trim` strips. */
  predicate IsWs(c: char) {
    || c == '\t' || c == '\U{000B}' || c == '\U{000C}' || c == ' '
    || c == '\U{00A0}' || c == '\U{FEFF}' || c == '\U{1680}'
    || ('\U{2000}' <= c <= '\U{200A}')
    || c == '\U{202F}' || c == '\U{205F}' || c == '\U{3000}'
    || c == '\n' || c == '\r' || c == '\U{2028}' || c == '\U{2029}'
  }

  /** No character of `s` is whitespace. */
  predicate NoWs(s: string) {
    forall i :: 0 <= i < |s| ==> !IsWs(s[i])
  }

  /** Every character of `s` is an ASCII digit. */
  predicate AllDigits(s: string) {
    forall i :: 0 <= i < |s| ==> IsAsciiDigit(s[i])
  }

  /** `s.replace(/\D/g, '')`: the ASCII digits of `s`, in order. */
  function Digits(s: string): (d: string)
    ensures AllDigits(d)
    ensures |d| <= |s|
  {
    if s == [] then []
    else if IsAsciiDigit(s[0]) then [s[0]] + Digits(s[1..])
    else Digits(s[1..])
  }

  /** Deleting non-digits commutes with concatenation. */
  lemma {:induction false} DigitsAppend(a: string, b: string)
    ensures Digits(a + b) == Digits(a) + Digits(b)
  {
    if a == [] {
      assert a + b == b;
    } else {
      assert (a + b)[1..] == a[1..] + b;
      DigitsAppend(a[1..], b);
    }
  }

  /** A string made only of digits is its own digit projection. */
  lemma {:induction false} DigitsOfAllDigits(s: string)
    requires AllDigits(s)
    ensures Digits(s) == s
  {
    if s != [] {
      DigitsOfAllDigits(s[1..]);
    }
  }

  /** A string without digits projects to the empty string. */
  lemma {:induction false} DigitsOfNoDigits(s: string)
    requires forall i :: 0 <= i < |s| ==> !IsAsciiDigit(s[i])
    ensures Digits(s) == []
  {
    if s != [] {
      DigitsOfNoDigits(s[1..]);
    }
  }
}
