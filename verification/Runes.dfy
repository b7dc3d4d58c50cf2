/** Code points and the few character classes that every other module speaks of. */
module Runes {

  type Rune = int

  const LINE_FEED: Rune := 10
  const CARRIAGE_RETURN: Rune := 13
  const ESCAPE: Rune := 27
  const SPACE: Rune := 32
  const DIGIT_ZERO: Rune := 48
  const SEMICOLON: Rune := 59
  const OPEN_BRACKET: Rune := 91
  const TILDE: Rune := 126
  const REPLACEMENT: Rune := 0xFFFD

  const CRLF: seq<Rune> := [CARRIAGE_RETURN, LINE_FEED]

  predicate Letter(r: Rune) {
    'a' as int <= r <= 'z' as int || 'A' as int <= r <= 'Z' as int
  }

  predicate Digit(r: Rune) {
    DIGIT_ZERO <= r < DIGIT_ZERO + 10
  }

  /** A Unicode scalar value: every code point but the surrogates. */
  predicate Scalar(r: Rune) {
    0 <= r < 0xD800 || 0xE000 <= r <= 0x10FFFF
  }

  /** What becomes of runes on the way through a string: a surrogate comes back as U+FFFD. */
  function AsText(s: seq<Rune>): (t: seq<Rune>)
    ensures |t| == |s|
    ensures forall i :: 0 <= i < |s| ==> Scalar(t[i]) && (Scalar(s[i]) ==> t[i] == s[i])
  {
    seq(|s|, i requires 0 <= i < |s| => if Scalar(s[i]) then s[i] else REPLACEMENT)
  }

  lemma AsTextOfScalars(s: seq<Rune>)
    requires forall i :: 0 <= i < |s| ==> Scalar(s[i])
    ensures AsText(s) == s
  {
  }

  /** Digits as the characters of a name. */
  function AsString(s: seq<Rune>): string
    requires forall i :: 0 <= i < |s| ==> Digit(s[i])
  {
    seq(|s|, i requires 0 <= i < |s| && Digit(s[i]) => s[i] as char)
  }
}
