/**
 * The two character-class checks that gate the codec's string entry points:
 * the decimal check in front of Encode and the printable-ASCII check in
 * front of DecodeInt. Both scan the string and give up at the first
 * offending character.
 */
module Validation {
  import opened Alphabets

  predicate IsAsciiDigit(c: char)
  {
    '0' <= c <= '9'
  }

  /** The decimal check, restricted to ASCII: true when every character is a
      decimal digit. */
  function IsValidNumeric(s: string): (ok: bool)
    ensures ok <==> forall i :: 0 <= i < |s| ==> IsAsciiDigit(s[i])
  {
    s == [] || (IsAsciiDigit(s[0]) && IsValidNumeric(s[1..]))
  }

  /** The ASCII characters in a Unicode punctuation category (connector,
      dash, open, close, initial, final or other punctuation). The remaining
      visible ASCII non-alphanumerics are symbols, not punctuation. */
  predicate IsAsciiPunct(c: char)
  {
    c in "!\"#%&'()*,-./:;?@[\\]_{}"
  }

  /** Printable ASCII: the space and the visible characters. */
  predicate IsAsciiPrint(c: char)
  {
    ' ' <= c <= '~'
  }

  /** One character passes the decode-side check when it is ASCII,
      printable and not punctuation. */
  predicate PrintableChar(c: char)
  {
    c as int <= 0x7F && IsAsciiPrint(c) && !IsAsciiPunct(c)
  }

  /** The decode-side check over a whole string. */
  function IsAsciiPrintable(s: string): (ok: bool)
    ensures ok <==> forall i :: 0 <= i < |s| ==> PrintableChar(s[i])
  {
    s == [] || (PrintableChar(s[0]) && IsAsciiPrintable(s[1..]))
  }

  /** What the decode-side check lets through: exactly the 62 alphanumeric
      characters and the ten symbols space, `$`, `+`, `<`, `=`, `>`, `^`, a
      backquote, `|` and `~`. The latter are in no dictionary, so they reach
      the digit lookup unmapped. */
  lemma PrintableChars(c: char)
    ensures PrintableChar(c) <==> IsAlphanumeric(c) || c in " $+<=>^`|~"
  {
  }
}
