/**
 * NUL-terminated byte strings as uart_send_string walks them (src/main.c:43-47):
 * `while (*str)` visits the bytes before the first NUL, and a string literal is its
 * characters followed by one NUL.
 */
module CStrings {
  import opened Registers

  /** The bytes a `while (*str) ... str++` walk visits: those before the first NUL. */
  function UntilNul(s: seq<byte>): (r: seq<byte>)
    ensures r <= s
    ensures 0 !in r
    ensures |r| < |s| ==> s[|r|] == 0
    ensures 0 in s ==> |r| < |s|
  {
    if s == [] || s[0] == 0 then [] else [s[0]] + UntilNul(s[1..])
  }

  predicate IsAscii(text: string)
  {
    forall i :: 0 <= i < |text| ==> text[i] as int < 0x80
  }

  /** The character codes of an ASCII text, one byte per character. */
  function Ascii(text: string): seq<byte>
    requires IsAscii(text)
  {
    seq(|text|, i requires 0 <= i < |text| => text[i] as int)
  }

  /** The bytes a C string literal occupies: its characters, then the terminating NUL. */
  function Literal(text: string): seq<byte>
    requires IsAscii(text)
  {
    Ascii(text) + [0]
  }

  /** Walking a literal without an embedded NUL visits exactly its characters. */
  lemma LiteralUntilNul(text: string)
    requires IsAscii(text) && '\0' !in text
    ensures UntilNul(Literal(text)) == Ascii(text)
  {
    var s, r := Literal(text), UntilNul(Literal(text));
    assert r == s[..|r|] && Ascii(text) == s[..|text|];
  }
}
