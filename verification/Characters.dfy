/**
 Characters as Unicode classifies and encodes them, as far as the prompt needs.
 */
module Characters {

  /** What a line of the prompt may hold. */
  const MAX_TEXT_BYTES := 4096

  /** The general category Cc. */
  predicate IsControl(c: char) {
    c as int < 0x20 || 0x7F <= c as int < 0xA0
  }

  /** The property White_Space. */
  predicate IsWhitespace(c: char) {
    var code := c as int;
    || 0x09 <= code <= 0x0D || code == 0x20 || code == 0x85 || code == 0xA0 || code == 0x1680
    || 0x2000 <= code <= 0x200A || code == 0x2028 || code == 0x2029 || code == 0x202F
    || code == 0x205F || code == 0x3000
  }

  /** The bytes that a character takes in UTF-8. */
  function Utf8Length(c: char): (bytes: nat)
    ensures 1 <= bytes <= 4
  {
    var code := c as int;
    if code < 0x80 then 1 else if code < 0x800 then 2 else if code < 0x1_0000 then 3 else 4
  }

  function Bytes(text: string): nat {
    if text == "" then 0 else Utf8Length(text[0]) + Bytes(text[1..])
  }

  lemma {:induction false} BytesOfJoined(a: string, b: string)
    ensures Bytes(a + b) == Bytes(a) + Bytes(b)
  {
    if a == "" {
      assert a + b == b;
    } else {
      BytesOfJoined(a[1..], b);
      assert (a + b)[1..] == a[1..] + b;
    }
  }
}
