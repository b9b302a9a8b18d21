/**
 The tables by which output is decoded, tied to code points: what counts as a character is exactly the
 UTF-8 encoding of a Unicode scalar value (section 3.9 of the Unicode Standard).
 */
module Utf8 {
  import opened Basics
  import opened OutputFeed

  predicate IsScalar(code: nat) {
    code < 0x110000 && !(0xD800 <= code <= 0xDFFF)
  }

  /** The last six bits, and the others. */
  function Low(code: nat): (bits: nat)
    ensures bits < 0x40
  {
    code % 0x40
  }

  function High(code: nat): (bits: nat)
    ensures code == bits * 0x40 + Low(code)
  {
    code / 0x40
  }

  /** A code point in one to four bytes, six bits in each but the first. */
  function Encode(code: nat): (bytes: seq<byte>)
    requires IsScalar(code)
    ensures 1 <= |bytes| <= 4
  {
    if code < 0x80 then [code]
    else if code < 0x800 then [0xC0 + High(code), 0x80 + Low(code)]
    else if code < 0x1_0000 then [0xE0 + High(High(code)), 0x80 + Low(High(code)), 0x80 + Low(code)]
    else
      [0xF0 + High(High(High(code))), 0x80 + Low(High(High(code))), 0x80 + Low(High(code)), 0x80 + Low(code)]
  }

  lemma EncodedIsWellFormed(code: nat)
    requires IsScalar(code)
    ensures WellFormed(Encode(code))
  {
    hide Low, High;
    var one, two, three := code, High(code), High(High(code));
    assert one == two * 0x40 + Low(one) && two == three * 0x40 + Low(two);
    assert three == High(three) * 0x40 + Low(three);
  }

  lemma BitsJoined(high: nat, low: nat)
    requires low < 0x40
    ensures High(high * 0x40 + low) == high && Low(high * 0x40 + low) == low
  {
  }

  lemma WellFormedIsEncoded(s: seq<byte>) returns (code: nat)
    requires WellFormed(s)
    ensures IsScalar(code) && Encode(code) == s
  {
    hide Low, High;
    if |s| == 1 {
      code := s[0];
    } else if |s| == 2 {
      code := PairOf(s[0], s[1], 0xC0);
      assert Encode(code) == [s[0], s[1]];
    } else if |s| == 3 {
      var two := PairOf(s[0], s[1], 0xE0);
      BitsJoined(two, PartOf(s[2], 0x80));
      code := two * 0x40 + PartOf(s[2], 0x80);
      assert Encode(code) == [s[0], s[1], s[2]];
    } else {
      var three := PairOf(s[0], s[1], 0xF0);
      var two := three * 0x40 + PartOf(s[2], 0x80);
      BitsJoined(three, PartOf(s[2], 0x80));
      BitsJoined(two, PartOf(s[3], 0x80));
      code := two * 0x40 + PartOf(s[3], 0x80);
      assert Encode(code) == [s[0], s[1], s[2], s[3]];
    }
  }

  function PartOf(b: byte, from: byte): nat
    requires from <= b
  {
    var value: int, start: int := b, from;
    value - start
  }

  lemma PairOf(first: byte, second: byte, from: byte) returns (code: nat)
    requires from <= first && Continuation(second)
    ensures High(code) == PartOf(first, from) && Low(code) == PartOf(second, 0x80)
    ensures code == PartOf(first, from) * 0x40 + PartOf(second, 0x80)
  {
    code := PartOf(first, from) * 0x40 + PartOf(second, 0x80);
    BitsJoined(PartOf(first, from), PartOf(second, 0x80));
  }

  /** The bytes that are taken for one character are exactly the encodings of scalar values: no overlong
      forms, no surrogates and nothing above the last code point. */
  lemma WellFormedIff(s: seq<byte>)
    ensures WellFormed(s) <==> exists code: nat :: IsScalar(code) && Encode(code) == s
  {
    if WellFormed(s) {
      var code := WellFormedIsEncoded(s);
    }
    if code: nat :| IsScalar(code) && Encode(code) == s {
      EncodedIsWellFormed(code);
    }
  }

  // ----- Whole texts -----

  ghost predicate AllScalar(codes: seq<nat>) {
    forall i :: 0 <= i < |codes| ==> IsScalar(codes[i])
  }

  function EncodeAll(codes: seq<nat>): seq<byte>
    requires AllScalar(codes)
  {
    if codes == [] then [] else Encode(codes[0]) + EncodeAll(codes[1..])
  }

  function Characters(codes: seq<nat>): seq<Item>
    requires AllScalar(codes)
  {
    if codes == [] then [] else [Character(Encode(codes[0]))] + Characters(codes[1..])
  }

  lemma FirstOfEncoded(code: nat, rest: seq<byte>)
    requires IsScalar(code)
    ensures !Waiting(Encode(code) + rest) && HeadOf(Encode(code) + rest) == Scalar(|Encode(code)|)
    ensures First(Encode(code) + rest) == Character(Encode(code)) && Behind(Encode(code) + rest) == rest
  {
    hide Encode;
    EncodedIsWellFormed(code);
  }

  /** The emulator is given exactly the characters of an encoded text, and nothing is left over, also
      when the text follows on other output that ends with a whole character. */
  lemma {:induction false} TextIsShown(codes: seq<nat>)
    requires AllScalar(codes)
    ensures Items(EncodeAll(codes)) == Characters(codes) && Rest(EncodeAll(codes)) == []
  {
    hide Encode, HeadOf, First, Behind;
    if codes != [] {
      FirstOfEncoded(codes[0], EncodeAll(codes[1..]));
      TextIsShown(codes[1..]);
    }
  }

  /** So a text that arrives in any fragments is fed to the emulator character by character. */
  lemma FragmentedTextIsShown<S>(machine: Machine<S>, state: S, codes: seq<nat>, fragments: seq<seq<byte>>)
    requires AllScalar(codes) && fragments != [] && Joined(fragments) == EncodeAll(codes)
    ensures FedAll(machine, Feeding(state, []), fragments) == Feeding(Shown(machine, state, Characters(codes)), [])
    ensures AllAnswers(machine, Feeding(state, []), fragments) == Replies(machine, state, Characters(codes))
  {
    hide Items, Rest, Shown, Replies, FedAll, AllAnswers, Joined, Characters, EncodeAll;
    FragmentsAreInvisible(machine, Feeding(state, []), fragments);
    TextIsShown(codes);
    assert [] + EncodeAll(codes) == EncodeAll(codes);
  }
}
