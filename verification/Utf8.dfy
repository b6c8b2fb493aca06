/** UTF-8 (RFC 3629, section 3): strings are compared, hashed and decrypted as bytes. */
module Utf8 {
  import opened Prelude

  type Byte = b: int | 0 <= b < 256

  function EncodeChar(c: char): (r: seq<Byte>)
    ensures 1 <= |r| <= 4
  {
    var n := c as int;
    if n < 0x80 then [n]
    else if n < 0x800 then [0xC0 + n / 64, 0x80 + n % 64]
    else if n < 0x1_0000 then [0xE0 + n / 4096, 0x80 + n / 64 % 64, 0x80 + n % 64]
    else [0xF0 + n / 262144, 0x80 + n / 4096 % 64, 0x80 + n / 64 % 64, 0x80 + n % 64]
  }

  function Encode(s: string): seq<Byte> {
    if s == [] then [] else EncodeChar(s[0]) + Encode(s[1..])
  }

  /** The length a first byte announces. */
  function LengthOf(first: Byte): (n: nat)
    ensures 1 <= n <= 4
  {
    if first < 0x80 then 1 else if first < 0xE0 then 2 else if first < 0xF0 then 3 else 4
  }

  predicate IsScalar(n: int) {
    0 <= n < 0xD800 || 0xE000 <= n < 0x11_0000
  }

  /** What a byte carries below its marker bits. */
  function Payload(b: Byte, marker: int): int {
    b as int - marker
  }

  function CodePoint(b: seq<Byte>): int
    requires 1 <= |b| <= 4
  {
    if |b| == 1 then b[0]
    else if |b| == 2 then Payload(b[0], 0xC0) * 64 + Payload(b[1], 0x80)
    else if |b| == 3 then Payload(b[0], 0xE0) * 4096 + Payload(b[1], 0x80) * 64 + Payload(b[2], 0x80)
    else Payload(b[0], 0xF0) * 262144 + Payload(b[1], 0x80) * 4096 + Payload(b[2], 0x80) * 64 + Payload(b[3], 0x80)
  }

  lemma SixBitGroups(n: nat)
    ensures n / 64 * 64 + n % 64 == n
    ensures n / 4096 * 4096 + n / 64 % 64 * 64 + n % 64 == n
    ensures n / 262144 * 262144 + n / 4096 % 64 * 4096 + n / 64 % 64 * 64 + n % 64 == n
  {
    assert n / 64 / 64 == n / 4096;
    assert n / 4096 / 64 == n / 262144;
  }

  lemma CharRoundTrip(c: char)
    ensures |EncodeChar(c)| == LengthOf(EncodeChar(c)[0])
    ensures CodePoint(EncodeChar(c)) == c as int
    ensures IsScalar(c as int)
  {
    SixBitGroups(c as int);
  }

  /** The first character, if the bytes start with a shortest-form, non-surrogate sequence. */
  function Head(b: seq<Byte>): Option<char>
    requires b != []
  {
    var k := LengthOf(b[0]);
    if |b| < k || !IsScalar(CodePoint(b[..k])) then None
    else
      var c := CodePoint(b[..k]) as char;
      if EncodeChar(c) == b[..k] then Some(c) else None
  }

  lemma HeadIsTheEncodedPrefix(b: seq<Byte>, c: char)
    requires b != []
    ensures Head(b) == Some(c) <==> EncodeChar(c) <= b
  {
    if EncodeChar(c) <= b {
      CharRoundTrip(c);
      assert b[0] == EncodeChar(c)[0];
      assert b[..|EncodeChar(c)|] == EncodeChar(c);
    }
  }

  /** `String::from_utf8`. */
  function Decode(b: seq<Byte>): Option<string> {
    if b == [] then Some("")
    else
      match Head(b)
      case None => None
      case Some(c) =>
        HeadIsTheEncodedPrefix(b, c);
        match Decode(b[|EncodeChar(c)|..])
        case None => None
        case Some(rest) => Some([c] + rest)
  }

  lemma EncodeCons(c: char, s: string)
    ensures Encode([c] + s) == EncodeChar(c) + Encode(s)
  {
    assert ([c] + s)[1..] == s;
  }

  /** Decoding inverts encoding. */
  lemma {:induction false} DecodeEncode(s: string)
    ensures Decode(Encode(s)) == Some(s)
  {
    if s != [] {
      var head, tail := EncodeChar(s[0]), Encode(s[1..]);
      HeadIsTheEncodedPrefix(head + tail, s[0]);
      assert (head + tail)[|head|..] == tail;
      DecodeEncode(s[1..]);
      assert s == [s[0]] + s[1..];
    }
  }

  lemma DecodeSplits(b: seq<Byte>, c: char) returns (tail: seq<Byte>)
    requires b != [] && Head(b) == Some(c) && Decode(b).Some?
    ensures b == EncodeChar(c) + tail && |tail| < |b|
    ensures Decode(tail).Some? && Decode(b).value == [c] + Decode(tail).value
  {
    HeadIsTheEncodedPrefix(b, c);
    tail := b[|EncodeChar(c)|..];
    assert b == EncodeChar(c) + tail;
  }

  /** Whatever decodes is the encoding of the result: no two byte strings share a decoding. */
  lemma {:induction false} EncodeDecode(b: seq<Byte>)
    requires Decode(b).Some?
    ensures Encode(Decode(b).value) == b
  {
    if b != [] {
      var c := Head(b).value;
      var tail := DecodeSplits(b, c);
      EncodeDecode(tail);
      EncodeCons(c, Decode(tail).value);
    }
  }

  lemma EncodeInjective(a: string, b: string)
    ensures Encode(a) == Encode(b) <==> a == b
  {
    DecodeEncode(a);
    DecodeEncode(b);
  }

  /** The first example of RFC 3629, section 7. */
  lemma Example()
    ensures Encode("A\U{2262}\U{0391}.") == [0x41, 0xE2, 0x89, 0xA2, 0xCE, 0x91, 0x2E]
  {
    EncodeCons('.', "");
    EncodeCons('\U{0391}', ".");
    EncodeCons('\U{2262}', "\U{0391}.");
    EncodeCons('A', "\U{2262}\U{0391}.");
    assert ['.'] + "" == "." && ['\U{0391}'] + "." == "\U{0391}.";
    assert ['\U{2262}'] + "\U{0391}." == "\U{2262}\U{0391}." && ['A'] + "\U{2262}\U{0391}." == "A\U{2262}\U{0391}.";
  }
}
