/** The integration-token handoff: a shared key in any of several spellings, and a blob laid out
    as initialisation vector, tag and ciphertext. */
module Handoff {
  import opened Prelude
  import opened Text
  import opened Base64
  import Utf8

  type Byte = Utf8.Byte

  const STANDARD := Engine(false, true)
  const STANDARD_NO_PAD := Engine(false, false)
  const URL_SAFE := Engine(true, true)
  const URL_SAFE_NO_PAD := Engine(true, false)

  datatype HandoffError = BadKey | BadBase64 | TooShort | DecryptFailed | NotUtf8

  /** Thirty-two bytes without a character that only base 64 uses: taken as they are. */
  predicate IsRawKey(trimmed: string) {
    |Utf8.Encode(trimmed)| == 32 && forall i :: 0 <= i < |trimmed| ==> trimmed[i] !in "+/-_="
  }

  function Attempt(e: Engine, trimmed: string): Option<seq<Byte>> {
    match Decode(e, Utf8.Encode(trimmed))
    case Some(d) => if |d| == 32 then Some(d) else None
    case None => None
  }

  /** `key_bytes_from_string`: the raw form, then four alphabets in order. */
  function KeyBytes(key: string): Result<seq<Byte>, HandoffError> {
    var trimmed := Trim(key);
    if IsRawKey(trimmed) then Ok(Utf8.Encode(trimmed))
    else if Attempt(URL_SAFE_NO_PAD, trimmed).Some? then Ok(Attempt(URL_SAFE_NO_PAD, trimmed).value)
    else if Attempt(URL_SAFE, trimmed).Some? then Ok(Attempt(URL_SAFE, trimmed).value)
    else if Attempt(STANDARD, trimmed).Some? then Ok(Attempt(STANDARD, trimmed).value)
    else if Attempt(STANDARD_NO_PAD, trimmed).Some? then Ok(Attempt(STANDARD_NO_PAD, trimmed).value)
    else Err(BadKey)
  }

  lemma AttemptExact(e: Engine, trimmed: string, k: seq<Byte>)
    ensures Attempt(e, trimmed) == Some(k) <==> |k| == 32 && Utf8.Encode(trimmed) == Encode(e, k)
  {
    if |k| == 32 && Utf8.Encode(trimmed) == Encode(e, k) {
      DecodeEncode(e, k);
    }
    if Attempt(e, trimmed) == Some(k) {
      EncodeDecode(e, Utf8.Encode(trimmed));
    }
  }

  lemma AttemptsAgree(e: Engine, f: Engine, trimmed: string)
    requires Attempt(e, trimmed).Some? && Attempt(f, trimmed).Some?
    ensures Attempt(e, trimmed) == Attempt(f, trimmed)
  {
    EnginesNeverDisagree(e, f, Utf8.Encode(trimmed));
  }

  lemma KeyOfEncoding(key: string, e: Engine, k: seq<Byte>)
    requires !IsRawKey(Trim(key)) && |k| == 32 && Utf8.Encode(Trim(key)) == Encode(e, k)
    ensures KeyBytes(key) == Ok(k)
  {
    var trimmed := Trim(key);
    AttemptExact(e, trimmed, k);
    if Attempt(URL_SAFE_NO_PAD, trimmed).Some? {
      AttemptsAgree(e, URL_SAFE_NO_PAD, trimmed);
    } else if Attempt(URL_SAFE, trimmed).Some? {
      AttemptsAgree(e, URL_SAFE, trimmed);
    } else if Attempt(STANDARD, trimmed).Some? {
      AttemptsAgree(e, STANDARD, trimmed);
    } else if Attempt(STANDARD_NO_PAD, trimmed).Some? {
      AttemptsAgree(e, STANDARD_NO_PAD, trimmed);
    } else {
      assert false;
    }
  }

  lemma EncodingOfKey(key: string, k: seq<Byte>) returns (e: Engine)
    requires !IsRawKey(Trim(key)) && KeyBytes(key) == Ok(k)
    ensures |k| == 32 && Utf8.Encode(Trim(key)) == Encode(e, k)
  {
    var trimmed := Trim(key);
    e := if Attempt(URL_SAFE_NO_PAD, trimmed).Some? then URL_SAFE_NO_PAD
         else if Attempt(URL_SAFE, trimmed).Some? then URL_SAFE
         else if Attempt(STANDARD, trimmed).Some? then STANDARD
         else STANDARD_NO_PAD;
    AttemptExact(e, trimmed, k);
  }

  /** A key is 32 bytes. Its encodings are longer than that, so no text is both a key and an encoding of another. */
  lemma KeyLengths(key: string)
    ensures KeyBytes(key).Ok? ==> |KeyBytes(key).value| == 32
    ensures forall e: Engine, k: seq<Byte> :: |k| == 32 && Utf8.Encode(Trim(key)) == Encode(e, k) ==> |Utf8.Encode(Trim(key))| > 32
  {
    if KeyBytes(key).Ok? && !IsRawKey(Trim(key)) {
      var e := EncodingOfKey(key, KeyBytes(key).value);
    }
    forall e: Engine, k: seq<Byte> | |k| == 32 && Utf8.Encode(Trim(key)) == Encode(e, k) {
      EncodingLength(e, k);
    }
  }

  /** A key string means a key exactly when the key has 32 bytes and the trimmed string is either its bytes, without a
      character that only base 64 uses, or one of its four encodings: the order of the attempts does not matter. */
  lemma KeyBytesExact(key: string, k: seq<Byte>)
    ensures KeyBytes(key) == Ok(k) <==>
            && |k| == 32
            && (|| (Utf8.Encode(Trim(key)) == k && forall c :: c in Trim(key) ==> c !in "+/-_=")
                || exists e: Engine :: Utf8.Encode(Trim(key)) == Encode(e, k))
  {
    var text := Trim(key);
    KeyLengths(key);
    assert forall c :: c in text ==> exists i :: 0 <= i < |text| && text[i] == c;
    if KeyBytes(key) == Ok(k) {
      if !IsRawKey(text) {
        var e := EncodingOfKey(key, k);
      }
    } else if |k| == 32 && exists e: Engine :: Utf8.Encode(text) == Encode(e, k) {
      var e: Engine :| Utf8.Encode(text) == Encode(e, k);
      KeyOfEncoding(key, e, k);
      assert false;
    }
  }

  /** A raw key, with whitespace around it, means its own bytes. */
  lemma RawKeyMeansItself(s: string, pre: string, post: string)
    requires |Utf8.Encode(s)| == 32 && Trimmed(s) && Blank(pre) && Blank(post)
    requires forall c :: c in s ==> c !in "+/-_="
    ensures KeyBytes(pre + s + post) == Ok(Utf8.Encode(s))
  {
    TrimPadding(pre, s, post);
    KeyBytesExact(pre + s + post, Utf8.Encode(s));
  }

  /** No other text means its own bytes. */
  lemma OtherTextsAreNoRawKeys(key: string)
    requires |Utf8.Encode(Trim(key))| != 32 || exists c :: c in Trim(key) && c in "+/-_="
    ensures KeyBytes(key) != Ok(Utf8.Encode(Trim(key)))
  {
    KeyLengths(key);
    KeyBytesExact(key, Utf8.Encode(Trim(key)));
  }

  // ----- texts of ASCII bytes

  function TextOf(b: seq<Byte>): (s: string)
    requires forall i :: 0 <= i < |b| ==> b[i] < 128
    ensures |s| == |b| && forall i :: 0 <= i < |b| ==> s[i] == b[i] as char
  {
    if b == [] then "" else [b[0] as char] + TextOf(b[1..])
  }

  lemma {:induction false} TextOfIsAscii(b: seq<Byte>)
    requires forall i :: 0 <= i < |b| ==> b[i] < 128
    ensures Utf8.Encode(TextOf(b)) == b
  {
    if b != [] {
      TextOfIsAscii(b[1..]);
      Utf8.EncodeCons(b[0] as char, TextOf(b[1..]));
      assert b == [b[0]] + b[1..];
    }
  }

  lemma SymbolIsInk(b: Byte)
    requires IsSymbol(b)
    ensures b < 128 && !IsWhitespace(b as char)
  {
  }

  /** The text of an encoding survives trimming and re-reading as bytes. */
  lemma EncodingAsText(e: Engine, d: seq<Byte>)
    ensures forall i :: 0 <= i < |Encode(e, d)| ==> Encode(e, d)[i] < 128
    ensures Trimmed(TextOf(Encode(e, d))) && Utf8.Encode(TextOf(Encode(e, d))) == Encode(e, d)
  {
    var b := Encode(e, d);
    EncodingIsSymbols(e, d);
    forall i | 0 <= i < |b|
      ensures b[i] < 128 && !IsWhitespace(b[i] as char)
    {
      SymbolIsInk(b[i]);
    }
    TextOfIsAscii(b);
  }

  /** Any of the four encodings of a key, with whitespace around it, gives the key back. */
  lemma KeyRoundTrip(e: Engine, k: seq<Byte>, pre: string, post: string)
    requires |k| == 32 && Blank(pre) && Blank(post)
    ensures forall i :: 0 <= i < |Encode(e, k)| ==> Encode(e, k)[i] < 128
    ensures KeyBytes(pre + TextOf(Encode(e, k)) + post) == Ok(k)
  {
    EncodingAsText(e, k);
    EncodingLength(e, k);
    var text := TextOf(Encode(e, k));
    TrimPadding(pre, text, post);
    KeyBytesExact(pre + text + post, k);
  }

  // ----- the blob

  /** AES-256-GCM with a 16-byte nonce over ciphertext followed by tag; nothing on a bad tag. */
  type Cipher = (seq<Byte>, seq<Byte>, seq<Byte>) -> Option<seq<Byte>>

  /** What the decoded bytes of a blob, laid out as vector, tag and ciphertext, decrypt to under a key. */
  function Unpacked(cipher: Cipher, combined: seq<Byte>, key: seq<Byte>): Result<string, HandoffError> {
    if |combined| < 32 then Err(TooShort)
    else
      match cipher(key, combined[..16], combined[32..] + combined[16..32])
      case None => Err(DecryptFailed)
      case Some(plain) =>
        match Utf8.Decode(plain)
        case None => Err(NotUtf8)
        case Some(text) => Ok(text)
  }

  function OpenedWith(cipher: Cipher, blob: seq<Byte>, key: seq<Byte>): Result<string, HandoffError> {
    match Decode(STANDARD, blob)
    case None => Err(BadBase64)
    case Some(combined) => Unpacked(cipher, combined, key)
  }

  /** What a blob decrypts to. */
  function Opened(cipher: Cipher, b64: string, keyText: string): Result<string, HandoffError> {
    match KeyBytes(keyText)
    case Err(e) => Err(e)
    case Ok(key) => OpenedWith(cipher, Utf8.Encode(Trim(b64)), key)
  }

  method DecryptHandoffBlob(cipher: Cipher, b64: string, keyText: string) returns (r: Result<string, HandoffError>)
    ensures r == Opened(cipher, b64, keyText)
  {
    var key := KeyBytes(keyText);
    if key.Err? {
      return Err(key.error);
    }
    var decoded := Decode(STANDARD, Utf8.Encode(Trim(b64)));
    if decoded.None? {
      return Err(BadBase64);
    }
    var combined := decoded.value;
    if |combined| < 32 {
      return Err(TooShort);
    }
    var iv, tag, ciphertext := combined[..16], combined[16..32], combined[32..];
    var ctWithTag := [];
    ctWithTag := ctWithTag + ciphertext;
    ctWithTag := ctWithTag + tag;
    assert ctWithTag == combined[32..] + combined[16..32];
    var plain := cipher(key.value, iv, ctWithTag);
    if plain.None? {
      return Err(DecryptFailed);
    }
    var text := Utf8.Decode(plain.value);
    if text.None? {
      return Err(NotUtf8);
    }
    return Ok(text.value);
  }

  /** What the backend sends: initialisation vector, tag, ciphertext. */
  function Pack(iv: seq<Byte>, tag: seq<Byte>, ciphertext: seq<Byte>): seq<Byte> {
    Encode(STANDARD, iv + tag + ciphertext)
  }

  /** The blob packs these parts and the cipher opens them to the bytes of the text. */
  predicate Seals(cipher: Cipher, b64: string, text: string,
                  key: seq<Byte>, iv: seq<Byte>, tag: seq<Byte>, ciphertext: seq<Byte>)
  {
    && |iv| == 16 && |tag| == 16
    && Utf8.Encode(Trim(b64)) == Pack(iv, tag, ciphertext)
    && cipher(key, iv, ciphertext + tag) == Some(Utf8.Encode(text))
  }

  lemma SealedOpens(cipher: Cipher, b64: string, keyText: string, text: string,
                    key: seq<Byte>, iv: seq<Byte>, tag: seq<Byte>, ciphertext: seq<Byte>)
    requires KeyBytes(keyText) == Ok(key) && Seals(cipher, b64, text, key, iv, tag, ciphertext)
    ensures Opened(cipher, b64, keyText) == Ok(text)
  {
    var combined := iv + tag + ciphertext;
    DecodeEncode(STANDARD, combined);
    assert combined[..16] == iv && combined[16..32] == tag && combined[32..] == ciphertext;
    Utf8.DecodeEncode(text);
  }

  lemma OpenedWasSealed(cipher: Cipher, b64: string, keyText: string, text: string)
    returns (iv: seq<Byte>, tag: seq<Byte>, ciphertext: seq<Byte>)
    requires Opened(cipher, b64, keyText) == Ok(text)
    ensures Seals(cipher, b64, text, KeyBytes(keyText).value, iv, tag, ciphertext)
  {
    var b := Utf8.Encode(Trim(b64));
    EncodeDecode(STANDARD, b);
    var combined := Decode(STANDARD, b).value;
    iv, tag, ciphertext := combined[..16], combined[16..32], combined[32..];
    assert combined == iv + tag + ciphertext;
    Utf8.EncodeDecode(cipher(KeyBytes(keyText).value, iv, ciphertext + tag).value);
  }

  /** A blob opens to a text exactly when it packs a vector, a tag and a ciphertext that the cipher
      opens, under the key the key string means, to the bytes of that text. */
  lemma OpenedExactly(cipher: Cipher, b64: string, keyText: string, text: string)
    ensures Opened(cipher, b64, keyText) == Ok(text) <==>
            KeyBytes(keyText).Ok? &&
            exists iv, tag, ciphertext :: Seals(cipher, b64, text, KeyBytes(keyText).value, iv, tag, ciphertext)
  {
    if Opened(cipher, b64, keyText) == Ok(text) {
      var iv, tag, ciphertext := OpenedWasSealed(cipher, b64, keyText, text);
    } else if KeyBytes(keyText).Ok? {
      forall iv, tag, ciphertext | Seals(cipher, b64, text, KeyBytes(keyText).value, iv, tag, ciphertext)
        ensures false
      {
        SealedOpens(cipher, b64, keyText, text, KeyBytes(keyText).value, iv, tag, ciphertext);
      }
    }
  }

  /** Sealing, packing and sending a text with any spelling of the key gives the text back. */
  lemma HandoffRoundTrip(cipher: Cipher, e: Engine, key: seq<Byte>, iv: seq<Byte>, tag: seq<Byte>, ciphertext: seq<Byte>,
                         text: string, pre: string, post: string)
    requires |key| == 32 && |iv| == 16 && |tag| == 16 && Blank(pre) && Blank(post)
    requires cipher(key, iv, ciphertext + tag) == Some(Utf8.Encode(text))
    ensures forall i :: 0 <= i < |Pack(iv, tag, ciphertext)| ==> Pack(iv, tag, ciphertext)[i] < 128
    ensures forall i :: 0 <= i < |Encode(e, key)| ==> Encode(e, key)[i] < 128
    ensures Opened(cipher, pre + TextOf(Pack(iv, tag, ciphertext)) + post, pre + TextOf(Encode(e, key)) + post) == Ok(text)
  {
    EncodingAsText(STANDARD, iv + tag + ciphertext);
    var packed := TextOf(Pack(iv, tag, ciphertext));
    TrimPadding(pre, packed, post);
    KeyRoundTrip(e, key, pre, post);
    SealedOpens(cipher, pre + packed + post, pre + TextOf(Encode(e, key)) + post, text, key, iv, tag, ciphertext);
  }

  /** The same under a raw key. */
  lemma RawKeyHandoffRoundTrip(cipher: Cipher, keyText: string, iv: seq<Byte>, tag: seq<Byte>, ciphertext: seq<Byte>,
                               text: string, pre: string, post: string)
    requires |Utf8.Encode(keyText)| == 32 && Trimmed(keyText) && (forall c :: c in keyText ==> c !in "+/-_=")
    requires |iv| == 16 && |tag| == 16 && Blank(pre) && Blank(post)
    requires cipher(Utf8.Encode(keyText), iv, ciphertext + tag) == Some(Utf8.Encode(text))
    ensures forall i :: 0 <= i < |Pack(iv, tag, ciphertext)| ==> Pack(iv, tag, ciphertext)[i] < 128
    ensures Opened(cipher, pre + TextOf(Pack(iv, tag, ciphertext)) + post, pre + keyText + post) == Ok(text)
  {
    EncodingAsText(STANDARD, iv + tag + ciphertext);
    var packed := TextOf(Pack(iv, tag, ciphertext));
    TrimPadding(pre, packed, post);
    RawKeyMeansItself(keyText, pre, post);
    SealedOpens(cipher, pre + packed + post, pre + keyText + post, text, Utf8.Encode(keyText), iv, tag, ciphertext);
  }

  ghost predicate IsUtf8(bytes: seq<Byte>) {
    exists text :: bytes == Utf8.Encode(text)
  }

  lemma IsUtf8Exactly(bytes: seq<Byte>)
    ensures Utf8.Decode(bytes).Some? <==> IsUtf8(bytes)
  {
    if Utf8.Decode(bytes).Some? {
      Utf8.EncodeDecode(bytes);
    } else if IsUtf8(bytes) {
      var text :| bytes == Utf8.Encode(text);
      Utf8.DecodeEncode(text);
    }
  }

  /** What is wrong with the output of the cipher. */
  ghost predicate Spoiled(plain: Option<seq<Byte>>, e: HandoffError) {
    if plain.None? then e == DecryptFailed else e == NotUtf8 && !IsUtf8(plain.value)
  }

  /** Why the encoding of some bytes does not open: they are fewer than a vector and a tag, the cipher refuses,
      or the plain text is not UTF-8. */
  lemma UnpackedFailsExactly(cipher: Cipher, combined: seq<Byte>, key: seq<Byte>, e: HandoffError)
    ensures Unpacked(cipher, combined, key) == Err(e) <==>
            if |combined| < 32 then e == TooShort
            else Spoiled(cipher(key, combined[..16], combined[32..] + combined[16..32]), e)
  {
    if |combined| >= 32 {
      var plain := cipher(key, combined[..16], combined[32..] + combined[16..32]);
      if plain.Some? {
        IsUtf8Exactly(plain.value);
      }
    }
  }

  lemma EncodedFailsExactly(cipher: Cipher, combined: seq<Byte>, key: seq<Byte>, e: HandoffError)
    ensures OpenedWith(cipher, Encode(Engine(false, true), combined), key) == Err(e) <==>
            if |combined| < 32 then e == TooShort
            else Spoiled(cipher(key, combined[..16], combined[32..] + combined[16..32]), e)
  {
    DecodeEncode(STANDARD, combined);
    UnpackedFailsExactly(cipher, combined, key, e);
  }

  /** A blob is refused as no base 64 exactly when it is no standard encoding. */
  lemma BadBase64Exactly(cipher: Cipher, blob: seq<Byte>, key: seq<Byte>)
    ensures OpenedWith(cipher, blob, key) == Err(BadBase64) <==> forall combined :: blob != Encode(Engine(false, true), combined)
  {
    if Decode(STANDARD, blob).Some? {
      EncodeDecode(STANDARD, blob);
      UnpackedFailsExactly(cipher, Decode(STANDARD, blob).value, key, BadBase64);
    } else {
      forall combined | blob == Encode(STANDARD, combined) {
        DecodeEncode(STANDARD, combined);
      }
    }
  }

  /** A string that means no key is the first thing to be refused, and any other leaves it to the blob. */
  lemma BadKeyExactly(cipher: Cipher, b64: string, keyText: string)
    ensures Opened(cipher, b64, keyText) == Err(BadKey) <==> forall k :: KeyBytes(keyText) != Ok(k)
    ensures forall k :: KeyBytes(keyText) == Ok(k) ==> Opened(cipher, b64, keyText) == OpenedWith(cipher, Utf8.Encode(Trim(b64)), k)
  {
    if KeyBytes(keyText).Ok? {
      assert KeyBytes(keyText) == Ok(KeyBytes(keyText).value);
    }
  }
}
