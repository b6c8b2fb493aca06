/** Base 64 (RFC 4648, sections 3.2, 4 and 5): the standard and the URL-safe alphabet, with and
    without padding. Decoding is strict: canonical padding, no stray bits, no other symbols. */
module Base64 {
  import opened Prelude
  import opened Utf8

  type Sextet = n: int | 0 <= n < 64

  datatype Engine = Engine(urlSafe: bool, padded: bool)

  const PAD: Byte := 61

  function Symbol(urlSafe: bool, v: Sextet): Byte {
    if v < 26 then 65 + v
    else if v < 52 then 71 + v
    else if v < 62 then v - 4
    else if v == 62 then (if urlSafe then 45 else 43)
    else if urlSafe then 95 else 47
  }

  function Value(urlSafe: bool, b: Byte): Option<Sextet> {
    if 65 <= b <= 90 then Some(b - 65)
    else if 97 <= b <= 122 then Some(b - 71)
    else if 48 <= b <= 57 then Some(b + 4)
    else if b == if urlSafe then 45 else 43 then Some(62)
    else if b == if urlSafe then 95 else 47 then Some(63)
    else None
  }

  lemma SymbolValue(urlSafe: bool, v: Sextet)
    ensures Value(urlSafe, Symbol(urlSafe, v)) == Some(v) && Symbol(urlSafe, v) != PAD
  {
  }

  // ----- quanta: three bytes against four sextets

  function Sextets(d: seq<Byte>): (r: seq<Sextet>)
    requires |d| == 3
    ensures |r| == 4
  {
    [d[0] / 4, d[0] % 4 * 16 + d[1] / 16, d[1] % 16 * 4 + d[2] / 64, d[2] % 64]
  }

  function Bytes(v: seq<Sextet>): (r: seq<Byte>)
    requires |v| == 4
    ensures |r| == 3
  {
    var a, b, c: int := v[0] as int, v[1] as int, v[2];
    [a * 4 + b / 16, b % 16 * 16 + c / 4, c % 4 * 64 + v[3]]
  }

  lemma BytesOfSextets(d: seq<Byte>)
    requires |d| == 3
    ensures Bytes(Sextets(d)) == d
  {
  }

  lemma SextetsOfBytes(v: seq<Sextet>)
    requires |v| == 4
    ensures Sextets(Bytes(v)) == v
  {
  }

  function Symbols(urlSafe: bool, v: seq<Sextet>): (r: seq<Byte>)
    ensures |r| == |v|
    ensures forall i :: 0 <= i < |v| ==> r[i] == Symbol(urlSafe, v[i])
  {
    if v == [] then [] else [Symbol(urlSafe, v[0])] + Symbols(urlSafe, v[1..])
  }

  function Values(urlSafe: bool, s: seq<Byte>): (r: Option<seq<Sextet>>)
    ensures r.Some? <==> forall i :: 0 <= i < |s| ==> Value(urlSafe, s[i]).Some?
    ensures r.Some? ==> |r.value| == |s| && forall i :: 0 <= i < |s| ==> Value(urlSafe, s[i]) == Some(r.value[i])
  {
    if s == [] then Some([])
    else
      match Value(urlSafe, s[0])
      case None => None
      case Some(v) =>
        match Values(urlSafe, s[1..])
        case None => None
        case Some(rest) => Some([v] + rest)
  }

  lemma {:induction false} ValuesOfSymbols(urlSafe: bool, v: seq<Sextet>)
    ensures Values(urlSafe, Symbols(urlSafe, v)) == Some(v)
  {
    if v != [] {
      SymbolValue(urlSafe, v[0]);
      ValuesOfSymbols(urlSafe, v[1..]);
      assert Symbols(urlSafe, v)[1..] == Symbols(urlSafe, v[1..]);
      assert v == [v[0]] + v[1..];
    }
  }

  lemma SymbolsOfValues(urlSafe: bool, s: seq<Byte>)
    requires Values(urlSafe, s).Some?
    ensures Symbols(urlSafe, Values(urlSafe, s).value) == s
  {
    var v := Values(urlSafe, s).value;
    forall i | 0 <= i < |s|
      ensures s[i] == Symbol(urlSafe, v[i])
    {
      assert Value(urlSafe, s[i]) == Some(v[i]);
    }
  }

  // ----- whole texts

  function Encode(e: Engine, d: seq<Byte>): seq<Byte> {
    if |d| == 0 then []
    else if |d| == 1 then Symbols(e.urlSafe, Sextets(d + [0, 0])[..2]) + if e.padded then [PAD, PAD] else []
    else if |d| == 2 then Symbols(e.urlSafe, Sextets(d + [0])[..3]) + if e.padded then [PAD] else []
    else Symbols(e.urlSafe, Sextets(d[..3])) + Encode(e, d[3..])
  }

  /** The two or three symbols of a final partial quantum, its padding removed. */
  function Partial(e: Engine, s: seq<Byte>): (r: Option<seq<Byte>>)
    ensures r.Some? ==> 2 <= |r.value| <= 3
  {
    if !e.padded then (if 2 <= |s| <= 3 then Some(s) else None)
    else if |s| != 4 || s[3] != PAD then None
    else Some(if s[2] == PAD then s[..2] else s[..3])
  }

  /** Two symbols carry one byte and three carry two; the bits left over must be zero. */
  function DecodePartial(urlSafe: bool, s: seq<Byte>): Option<seq<Byte>>
    requires 2 <= |s| <= 3
  {
    match Values(urlSafe, s)
    case None => None
    case Some(v) =>
      if |v| == 2 then (if v[1] % 16 != 0 then None else Some(Bytes(v + [0, 0])[..1]))
      else if v[2] % 4 != 0 then None
      else Some(Bytes(v + [0])[..2])
  }

  function Decode(e: Engine, s: seq<Byte>): Option<seq<Byte>> {
    if s == [] then Some([])
    else if |s| >= 4 && s[3] != PAD then
      match Values(e.urlSafe, s[..4])
      case None => None
      case Some(v) =>
        match Decode(e, s[4..])
        case None => None
        case Some(rest) => Some(Bytes(v) + rest)
    else
      match Partial(e, s)
      case None => None
      case Some(symbols) => DecodePartial(e.urlSafe, symbols)
  }

  // ----- the codec

  lemma DecodeOne(e: Engine, d: seq<Byte>)
    requires |d| == 1
    ensures Decode(e, Encode(e, d)) == Some(d)
  {
    var v := Sextets(d + [0, 0]);
    BytesOfSextets(d + [0, 0]);
    ValuesOfSymbols(e.urlSafe, v[..2]);
    SymbolsAreNotPads(e.urlSafe, v[..2]);
    assert v[..2] + [0, 0] == v;
    var s := Encode(e, d);
    assert s[..2] == Symbols(e.urlSafe, v[..2]);
    assert !e.padded ==> s == s[..2];
    assert Partial(e, s) == Some(Symbols(e.urlSafe, v[..2]));
  }

  lemma DecodeTwo(e: Engine, d: seq<Byte>)
    requires |d| == 2
    ensures Decode(e, Encode(e, d)) == Some(d)
  {
    var v := Sextets(d + [0]);
    BytesOfSextets(d + [0]);
    ValuesOfSymbols(e.urlSafe, v[..3]);
    SymbolsAreNotPads(e.urlSafe, v[..3]);
    assert v[..3] + [0] == v;
    var s := Encode(e, d);
    assert s[..3] == Symbols(e.urlSafe, v[..3]);
    assert !e.padded ==> s == s[..3];
    assert Partial(e, s) == Some(Symbols(e.urlSafe, v[..3]));
  }

  lemma SymbolsAreNotPads(urlSafe: bool, v: seq<Sextet>)
    ensures forall i :: 0 <= i < |v| ==> Symbols(urlSafe, v)[i] != PAD
  {
  }

  /** Decoding inverts encoding, for every engine. */
  lemma {:induction false} DecodeEncode(e: Engine, d: seq<Byte>)
    ensures Decode(e, Encode(e, d)) == Some(d)
  {
    if |d| == 1 {
      DecodeOne(e, d);
    } else if |d| == 2 {
      DecodeTwo(e, d);
    } else if |d| > 2 {
      var v := Sextets(d[..3]);
      var head, tail := Symbols(e.urlSafe, v), Encode(e, d[3..]);
      BytesOfSextets(d[..3]);
      ValuesOfSymbols(e.urlSafe, v);
      SymbolsAreNotPads(e.urlSafe, v);
      DecodeEncode(e, d[3..]);
      assert (head + tail)[..4] == head && (head + tail)[4..] == tail;
      assert d == d[..3] + d[3..];
    }
  }

  lemma OneByteOfTwo(v: seq<Sextet>)
    requires |v| == 2 && v[1] % 16 == 0
    ensures Sextets(Bytes(v + [0, 0])[..1] + [0, 0])[..2] == v
  {
    SextetsOfBytes(v + [0, 0]);
    assert Bytes(v + [0, 0])[..1] + [0, 0] == Bytes(v + [0, 0]);
  }

  lemma TwoBytesOfThree(v: seq<Sextet>)
    requires |v| == 3 && v[2] % 4 == 0
    ensures Sextets(Bytes(v + [0])[..2] + [0])[..3] == v
  {
    SextetsOfBytes(v + [0]);
    assert Bytes(v + [0])[..2] + [0] == Bytes(v + [0]);
  }

  lemma EncodePartial(e: Engine, s: seq<Byte>)
    requires s != [] && !(|s| >= 4 && s[3] != PAD) && Decode(e, s).Some?
    ensures Encode(e, Decode(e, s).value) == s
  {
    var symbols := Partial(e, s).value;
    var v := Values(e.urlSafe, symbols).value;
    SymbolsOfValues(e.urlSafe, symbols);
    assert s == symbols + if !e.padded then [] else if |v| == 2 then [PAD, PAD] else [PAD];
    if |v| == 2 {
      OneByteOfTwo(v);
    } else {
      TwoBytesOfThree(v);
    }
  }

  /** Whatever decodes is the one encoding of its result. */
  lemma {:induction false} EncodeDecode(e: Engine, s: seq<Byte>)
    requires Decode(e, s).Some?
    ensures Encode(e, Decode(e, s).value) == s
  {
    if s != [] {
      if |s| >= 4 && s[3] != PAD {
        var v := Values(e.urlSafe, s[..4]).value;
        var rest := Decode(e, s[4..]).value;
        SymbolsOfValues(e.urlSafe, s[..4]);
        SextetsOfBytes(v);
        EncodeDecode(e, s[4..]);
        var d := Bytes(v) + rest;
        assert d[..3] == Bytes(v) && d[3..] == rest;
        assert s == s[..4] + s[4..];
      } else {
        EncodePartial(e, s);
      }
    }
  }

  /** A text that two engines accept means the same to both. */
  lemma {:induction false} EnginesNeverDisagree(e: Engine, f: Engine, s: seq<Byte>)
    requires Decode(e, s).Some? && Decode(f, s).Some?
    ensures Decode(e, s) == Decode(f, s)
  {
    if s != [] {
      if |s| >= 4 && s[3] != PAD {
        ValuesAgree(e.urlSafe, f.urlSafe, s[..4]);
        EnginesNeverDisagree(e, f, s[4..]);
      } else {
        var a, b := Partial(e, s).value, Partial(f, s).value;
        assert e.padded == f.padded;
        ValuesAgree(e.urlSafe, f.urlSafe, a);
      }
    }
  }

  lemma ValuesAgree(u: bool, w: bool, s: seq<Byte>)
    requires Values(u, s).Some? && Values(w, s).Some?
    ensures Values(u, s) == Values(w, s)
  {
    forall i | 0 <= i < |s|
      ensures Values(u, s).value[i] == Values(w, s).value[i]
    {
      assert Value(u, s[i]).Some? && Value(w, s[i]).Some?;
    }
  }

  /** Encodings are symbols and padding only. */
  predicate IsSymbol(b: Byte) {
    b == PAD || Value(false, b).Some? || Value(true, b).Some?
  }

  lemma SymbolsAreSymbols(urlSafe: bool, v: seq<Sextet>)
    ensures forall i :: 0 <= i < |v| ==> IsSymbol(Symbols(urlSafe, v)[i])
  {
    forall i | 0 <= i < |v| {
      SymbolValue(urlSafe, v[i]);
    }
  }

  lemma {:induction false} EncodingIsSymbols(e: Engine, d: seq<Byte>)
    ensures forall i :: 0 <= i < |Encode(e, d)| ==> IsSymbol(Encode(e, d)[i])
  {
    if |d| == 1 {
      SymbolsAreSymbols(e.urlSafe, Sextets(d + [0, 0])[..2]);
    } else if |d| == 2 {
      SymbolsAreSymbols(e.urlSafe, Sextets(d + [0])[..3]);
    } else if |d| > 2 {
      SymbolsAreSymbols(e.urlSafe, Sextets(d[..3]));
      EncodingIsSymbols(e, d[3..]);
    }
  }

  lemma {:induction false} EncodingLength(e: Engine, d: seq<Byte>)
    ensures |Encode(e, d)| == if e.padded then (|d| + 2) / 3 * 4 else (|d| * 4 + 2) / 3
  {
    if |d| > 2 {
      EncodingLength(e, d[3..]);
    }
  }

  /** Three of the test vectors of RFC 4648, section 10 (`f`, `fo` and `foo`), and the two symbols in which the alphabets differ. */
  lemma Vectors()
    ensures Encode(Engine(false, true), [102]) == [90, 103, 61, 61] && Encode(Engine(false, true), [102, 111]) == [90, 109, 56, 61]
    ensures Encode(Engine(false, true), [102, 111, 111]) == [90, 109, 57, 118]
    ensures Encode(Engine(false, false), [251, 255]) == [43, 47, 56] && Encode(Engine(true, false), [251, 255]) == [45, 95, 56]
  {
    assert Encode(Engine(false, true), []) == [];
    assert [102, 111, 111][..3] == [102, 111, 111];
  }
}
