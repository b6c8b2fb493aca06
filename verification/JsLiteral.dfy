/** Printing a string as a single-quoted JavaScript literal, and reading such literals by the
    rules of ECMA-262, section 12.9.4. Strings are sequences of UTF-16 code units. */
module JsLiteral {
  import opened Prelude

  type CodeUnit = n: int | 0 <= n < 0x1_0000

  type JsText = seq<CodeUnit>

  const LF: CodeUnit := 10
  const CR: CodeUnit := 13
  const TAB: CodeUnit := 9
  const QUOTE: CodeUnit := 39
  const BACKSLASH: CodeUnit := 92
  const LS: CodeUnit := 0x2028
  const PS: CodeUnit := 0x2029

  predicate IsLineTerminator(c: CodeUnit) {
    c == LF || c == CR || c == LS || c == PS
  }

  // ----- printing

  function HexDigit(d: nat): CodeUnit
    requires d < 16
  {
    if d < 10 then 48 + d else 87 + d
  }

  /** `toString(16).padStart(4, "0")`. */
  function Hex4(c: CodeUnit): JsText {
    [HexDigit(c / 4096), HexDigit(c / 256 % 16), HexDigit(c / 16 % 16), HexDigit(c % 16)]
  }

  function EscapeUnit(c: CodeUnit): JsText {
    if c == BACKSLASH then [BACKSLASH, BACKSLASH]
    else if c == QUOTE then [BACKSLASH, QUOTE]
    else if c == LF then [BACKSLASH, 110]
    else if c == CR then [BACKSLASH, 114]
    else if c == TAB then [BACKSLASH, 116]
    else if c < 32 || c == LS || c == PS then [BACKSLASH, 117] + Hex4(c)
    else [c]
  }

  function Escaped(s: JsText): JsText {
    if s == [] then [] else EscapeUnit(s[0]) + Escaped(s[1..])
  }

  function JsString(s: JsText): JsText {
    [QUOTE] + Escaped(s) + [QUOTE]
  }

  // ----- reading

  function HexValue(c: CodeUnit): Option<nat> {
    if 48 <= c <= 57 then Some(c - 48)
    else if 97 <= c <= 102 then Some(c - 87)
    else if 65 <= c <= 70 then Some(c - 55)
    else None
  }

  function HexNumber(t: JsText): Option<nat> {
    if t == [] then Some(0)
    else
      match HexNumber(t[..|t| - 1])
      case None => None
      case Some(n) =>
        match HexValue(t[|t| - 1])
        case None => None
        case Some(d) => Some(16 * n + d)
  }

  /** A fixed number of hexadecimal digits as one code unit. */
  function ReadHex(t: JsText, digits: nat): (r: Option<(JsText, JsText)>)
    ensures r.Some? ==> |r.value.1| <= |t|
  {
    if |t| < digits then None
    else
      match HexNumber(t[..digits])
      case Some(n) => if n < 0x1_0000 then Some(([n], t[digits..])) else None
      case None => None
  }

  /** What follows a backslash: its value and the rest. Octal escapes are errors, as in every module. */
  function ReadEscape(t: JsText): (r: Option<(JsText, JsText)>)
    ensures r.Some? ==> |r.value.1| < |t|
  {
    if t == [] then None
    else
      var c, rest := t[0], t[1..];
      if c == CR && rest != [] && rest[0] == LF then Some(([], rest[1..]))
      else if IsLineTerminator(c) then Some(([], rest))
      else if c == 98 then Some(([8], rest))
      else if c == 102 then Some(([12], rest))
      else if c == 110 then Some(([LF], rest))
      else if c == 114 then Some(([CR], rest))
      else if c == 116 then Some(([TAB], rest))
      else if c == 118 then Some(([11], rest))
      else if c == 48 then (if rest != [] && 48 <= rest[0] <= 57 then None else Some(([0], rest)))
      else if 49 <= c <= 57 then None
      else if c == 120 then ReadHex(rest, 2)
      else if c == 117 then ReadHex(rest, 4)
      else Some(([c], rest))
  }

  /** The characters up to the closing quote, and what follows it. */
  function ReadBody(t: JsText): (r: Option<(JsText, JsText)>)
    ensures r.Some? ==> |r.value.1| < |t|
  {
    if t == [] || t[0] == LF || t[0] == CR then None
    else if t[0] == QUOTE then Some(([], t[1..]))
    else
      match (if t[0] == BACKSLASH then ReadEscape(t[1..]) else Some(([t[0]], t[1..])))
      case None => None
      case Some(head) =>
        match ReadBody(head.1)
        case None => None
        case Some(tail) => Some((head.0 + tail.0, tail.1))
  }

  function ReadLiteral(t: JsText): (r: Option<(JsText, JsText)>)
    ensures r.Some? ==> |r.value.1| < |t|
  {
    if t != [] && t[0] == QUOTE then ReadBody(t[1..]) else None
  }

  // ----- the round trip

  lemma HexDigitValue(d: nat)
    requires d < 16
    ensures HexValue(HexDigit(d)) == Some(d)
  {
  }

  lemma Hex4RoundTrip(c: CodeUnit, rest: JsText)
    ensures ReadHex(Hex4(c) + rest, 4) == Some(([c], rest))
  {
    var h := Hex4(c);
    HexDigitValue(c / 4096);
    HexDigitValue(c / 256 % 16);
    HexDigitValue(c / 16 % 16);
    HexDigitValue(c % 16);
    var t := h + rest;
    assert t[..4] == h && t[4..] == rest;
    assert h[..3][..2][..1][..0] == [] && h[..3][..2][..1] == h[..1] && h[..3][..2] == h[..2];
    assert HexNumber(h[..1]) == Some(c / 4096);
    assert HexNumber(h[..2]) == Some(c / 256) by {
      assert c / 256 / 16 == c / 4096;
    }
    assert HexNumber(h[..3]) == Some(c / 16) by {
      assert c / 16 / 16 == c / 256;
    }
    assert HexNumber(h) == Some(c);
  }

  lemma EscapedUnitReadsBack(c: CodeUnit, rest: JsText)
    ensures ReadBody(EscapeUnit(c) + rest) ==
            match ReadBody(rest) case None => None case Some(tail) => Some(([c] + tail.0, tail.1))
  {
    var t := EscapeUnit(c) + rest;
    if |EscapeUnit(c)| == 6 {
      Hex4RoundTrip(c, rest);
      assert t[1..] == [117] + (Hex4(c) + rest);
      assert t[1..][1..] == Hex4(c) + rest;
      assert ReadEscape(t[1..]) == Some(([c], rest));
    } else if |EscapeUnit(c)| == 2 {
      assert t[1..] == [EscapeUnit(c)[1]] + rest;
      assert t[1..][1..] == rest;
      assert ReadEscape(t[1..]) == Some(([c], rest));
    } else {
      assert t[1..] == rest;
    }
  }

  lemma {:induction false} EscapedReadsBack(s: JsText, rest: JsText)
    ensures ReadBody(Escaped(s) + [QUOTE] + rest) == Some((s, rest))
  {
    if s == [] {
      assert Escaped(s) + [QUOTE] + rest == [QUOTE] + rest;
    } else {
      var tail := Escaped(s[1..]) + [QUOTE] + rest;
      assert Escaped(s) + [QUOTE] + rest == EscapeUnit(s[0]) + tail;
      EscapedUnitReadsBack(s[0], tail);
      EscapedReadsBack(s[1..], rest);
      assert s == [s[0]] + s[1..];
    }
  }

  /** Reading a printed literal gives the string back, and stops at its closing quote whatever follows. */
  lemma LiteralRoundTrip(s: JsText, rest: JsText)
    ensures ReadLiteral(JsString(s) + rest) == Some((s, rest))
  {
    EscapedReadsBack(s, rest);
    assert (JsString(s) + rest)[1..] == Escaped(s) + [QUOTE] + rest;
  }

  lemma EscapeUnitHasNoLineBreak(c: CodeUnit)
    ensures forall t :: t in EscapeUnit(c) ==> !IsLineTerminator(t)
  {
    if |EscapeUnit(c)| == 6 {
      assert forall t :: t in Hex4(c) ==> 48 <= t <= 57 || 97 <= t <= 102;
    }
  }

  lemma {:induction false} EscapedHasNoLineBreak(s: JsText)
    ensures forall t :: t in Escaped(s) ==> !IsLineTerminator(t)
  {
    if s != [] {
      EscapeUnitHasNoLineBreak(s[0]);
      EscapedHasNoLineBreak(s[1..]);
    }
  }

  /** A printed literal stays on one line. */
  lemma LiteralHasNoLineBreak(s: JsText)
    ensures forall t :: t in JsString(s) ==> !IsLineTerminator(t)
  {
    EscapedHasNoLineBreak(s);
  }

  /** A unit stands for itself unless it is a control, a quote, a backslash or a line terminator; the quote, the backslash and
      three controls have an escape of one letter, the others are written as four hexadecimal digits. */
  lemma EscapeUnitExactly(c: CodeUnit)
    ensures EscapeUnit(c) == [c] <==> c >= 32 && c != QUOTE && c != BACKSLASH && c != LS && c != PS
    ensures EscapeUnit(c) != [c] ==> EscapeUnit(c)[0] == BACKSLASH
    ensures |EscapeUnit(c)| == 2 <==> c in {QUOTE, BACKSLASH, LF, CR, TAB}
    ensures |EscapeUnit(c)| == 6 ==>
              EscapeUnit(c)[1] == 117 && forall i :: 2 <= i < 6 ==> 48 <= EscapeUnit(c)[i] <= 57 || 97 <= EscapeUnit(c)[i] <= 102
    ensures |EscapeUnit(c)| == 6 <==> (c < 32 && c != LF && c != CR && c != TAB) || c == LS || c == PS
  {
  }
}
