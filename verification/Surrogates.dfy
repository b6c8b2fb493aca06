/** What writing a string to a UTF-8 file and reading it back does: every unpaired surrogate
    becomes U+FFFD, all else stays. */
module Surrogates {
  import opened JsLiteral

  const REPLACEMENT: CodeUnit := 0xFFFD

  predicate High(c: CodeUnit) {
    0xD800 <= c < 0xDC00
  }

  predicate Low(c: CodeUnit) {
    0xDC00 <= c < 0xE000
  }

  /** A surrogate at `i` without its partner next to it. */
  predicate Unpaired(s: JsText, i: nat)
    requires i < |s|
  {
    || (High(s[i]) && !(i + 1 < |s| && Low(s[i + 1])))
    || (Low(s[i]) && !(i > 0 && High(s[i - 1])))
  }

  function Stored(s: JsText): (r: JsText)
    ensures |r| == |s|
  {
    seq(|s|, i requires 0 <= i < |s| => if Unpaired(s, i) then REPLACEMENT else s[i])
  }

  /** No unpaired surrogate. */
  predicate WellFormed(s: JsText) {
    Stored(s) == s
  }

  predicate NoSurrogates(s: JsText) {
    forall i :: 0 <= i < |s| ==> !High(s[i]) && !Low(s[i])
  }

  lemma NoSurrogatesIsWellFormed(s: JsText)
    requires NoSurrogates(s)
    ensures WellFormed(s)
  {
  }

  /** What has been stored once is stored as it is. */
  lemma StoredIsWellFormed(s: JsText)
    ensures WellFormed(Stored(s))
  {
    var r := Stored(s);
    forall i | 0 <= i < |r|
      ensures !Unpaired(r, i)
    {
      assert r[i] == if Unpaired(s, i) then REPLACEMENT else s[i];
      if High(r[i]) {
        assert !Unpaired(s, i + 1);
      } else if Low(r[i]) {
        assert !Unpaired(s, i - 1);
      }
    }
  }

  /** No surrogate pair straddles the seam. */
  predicate Apart(a: JsText, b: JsText) {
    a == [] || b == [] || !High(a[|a| - 1]) || !Low(b[0])
  }

  /** Storing works piece by piece. */
  lemma StoredOfConcat(a: JsText, b: JsText)
    requires Apart(a, b)
    ensures Stored(a + b) == Stored(a) + Stored(b)
  {
    var s := a + b;
    forall i | 0 <= i < |a|
      ensures Unpaired(s, i) <==> Unpaired(a, i)
    {
      assert s[i] == a[i];
    }
    forall i | |a| <= i < |s|
      ensures Unpaired(s, i) <==> Unpaired(b, i - |a|)
    {
      assert s[i] == b[i - |a|];
    }
  }

  lemma PlainPrefix(p: JsText, tail: JsText)
    requires NoSurrogates(p)
    ensures Stored(p + tail) == p + Stored(tail)
  {
    StoredOfConcat(p, tail);
    NoSurrogatesIsWellFormed(p);
  }

  lemma EscapeUnitSurrogates(c: CodeUnit)
    ensures if High(c) || Low(c) then EscapeUnit(c) == [c] else NoSurrogates(EscapeUnit(c)) && EscapeUnit(c) != []
  {
  }

  lemma EscapedHead(c: CodeUnit, rest: JsText)
    ensures Escaped([c] + rest) == EscapeUnit(c) + Escaped(rest)
  {
    assert ([c] + rest)[1..] == rest;
  }

  lemma EscapedPair(h: CodeUnit, l: CodeUnit, rest: JsText)
    requires High(h) && Low(l)
    ensures Escaped([h, l] + rest) == [h, l] + Escaped(rest)
  {
    EscapeUnitSurrogates(h);
    EscapeUnitSurrogates(l);
    EscapedHead(l, rest);
    EscapedHead(h, [l] + rest);
    assert [h, l] + rest == [h] + ([l] + rest);
    assert [h, l] + Escaped(rest) == [h] + ([l] + Escaped(rest));
  }

  lemma LowHead(s: JsText)
    ensures (Escaped(s) != [] && Low(Escaped(s)[0])) <==> (s != [] && Low(s[0]))
  {
    if s != [] {
      EscapeUnitSurrogates(s[0]);
    }
  }

  lemma StoredOne(c: CodeUnit)
    ensures Stored([c]) == [if High(c) || Low(c) then REPLACEMENT else c]
  {
  }

  lemma StoredTwo(h: CodeUnit, l: CodeUnit)
    requires High(h) && Low(l)
    ensures Stored([h, l]) == [h, l]
  {
  }

  /** Escaping and storing commute. */
  lemma {:induction false} StoredOfEscaped(s: JsText)
    ensures Stored(Escaped(s)) == Escaped(Stored(s))
  {
    if s != [] {
      var c := s[0];
      if |s| >= 2 && High(c) && Low(s[1]) {
        var l, rest := s[1], s[2..];
        assert s == [c, l] + rest;
        StoredOfEscaped(rest);
        StoredTwo(c, l);
        StoredOfConcat([c, l], rest);
        StoredOfConcat([c, l], Escaped(rest));
        EscapedPair(c, l, rest);
        EscapedPair(c, l, Stored(rest));
      } else {
        var rest := s[1..];
        assert s == [c] + rest;
        StoredOfEscaped(rest);
        StoredOne(c);
        StoredOfConcat([c], rest);
        EscapedHead(c, rest);
        EscapedHead(Stored([c])[0], Stored(rest));
        EscapeUnitSurrogates(c);
        LowHead(rest);
        StoredOfConcat(EscapeUnit(c), Escaped(rest));
        if !High(c) && !Low(c) {
          NoSurrogatesIsWellFormed(EscapeUnit(c));
        } else {
          assert EscapeUnit(REPLACEMENT) == [REPLACEMENT];
        }
      }
    }
  }

  /** A printed literal, stored, is the printed literal of the stored string. */
  lemma StoredOfLiteral(s: JsText)
    ensures Stored(JsString(s)) == JsString(Stored(s))
  {
    StoredOfEscaped(s);
    StoredOfConcat([QUOTE], Escaped(s));
    StoredOfConcat([QUOTE] + Escaped(s), [QUOTE]);
    StoredOne(QUOTE);
  }
}
