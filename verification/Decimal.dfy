/** `str::parse` for `i64` and `u64`, and the decimal texts they read back. */
module Decimal {
  import opened Prelude

  /** The number a run of digits denotes, or nothing if a character is not a digit. */
  function DigitsValue(s: string): Option<nat> {
    if s == [] then Some(0)
    else
      var last := s[|s| - 1];
      match DigitsValue(s[..|s| - 1])
      case Some(n) => if '0' <= last <= '9' then Some(10 * n + (last as int - '0' as int)) else None
      case None => None
  }

  function Unsigned(s: string): Option<nat> {
    if s == [] then None else DigitsValue(s)
  }

  /** One leading plus sign is allowed; a sign alone, stray characters and overflow are errors. */
  function ParseU64(s: string): (r: Option<int>)
    ensures r.Some? ==> 0 <= r.value < 0x1_0000_0000_0000_0000
  {
    match Unsigned(if s != [] && s[0] == '+' then s[1..] else s)
    case Some(n) => if n < 0x1_0000_0000_0000_0000 then Some(n) else None
    case None => None
  }

  function ParseI64(s: string): (r: Option<int>)
    ensures r.Some? ==> -0x8000_0000_0000_0000 <= r.value < 0x8000_0000_0000_0000
  {
    if s != [] && s[0] == '-' then
      match Unsigned(s[1..])
      case Some(n) => if n <= 0x8000_0000_0000_0000 then Some(0 - (n as int)) else None
      case None => None
    else
      match Unsigned(if s != [] && s[0] == '+' then s[1..] else s)
      case Some(n) => if n < 0x8000_0000_0000_0000 then Some(n) else None
      case None => None
  }

  function Digit(d: nat): char
    requires d < 10
  {
    ('0' as int + d) as char
  }

  function Digits(n: nat): (s: string)
    ensures s != [] && '0' <= s[0] <= '9'
  {
    if n < 10 then [Digit(n)] else Digits(n / 10) + [Digit(n % 10)]
  }

  /** The shortest decimal text. */
  function Render(n: int): string {
    if n < 0 then "-" + Digits(-n) else Digits(n)
  }

  lemma {:induction false} DigitsRoundTrip(n: nat)
    ensures DigitsValue(Digits(n)) == Some(n)
  {
    if n < 10 {
      assert DigitsValue([]) == Some(0);
      assert [Digit(n)][..0] == [];
    } else {
      var s := Digits(n / 10) + [Digit(n % 10)];
      assert s[..|s| - 1] == Digits(n / 10);
      DigitsRoundTrip(n / 10);
    }
  }

  /** Parsing inverts rendering on the whole signed range, and fails outside it. */
  lemma I64RoundTrip(n: int)
    ensures ParseI64(Render(n)) == if -0x8000_0000_0000_0000 <= n < 0x8000_0000_0000_0000 then Some(n) else None
  {
    DigitsRoundTrip(if n < 0 then -n else n);
    if n < 0 {
      assert Render(n)[1..] == Digits(-n);
    }
  }

  lemma U64RoundTrip(n: nat)
    ensures ParseU64(Render(n)) == if n < 0x1_0000_0000_0000_0000 then Some(n) else None
  {
    DigitsRoundTrip(n);
  }

  // ----- the texts that are read

  function Zeros(k: nat): (s: string)
    ensures |s| == k && forall i :: 0 <= i < k ==> s[i] == '0'
  {
    if k == 0 then "" else Zeros(k - 1) + "0"
  }

  /** `s` is the shortest text of `n` behind any number of zeros. */
  ghost predicate Spells(s: string, n: nat) {
    exists k :: s == Zeros(k) + Digits(n)
  }

  lemma {:induction false} ZerosAreWorthless(k: nat)
    ensures DigitsValue(Zeros(k)) == Some(0)
  {
    if k > 0 {
      assert Zeros(k)[..k - 1] == Zeros(k - 1);
      ZerosAreWorthless(k - 1);
    }
  }

  lemma {:induction false} SpelledValue(k: nat, n: nat)
    ensures DigitsValue(Zeros(k) + Digits(n)) == Some(n)
  {
    var s := Zeros(k) + Digits(n);
    if n < 10 {
      assert s[..|s| - 1] == Zeros(k);
      ZerosAreWorthless(k);
    } else {
      assert s[..|s| - 1] == Zeros(k) + Digits(n / 10);
      SpelledValue(k, n / 10);
    }
  }

  lemma OneMoreDigit(s: string, m: nat, d: nat)
    requires Spells(s, m) && d < 10
    ensures Spells(s + [Digit(d)], 10 * m + d)
  {
    var k: nat :| s == Zeros(k) + Digits(m);
    if m == 0 {
      assert Digits(0) == "0";
      assert Zeros(k) + "0" + [Digit(d)] == Zeros(k + 1) + Digits(d);
    } else {
      assert Digits(10 * m + d) == Digits(m) + [Digit(d)];
      assert s + [Digit(d)] == Zeros(k) + Digits(10 * m + d);
    }
  }

  lemma {:induction false} ValueIsSpelled(s: string)
    requires s != [] && DigitsValue(s).Some?
    ensures Spells(s, DigitsValue(s).value)
  {
    var init, last := s[..|s| - 1], s[|s| - 1];
    var d: nat := last as int - '0' as int;
    assert s == init + [Digit(d)];
    if init == [] {
      assert s == Zeros(0) + Digits(d);
    } else {
      ValueIsSpelled(init);
      OneMoreDigit(init, DigitsValue(init).value, d);
    }
  }

  /** A run of digits, and only that, is read, as the number it spells. */
  lemma UnsignedExactly(s: string, n: nat)
    ensures Unsigned(s) == Some(n) <==> Spells(s, n)
  {
    if Unsigned(s).Some? {
      ValueIsSpelled(s);
    }
    if Spells(s, n) {
      var k :| s == Zeros(k) + Digits(n);
      SpelledValue(k, n);
    }
  }

  lemma SpelledHead(s: string, n: nat)
    requires Spells(s, n)
    ensures s != [] && '0' <= s[0] <= '9'
  {
    var k :| s == Zeros(k) + Digits(n);
    assert s[0] == if k > 0 then Zeros(k)[0] else Digits(n)[0];
  }

  ghost predicate PlainOrPlus(s: string, n: nat) {
    Spells(s, n) || exists t :: s == "+" + t && Spells(t, n)
  }

  /** An optional plus sign and digits, within range. */
  ghost predicate UnsignedText(s: string, n: int) {
    0 <= n < 0x1_0000_0000_0000_0000 && PlainOrPlus(s, n)
  }

  /** An optional sign and digits, within range; a minus sign may stand before zero. */
  ghost predicate SignedText(s: string, n: int) {
    && -0x8000_0000_0000_0000 <= n < 0x8000_0000_0000_0000
    && ((0 <= n && PlainOrPlus(s, n)) || (n <= 0 && exists t :: s == "-" + t && Spells(t, -n)))
  }

  lemma U64Exactly(s: string, n: int)
    ensures ParseU64(s) == Some(n) <==> UnsignedText(s, n)
  {
    if 0 <= n {
      UnsignedExactly(if s != [] && s[0] == '+' then s[1..] else s, n);
      PlusOrNone(s, n);
    }
  }

  lemma PlusOrNone(s: string, n: nat)
    ensures Spells(if s != [] && s[0] == '+' then s[1..] else s, n) <==> PlainOrPlus(s, n)
  {
    if Spells(s, n) {
      SpelledHead(s, n);
    }
    if s != [] && s[0] == '+' {
      assert s == "+" + s[1..];
    }
    forall t | s == "+" + t
      ensures s[0] == '+' && s[1..] == t
    {
    }
  }

  lemma MinusSplits(s: string)
    ensures s != [] && s[0] == '-' ==> s == "-" + s[1..]
    ensures forall t :: s == "-" + t ==> s[0] == '-' && s[1..] == t
    ensures forall t :: s == "+" + t ==> s[0] == '+'
  {
  }

  lemma I64Exactly(s: string, n: int)
    ensures ParseI64(s) == Some(n) <==> SignedText(s, n)
  {
    MinusSplits(s);
    if s != [] && s[0] == '-' {
      if n <= 0 {
        UnsignedExactly(s[1..], -n);
      }
      if 0 <= n && Spells(s, n) {
        SpelledHead(s, n);
      }
    } else if 0 <= n {
      UnsignedExactly(if s != [] && s[0] == '+' then s[1..] else s, n);
      PlusOrNone(s, n);
    }
  }
}
