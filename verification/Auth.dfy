/** The bearer comparison every transport shares. */
module Auth {
  import opened Utf8

  /** `^` and `|` of unsigned words. */
  function Xor(x: nat, y: nat): nat {
    if x == 0 && y == 0 then 0 else (if x % 2 != y % 2 then 1 else 0) + 2 * Xor(x / 2, y / 2)
  }

  function Or(x: nat, y: nat): nat {
    if x == 0 && y == 0 then 0 else (if x % 2 == 1 || y % 2 == 1 then 1 else 0) + 2 * Or(x / 2, y / 2)
  }

  lemma {:induction false} XorIsZeroIffEqual(x: nat, y: nat)
    ensures Xor(x, y) == 0 <==> x == y
  {
    if x != 0 || y != 0 {
      XorIsZeroIffEqual(x / 2, y / 2);
      assert x == 2 * (x / 2) + x % 2 && y == 2 * (y / 2) + y % 2;
    }
  }

  lemma {:induction false} OrIsZeroIffBothAre(x: nat, y: nat)
    ensures Or(x, y) == 0 <==> x == 0 && y == 0
  {
    if x != 0 || y != 0 {
      OrIsZeroIffBothAre(x / 2, y / 2);
      assert x == 2 * (x / 2) + x % 2 && y == 2 * (y / 2) + y % 2;
    }
  }

  /** The byte at `i`, or zero past the end. */
  function Padded(s: seq<Byte>, i: nat): Byte {
    if i < |s| then s[i] else 0
  }

  /** Folds the lengths and every zero-padded byte pair into two accumulators;
      true exactly when the byte strings are equal. */
  method ConstantTimeEq(a: seq<Byte>, b: seq<Byte>) returns (equal: bool)
    ensures equal <==> a == b
  {
    var lenDiff := Xor(|a|, |b|);
    var maxLen := if |a| < |b| then |b| else |a|;
    var byteDiff := 0;
    for i := 0 to maxLen
      invariant byteDiff == 0 <==> forall j :: 0 <= j < i ==> Padded(a, j) == Padded(b, j)
    {
      var left, right := Padded(a, i), Padded(b, i);
      XorIsZeroIffEqual(left, right);
      OrIsZeroIffBothAre(byteDiff, Xor(left, right));
      byteDiff := Or(byteDiff, Xor(left, right));
    }
    XorIsZeroIffEqual(|a|, |b|);
    if |a| == |b| && byteDiff == 0 {
      assert forall j :: 0 <= j < |a| ==> Padded(a, j) == a[j] && Padded(b, j) == b[j];
    }
    equal := lenDiff == 0 && byteDiff == 0;
  }

  /** A supplied bearer is good exactly when it is the expected one and not empty. */
  method BearerMatches(supplied: string, expected: string) returns (ok: bool)
    ensures ok <==> supplied != "" && supplied == expected
  {
    if supplied == "" {
      return false;
    }
    EncodeInjective(supplied, expected);
    ok := ConstantTimeEq(Encode(supplied), Encode(expected));
  }
}
