/** String operations of the Rust standard library that the core relies on:
    Unicode trimming, prefixes, character replacement and the byte order of strings. */
module Text {

  /** The White_Space property, as tested by `char::is_whitespace`. */
  predicate IsWhitespace(c: char) {
    var n := c as int;
    9 <= n <= 13 || n == 0x20 || n == 0x85 || n == 0xA0 || n == 0x1680
    || 0x2000 <= n <= 0x200A || n == 0x2028 || n == 0x2029 || n == 0x202F || n == 0x205F || n == 0x3000
  }

  /** There are twenty-five of them. */
  lemma WhitespaceExactly(c: char)
    ensures IsWhitespace(c) <==>
            c as int in {9, 10, 11, 12, 13, 32, 133, 160, 5760, 8192, 8193, 8194, 8195, 8196, 8197, 8198, 8199, 8200, 8201, 8202,
                         8232, 8233, 8239, 8287, 12288}
  {
  }

  predicate Blank(s: string) {
    forall i :: 0 <= i < |s| ==> IsWhitespace(s[i])
  }

  /** No whitespace at either end. */
  predicate Trimmed(s: string) {
    s != [] ==> !IsWhitespace(s[0]) && !IsWhitespace(s[|s| - 1])
  }

  function TrimStart(s: string): string {
    if s != [] && IsWhitespace(s[0]) then TrimStart(s[1..]) else s
  }

  function TrimEnd(s: string): string {
    if s != [] && IsWhitespace(s[|s| - 1]) then TrimEnd(s[..|s| - 1]) else s
  }

  function Trim(s: string): string {
    TrimEnd(TrimStart(s))
  }

  lemma {:induction false} TrimStartSkips(pre: string, s: string)
    requires Blank(pre)
    requires s != [] ==> !IsWhitespace(s[0])
    ensures TrimStart(pre + s) == s
  {
    if pre == [] {
      assert pre + s == s;
    } else {
      assert (pre + s)[1..] == pre[1..] + s;
      TrimStartSkips(pre[1..], s);
    }
  }

  lemma {:induction false} TrimEndSkips(s: string, post: string)
    requires Blank(post)
    requires s != [] ==> !IsWhitespace(s[|s| - 1])
    ensures TrimEnd(s + post) == s
  {
    if post == [] {
      assert s + post == s;
    } else {
      assert (s + post)[..|s + post| - 1] == s + post[..|post| - 1];
      TrimEndSkips(s, post[..|post| - 1]);
    }
  }

  /** Trimming undoes any padding with whitespace. */
  lemma TrimPadding(pre: string, s: string, post: string)
    requires Blank(pre) && Blank(post) && Trimmed(s)
    ensures Trim(pre + s + post) == s
  {
    if s == [] {
      assert pre + s + post == (pre + post) + "";
      TrimStartSkips(pre + post, "");
    } else {
      assert pre + s + post == pre + (s + post);
      TrimStartSkips(pre, s + post);
      TrimEndSkips(s, post);
    }
  }

  lemma {:induction false} TrimStartSplits(s: string) returns (pre: string)
    ensures Blank(pre) && s == pre + TrimStart(s)
    ensures TrimStart(s) != [] ==> !IsWhitespace(TrimStart(s)[0])
  {
    if s != [] && IsWhitespace(s[0]) {
      var rest := TrimStartSplits(s[1..]);
      pre := [s[0]] + rest;
      assert s == [s[0]] + s[1..];
    } else {
      pre := [];
    }
  }

  lemma {:induction false} TrimEndSplits(s: string) returns (post: string)
    ensures Blank(post) && s == TrimEnd(s) + post
    ensures TrimEnd(s) != [] ==> !IsWhitespace(TrimEnd(s)[|TrimEnd(s)| - 1])
  {
    if s != [] && IsWhitespace(s[|s| - 1]) {
      var rest := TrimEndSplits(s[..|s| - 1]);
      post := rest + [s[|s| - 1]];
      assert s == s[..|s| - 1] + [s[|s| - 1]];
    } else {
      post := [];
    }
  }

  /** Every string is its trimmed core between two runs of whitespace. */
  lemma TrimSplits(s: string) returns (pre: string, post: string)
    ensures Blank(pre) && Blank(post) && Trimmed(Trim(s)) && s == pre + Trim(s) + post
  {
    pre := TrimStartSplits(s);
    post := TrimEndSplits(TrimStart(s));
    if Trim(s) != [] {
      assert TrimStart(s)[0] == Trim(s)[0];
    }
  }

  lemma TrimOfTrimmed(s: string)
    requires Trimmed(s)
    ensures Trim(s) == s
  {
    TrimPadding("", s, "");
    assert "" + s + "" == s;
  }

  /** `s` is `core` with whitespace around it. */
  ghost predicate Pads(s: string, core: string) {
    exists pre, post :: Blank(pre) && Blank(post) && s == pre + core + post
  }

  /** Trimming is what undoes padding, and nothing else. */
  lemma TrimExactly(s: string, core: string)
    ensures Trim(s) == core <==> Trimmed(core) && Pads(s, core)
  {
    var pre, post := TrimSplits(s);
    if Trimmed(core) && Pads(s, core) {
      var a, b :| Blank(a) && Blank(b) && s == a + core + b;
      TrimPadding(a, core, b);
    }
  }

  lemma TrimEmptyIffBlank(s: string)
    ensures Trim(s) == "" <==> Blank(s)
  {
    var pre, post := TrimSplits(s);
    if Blank(s) {
      TrimPadding(s, "", "");
      assert s + "" + "" == s;
    }
  }

  predicate StartsWith(s: string, prefix: string) {
    prefix <= s
  }

  /** `str::replace` of one character by a string. */
  function ReplaceChar(s: string, from: char, to: string): string {
    if s == [] then [] else (if s[0] == from then to else [s[0]]) + ReplaceChar(s[1..], from, to)
  }

  lemma {:induction false} ReplaceCharDistributes(a: string, b: string, from: char, to: string)
    ensures ReplaceChar(a + b, from, to) == ReplaceChar(a, from, to) + ReplaceChar(b, from, to)
  {
    if a == [] {
      assert a + b == b;
    } else {
      assert (a + b)[1..] == a[1..] + b;
      ReplaceCharDistributes(a[1..], b, from, to);
    }
  }

  /** The order of `BTreeMap<String, _>` keys: lexicographic by code point,
      which is also the byte order of the UTF-8 encodings. */
  predicate Less(a: string, b: string) {
    if b == [] then false
    else if a == [] then true
    else a[0] < b[0] || (a[0] == b[0] && Less(a[1..], b[1..]))
  }

  lemma {:induction false} LessTotal(a: string, b: string)
    ensures a == b || Less(a, b) || Less(b, a)
  {
    if a != [] && b != [] && a[0] == b[0] {
      assert a == [a[0]] + a[1..] && b == [b[0]] + b[1..];
      LessTotal(a[1..], b[1..]);
    }
  }

  lemma {:induction false} LessTransitive(a: string, b: string, c: string)
    requires Less(a, b) && Less(b, c)
    ensures Less(a, c)
  {
    if a != [] && a[0] == b[0] && b[0] == c[0] {
      LessTransitive(a[1..], b[1..], c[1..]);
    }
  }

  lemma {:induction false} LessIrreflexive(a: string)
    ensures !Less(a, a)
  {
    if a != [] {
      LessIrreflexive(a[1..]);
    }
  }

  predicate IsLeast(k: string, keys: set<string>) {
    k in keys && forall j :: j in keys ==> j == k || Less(k, j)
  }

  lemma {:induction false} FindLeast(keys: set<string>) returns (k: string)
    requires keys != {}
    ensures IsLeast(k, keys)
    decreases |keys|
  {
    var x :| x in keys;
    if keys == {x} {
      k := x;
    } else {
      var rest := keys - {x};
      assert rest != {};
      var r := FindLeast(rest);
      LessTotal(x, r);
      if Less(x, r) {
        forall j | j in rest && j != r
          ensures Less(x, j)
        {
          LessTransitive(x, r, j);
        }
        k := x;
      } else {
        k := r;
      }
    }
  }

  lemma LeastExists(keys: set<string>)
    requires keys != {}
    ensures exists k :: IsLeast(k, keys)
  {
    var k := FindLeast(keys);
  }

  lemma LeastUnique(keys: set<string>)
    ensures forall k, l :: IsLeast(k, keys) && IsLeast(l, keys) ==> k == l
  {
    forall k, l | IsLeast(k, keys) && IsLeast(l, keys)
      ensures k == l
    {
      if k != l {
        LessTransitive(k, l, k);
        LessIrreflexive(k);
      }
    }
  }

  /** The first key a `BTreeMap` or `BTreeSet` with these keys iterates over. */
  function Least(keys: set<string>): (k: string)
    requires keys != {}
    ensures IsLeast(k, keys)
  {
    LeastExists(keys);
    LeastUnique(keys);
    var k :| k in keys && IsLeast(k, keys);
    k
  }

  /** The iteration order of a `BTreeSet`. */
  function Sorted(keys: set<string>): (r: seq<string>)
    ensures forall k :: k in r <==> k in keys
    decreases |keys|
  {
    if keys == {} then []
    else
      var k := Least(keys);
      [k] + Sorted(keys - {k})
  }

  predicate Increasing(keys: seq<string>) {
    forall i, j :: 0 <= i < j < |keys| ==> Less(keys[i], keys[j])
  }

  lemma {:induction false} SortedIncreases(keys: set<string>)
    ensures Increasing(Sorted(keys))
    decreases |keys|
  {
    if keys != {} {
      var k := Least(keys);
      var rest := Sorted(keys - {k});
      SortedIncreases(keys - {k});
      forall i | 0 <= i < |rest|
        ensures Less(k, rest[i])
      {
        assert rest[i] in rest;
      }
    }
  }

  /** A text that is none of these. */
  function LongerThanAll(texts: seq<string>): (s: string)
    ensures forall t :: t in texts ==> |t| < |s|
    ensures s != [] && s[0] == 'x'
  {
    if texts == [] then "x" else LongerThanAll(texts[1..]) + texts[0]
  }
}
