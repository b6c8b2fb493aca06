/** Choosing the keyword variant that a partial recognition is closest to completing. */
module KwsDiagnostics {
  import opened Text

  datatype KeywordVariant = KeywordVariant(phrase: string, tokens: seq<string>)

  datatype Diagnostics = Diagnostics(candidate: string, matchedTokens: nat, totalTokens: nat, tokenProgress: real, confidence: real)

  const EMPTY := Diagnostics("", 0, 0, 0.0, 0.0)

  /** The tokeniser's word mark reads as a space. */
  function CanonicalToken(token: string): string {
    ReplaceChar(token, '\U{2581}', " ")
  }

  predicate Same(a: string, b: string) {
    CanonicalToken(a) == CanonicalToken(b)
  }

  predicate Gap(c: char) {
    c == ' ' || c == '\U{2581}'
  }

  lemma {:induction false} CanonicalExactly(token: string)
    ensures |CanonicalToken(token)| == |token|
    ensures forall i :: 0 <= i < |token| ==> CanonicalToken(token)[i] == if Gap(token[i]) then ' ' else token[i]
  {
    if token != [] {
      CanonicalExactly(token[1..]);
    }
  }

  /** Tokens are the same exactly when they differ only in how they write a space. */
  lemma SameExactly(a: string, b: string)
    ensures Same(a, b) <==> |a| == |b| && forall i :: 0 <= i < |a| ==> a[i] == b[i] || (Gap(a[i]) && Gap(b[i]))
  {
    CanonicalExactly(a);
    CanonicalExactly(b);
    if |a| == |b| && forall i :: 0 <= i < |a| ==> a[i] == b[i] || (Gap(a[i]) && Gap(b[i])) {
      assert CanonicalToken(a) == CanonicalToken(b);
    } else if Same(a, b) {
      forall i | 0 <= i < |a|
        ensures a[i] == b[i] || (Gap(a[i]) && Gap(b[i]))
      {
        assert CanonicalToken(a)[i] == CanonicalToken(b)[i];
      }
    }
  }

  /** `n` is the length of the longest common canonical prefix. */
  predicate IsCommonPrefix(n: nat, observed: seq<string>, expected: seq<string>) {
    && n <= |observed| && n <= |expected|
    && (forall j :: 0 <= j < n ==> Same(observed[j], expected[j]))
    && (n < |observed| && n < |expected| ==> !Same(observed[n], expected[n]))
  }

  method PrefixMatches(observed: seq<string>, expected: seq<string>) returns (matched: nat)
    ensures IsCommonPrefix(matched, observed, expected)
  {
    matched := 0;
    while matched < |observed| && matched < |expected|
      invariant matched <= |observed| && matched <= |expected|
      invariant forall j :: 0 <= j < matched ==> Same(observed[j], expected[j])
    {
      if CanonicalToken(observed[matched]) != CanonicalToken(expected[matched]) {
        break;
      }
      matched := matched + 1;
    }
  }

  /** The same length by recursion; it is the only one. */
  function CommonPrefix(observed: seq<string>, expected: seq<string>): nat {
    if observed == [] || expected == [] || !Same(observed[0], expected[0]) then 0
    else 1 + CommonPrefix(observed[1..], expected[1..])
  }

  lemma {:induction false} CommonPrefixIsOne(observed: seq<string>, expected: seq<string>)
    ensures IsCommonPrefix(CommonPrefix(observed, expected), observed, expected)
  {
    if observed != [] && expected != [] && Same(observed[0], expected[0]) {
      var o, e := observed[1..], expected[1..];
      CommonPrefixIsOne(o, e);
      assert forall j :: 0 <= j < |o| ==> o[j] == observed[j + 1];
      assert forall j :: 0 <= j < |e| ==> e[j] == expected[j + 1];
      forall j | 0 <= j < CommonPrefix(observed, expected)
        ensures Same(observed[j], expected[j])
      {
        if j > 0 {
          assert Same(o[j - 1], e[j - 1]);
        }
      }
    }
  }

  lemma CommonPrefixExact(n: nat, observed: seq<string>, expected: seq<string>)
    ensures IsCommonPrefix(n, observed, expected) <==> n == CommonPrefix(observed, expected)
  {
    CommonPrefixIsOne(observed, expected);
  }

  function Matched(observed: seq<string>, v: KeywordVariant): nat {
    CommonPrefix(observed, v.tokens)
  }

  /** More matched tokens; on a tie, fewer tokens in all. */
  predicate Better(observed: seq<string>, a: KeywordVariant, b: KeywordVariant) {
    || Matched(observed, a) > Matched(observed, b)
    || (Matched(observed, a) == Matched(observed, b) && |a.tokens| < |b.tokens|)
  }

  /** The position of the first of the best variants. */
  ghost predicate Wins(observed: seq<string>, variants: seq<KeywordVariant>, i: nat) {
    && i < |variants| && Matched(observed, variants[i]) > 0
    && (forall j :: 0 <= j < i ==> Better(observed, variants[i], variants[j]))
    && (forall j :: i < j < |variants| ==> !Better(observed, variants[j], variants[i]))
  }

  /** There is only one winner. */
  lemma WinnerIsUnique(observed: seq<string>, variants: seq<KeywordVariant>, i: nat, j: nat)
    requires Wins(observed, variants, i) && Wins(observed, variants, j)
    ensures i == j
  {
  }

  predicate ReportOf(d: Diagnostics, observed: seq<string>, v: KeywordVariant) {
    && v.tokens != []
    && d.candidate == v.phrase && d.matchedTokens == Matched(observed, v) && d.totalTokens == |v.tokens|
    && d.tokenProgress == Matched(observed, v) as real / |v.tokens| as real
    && d.confidence == d.tokenProgress
  }

  /** `rank`, compared lexicographically; progress is kept exact. */
  datatype Rank = Rank(matched: nat, progress: real, total: nat)

  predicate Outranks(a: Rank, b: Rank) {
    || a.matched > b.matched
    || (a.matched == b.matched && a.progress > b.progress)
    || (a.matched == b.matched && a.progress == b.progress && a.total < b.total)
  }

  lemma ShareShrinks(m: nat, s: nat, t: nat)
    requires 0 < m && 0 < s < t
    ensures m as real / s as real > m as real / t as real
  {
    var x, y := m as real / s as real, m as real / t as real;
    assert x * s as real == m as real && y * t as real == m as real;
    assert y > 0.0;
    assert y * t as real > y * s as real;
    assert x * s as real > y * s as real;
  }

  lemma RankIsBetter(a: Rank, b: Rank)
    requires 0 < a.matched && 0 < a.total && a.progress == a.matched as real / a.total as real
    requires 0 < b.matched && 0 < b.total && b.progress == b.matched as real / b.total as real
    ensures Outranks(a, b) <==> a.matched > b.matched || (a.matched == b.matched && a.total < b.total)
  {
    if a.matched == b.matched {
      if a.total < b.total {
        ShareShrinks(a.matched, a.total, b.total);
      } else if b.total < a.total {
        ShareShrinks(a.matched, b.total, a.total);
      }
    }
  }

  lemma ProgressIsAShare(m: nat, t: nat)
    requires 0 < m <= t
    ensures 0.0 < m as real / t as real <= 1.0
    ensures m as real / t as real == 1.0 <==> m == t
  {
    var x := m as real / t as real;
    assert x * t as real == m as real;
  }

  /** Something was observed, and a variant begins with it. */
  predicate SharesFirstToken(observed: seq<string>, variants: seq<KeywordVariant>) {
    observed != [] && exists i :: 0 <= i < |variants| && variants[i].tokens != [] && Same(observed[0], variants[i].tokens[0])
  }

  lemma MatchesFirstToken(observed: seq<string>, v: KeywordVariant)
    ensures Matched(observed, v) > 0 <==> observed != [] && v.tokens != [] && Same(observed[0], v.tokens[0])
  {
  }

  /** Reports the first of the best variants, or nothing exactly when no variant shares the first observed token. */
  method BuildDiagnostics(observed: seq<string>, variants: seq<KeywordVariant>) returns (d: Diagnostics)
    ensures d == EMPTY <==> !SharesFirstToken(observed, variants)
    ensures d != EMPTY ==> exists i: nat :: Wins(observed, variants, i)
    ensures forall i: nat :: Wins(observed, variants, i) ==> ReportOf(d, observed, variants[i])
  {
    forall v {
      MatchesFirstToken(observed, v);
    }
    if observed == [] {
      return EMPTY;
    }
    var found := false;
    var bestAt: nat := 0;
    var bestRank := Rank(0, 0.0, 0);
    for i := 0 to |variants|
      invariant !found ==> forall j :: 0 <= j < i ==> Matched(observed, variants[j]) == 0
      invariant found ==> bestAt < i && Wins(observed, variants[..i], bestAt)
                          && bestRank.matched == Matched(observed, variants[bestAt]) && bestRank.total == |variants[bestAt].tokens|
                          && bestRank.total > 0 && bestRank.progress == bestRank.matched as real / bestRank.total as real
    {
      var variant := variants[i];
      var total := |variant.tokens|;
      if total != 0 {
        var matched := PrefixMatches(observed, variant.tokens);
        CommonPrefixExact(matched, observed, variant.tokens);
        if matched != 0 {
          ProgressIsAShare(matched, total);
          var share := matched as real / total as real;
          var progress := if share < 1.0 then share else 1.0;
          var rank := Rank(matched, progress, total);
          if found {
            RankIsBetter(rank, bestRank);
            if Outranks(rank, bestRank) {
              NewcomerWins(observed, variants, i, bestAt);
            }
          } else {
            FirstWins(observed, variants, i);
          }
          if !found || Outranks(rank, bestRank) {
            found, bestAt, bestRank := true, i, rank;
          }
        }
      }
      if found && bestAt != i {
        StillWins(observed, variants, i, bestAt);
      }
    }
    assert variants[..|variants|] == variants;
    if !found {
      return EMPTY;
    }
    var v := variants[bestAt];
    d := Diagnostics(v.phrase, bestRank.matched, bestRank.total, bestRank.progress, bestRank.progress);
    assert ReportOf(d, observed, v);
    forall i: nat | Wins(observed, variants, i) {
      WinnerIsUnique(observed, variants, i, bestAt);
    }
  }

  lemma StillWins(observed: seq<string>, variants: seq<KeywordVariant>, i: nat, b: nat)
    requires b < i < |variants| && Wins(observed, variants[..i], b) && !Better(observed, variants[i], variants[b])
    ensures Wins(observed, variants[..i + 1], b)
  {
    assert variants[..i + 1] == variants[..i] + [variants[i]];
  }

  lemma NewcomerWins(observed: seq<string>, variants: seq<KeywordVariant>, i: nat, b: nat)
    requires b < i < |variants| && Wins(observed, variants[..i], b) && Better(observed, variants[i], variants[b])
    ensures Wins(observed, variants[..i + 1], i)
  {
    var before := variants[..i];
    assert variants[..i + 1] == before + [variants[i]];
    forall j | 0 <= j < i
      ensures Better(observed, variants[i], variants[j])
    {
      assert before[j] == variants[j] && before[b] == variants[b];
      if j < b {
        assert Better(observed, before[b], before[j]);
      } else if j > b {
        assert !Better(observed, before[j], before[b]);
      }
    }
  }

  lemma FirstWins(observed: seq<string>, variants: seq<KeywordVariant>, i: nat)
    requires i < |variants| && Matched(observed, variants[i]) > 0
    requires forall j :: 0 <= j < i ==> Matched(observed, variants[j]) == 0
    ensures Wins(observed, variants[..i + 1], i)
  {
    assert variants[..i + 1] == variants[..i] + [variants[i]];
  }

  /** A report names its variant and gives the matched share of its tokens twice; the share lies in (0, 1],
      and is 1 exactly when the whole variant is a prefix of what was observed. */
  lemma ReportedProgress(d: Diagnostics, observed: seq<string>, v: KeywordVariant)
    requires ReportOf(d, observed, v) && Matched(observed, v) > 0
    ensures d.candidate == v.phrase && d.matchedTokens == Matched(observed, v) && d.totalTokens == |v.tokens|
    ensures 0.0 < d.tokenProgress <= 1.0 && d.confidence == d.tokenProgress
    ensures d.tokenProgress * |v.tokens| as real == Matched(observed, v) as real
    ensures d.tokenProgress == 1.0 <==>
            |v.tokens| <= |observed| && forall j :: 0 <= j < |v.tokens| ==> Same(observed[j], v.tokens[j])
  {
    var m := Matched(observed, v);
    CommonPrefixExact(m, observed, v.tokens);
    ProgressIsAShare(m, |v.tokens|);
  }
}
