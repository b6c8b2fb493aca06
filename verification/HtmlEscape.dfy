/** HTML escaping by five replacements, one after another. */
module HtmlEscape {
  import opened Text

  /** `escape_html`. */
  function EscapeHtml(s: string): string {
    var s := ReplaceChar(s, '&', "&amp;");
    var s := ReplaceChar(s, '<', "&lt;");
    var s := ReplaceChar(s, '>', "&gt;");
    var s := ReplaceChar(s, '"', "&quot;");
    ReplaceChar(s, '\'', "&#x27;")
  }

  /** What a character becomes on its own. */
  function EscapeChar(c: char): string {
    if c == '&' then "&amp;"
    else if c == '<' then "&lt;"
    else if c == '>' then "&gt;"
    else if c == '"' then "&quot;"
    else if c == '\'' then "&#x27;"
    else [c]
  }

  function EachChar(s: string): string {
    if s == [] then [] else EscapeChar(s[0]) + EachChar(s[1..])
  }

  lemma {:induction false} ReplaceAbsent(s: string, from: char, to: string)
    requires from !in s
    ensures ReplaceChar(s, from, to) == s
  {
    if s != [] {
      ReplaceAbsent(s[1..], from, to);
      assert s == [s[0]] + s[1..];
    }
  }

  lemma ReplaceOne(c: char, from: char, to: string)
    ensures ReplaceChar([c], from, to) == if c == from then to else [c]
  {
    assert [c][1..] == [];
    assert ReplaceChar([], from, to) == [];
  }

  lemma LaterPassesKeep(s: string)
    requires '<' !in s && '>' !in s && '"' !in s && '\'' !in s
    ensures ReplaceChar(s, '<', "&lt;") == s && ReplaceChar(s, '>', "&gt;") == s
    ensures ReplaceChar(s, '"', "&quot;") == s && ReplaceChar(s, '\'', "&#x27;") == s
  {
    ReplaceAbsent(s, '<', "&lt;");
    ReplaceAbsent(s, '>', "&gt;");
    ReplaceAbsent(s, '"', "&quot;");
    ReplaceAbsent(s, '\'', "&#x27;");
  }

  lemma EscapeOfChar(c: char)
    ensures EscapeHtml([c]) == EscapeChar(c)
  {
    ReplaceOne(c, '&', "&amp;");
    ReplaceOne(c, '<', "&lt;");
    ReplaceOne(c, '>', "&gt;");
    ReplaceOne(c, '"', "&quot;");
    ReplaceOne(c, '\'', "&#x27;");
    var e := EscapeChar(c);
    CharIsSafe(c);
    LaterPassesKeep(e);
  }

  lemma EscapeDistributes(a: string, b: string)
    ensures EscapeHtml(a + b) == EscapeHtml(a) + EscapeHtml(b)
  {
    ReplaceCharDistributes(a, b, '&', "&amp;");
    var a1, b1 := ReplaceChar(a, '&', "&amp;"), ReplaceChar(b, '&', "&amp;");
    ReplaceCharDistributes(a1, b1, '<', "&lt;");
    var a2, b2 := ReplaceChar(a1, '<', "&lt;"), ReplaceChar(b1, '<', "&lt;");
    ReplaceCharDistributes(a2, b2, '>', "&gt;");
    var a3, b3 := ReplaceChar(a2, '>', "&gt;"), ReplaceChar(b2, '>', "&gt;");
    ReplaceCharDistributes(a3, b3, '"', "&quot;");
    ReplaceCharDistributes(ReplaceChar(a3, '"', "&quot;"), ReplaceChar(b3, '"', "&quot;"), '\'', "&#x27;");
  }

  /** The five passes are one pass: no replacement disturbs the text of another. */
  lemma {:induction false} EscapeIsOnePass(s: string)
    ensures EscapeHtml(s) == EachChar(s)
  {
    if s != [] {
      assert s == [s[0]] + s[1..];
      EscapeDistributes([s[0]], s[1..]);
      EscapeOfChar(s[0]);
      EscapeIsOnePass(s[1..]);
    }
  }

  /** One of the five entities starts here. */
  predicate StartsEntity(s: string) {
    "&amp;" <= s || "&lt;" <= s || "&gt;" <= s || "&quot;" <= s || "&#x27;" <= s
  }

  lemma {:induction false} EachCharIsSafe(s: string)
    ensures forall i :: 0 <= i < |EachChar(s)| ==> EachChar(s)[i] !in "<>\"'"
    ensures forall i :: 0 <= i < |EachChar(s)| && EachChar(s)[i] == '&' ==> StartsEntity(EachChar(s)[i..])
  {
    if s != [] {
      EachCharIsSafe(s[1..]);
      var head, tail := EscapeChar(s[0]), EachChar(s[1..]);
      forall i | 0 <= i < |head + tail|
        ensures (head + tail)[i] !in "<>\"'"
        ensures (head + tail)[i] == '&' ==> StartsEntity((head + tail)[i..])
      {
        if i < |head| {
          CharIsSafe(s[0]);
          if (head + tail)[i] == '&' {
            assert (head + tail)[i..] == head + tail;
          }
        } else {
          assert (head + tail)[i..] == tail[i - |head|..];
        }
      }
    }
  }

  lemma CharIsSafe(c: char)
    ensures var r := EscapeChar(c);
            && (forall i :: 0 <= i < |r| ==> r[i] !in "<>\"'")
            && (forall i :: 0 <= i < |r| && r[i] == '&' ==> i == 0 && StartsEntity(r))
  {
  }

  /** The output holds no markup character, and every ampersand starts one of the five entities. */
  lemma EscapedIsSafe(s: string)
    ensures forall i :: 0 <= i < |EscapeHtml(s)| ==> EscapeHtml(s)[i] !in "<>\"'"
    ensures forall i :: 0 <= i < |EscapeHtml(s)| && EscapeHtml(s)[i] == '&' ==> StartsEntity(EscapeHtml(s)[i..])
  {
    EscapeIsOnePass(s);
    EachCharIsSafe(s);
  }

  /** How a reader resolves the five entities. */
  function Unescape(s: string): string {
    if s == [] then []
    else if "&amp;" <= s then "&" + Unescape(s[5..])
    else if "&lt;" <= s then "<" + Unescape(s[4..])
    else if "&gt;" <= s then ">" + Unescape(s[4..])
    else if "&quot;" <= s then "\"" + Unescape(s[6..])
    else if "&#x27;" <= s then "'" + Unescape(s[6..])
    else [s[0]] + Unescape(s[1..])
  }

  lemma UnescapeOfChar(c: char, rest: string)
    ensures Unescape(EscapeChar(c) + rest) == [c] + Unescape(rest)
  {
    var e := EscapeChar(c);
    var t := e + rest;
    assert t[|e|..] == rest;
    assert t[0] == e[0];
    if c == '&' {
      assert "&amp;" <= t;
    } else if c == '<' {
      assert t[1] == 'l' && "&lt;" <= t;
    } else if c == '>' {
      assert t[1] == 'g' && "&gt;" <= t;
    } else if c == '"' {
      assert t[1] == 'q' && "&quot;" <= t;
    } else if c == '\'' {
      assert t[1] == '#' && "&#x27;" <= t;
    } else {
      assert t[0] == c && "&amp;"[0] == '&' && "&lt;"[0] == '&' && "&gt;"[0] == '&' && "&quot;"[0] == '&' && "&#x27;"[0] == '&';
    }
  }

  /** Unescaping gives the message back. */
  lemma {:induction false} UnescapeEscape(s: string)
    ensures Unescape(EscapeHtml(s)) == s
  {
    EscapeIsOnePass(s);
    if s != [] {
      UnescapeOfChar(s[0], EachChar(s[1..]));
      UnescapeEscape(s[1..]);
      EscapeIsOnePass(s[1..]);
      assert s == [s[0]] + s[1..];
    }
  }
}
