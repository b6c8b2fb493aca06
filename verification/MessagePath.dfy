/** Channel message paths: built from a channel and a message id, and recognised in a failed request's URL. */
module MessagePath {
  import opened Prelude
  import opened Text
  import Utf8

  type Byte = Utf8.Byte

  // ----- percent encoding

  /** The bytes `urlencoding::encode` leaves alone (RFC 3986, section 2.3). */
  predicate Unreserved(b: Byte) {
    48 <= b <= 57 || 65 <= b <= 90 || 97 <= b <= 122 || b == 45 || b == 46 || b == 95 || b == 126
  }

  function Hex(d: nat): char
    requires d < 16
  {
    if d < 10 then (48 + d) as char else (55 + d) as char
  }

  function HexValue(c: char): Option<nat> {
    if '0' <= c <= '9' then Some(c as int - 48)
    else if 'A' <= c <= 'F' then Some(c as int - 55)
    else if 'a' <= c <= 'f' then Some(c as int - 87)
    else None
  }

  function EncodeByte(b: Byte): string {
    if Unreserved(b) then [b as char] else ['%', Hex(b / 16), Hex(b % 16)]
  }

  function PercentEncode(bytes: seq<Byte>): string {
    if bytes == [] then "" else EncodeByte(bytes[0]) + PercentEncode(bytes[1..])
  }

  function PercentDecode(s: string): Option<seq<Byte>> {
    if s == [] then Some([])
    else if s[0] == '%' then
      if |s| >= 3 && HexValue(s[1]).Some? && HexValue(s[2]).Some? then
        match PercentDecode(s[3..])
        case None => None
        case Some(rest) => Some([16 * HexValue(s[1]).value + HexValue(s[2]).value] + rest)
      else None
    else if s[0] as int >= 128 then None
    else
      match PercentDecode(s[1..])
      case None => None
      case Some(rest) => Some([s[0] as int] + rest)
  }

  lemma DecodeOneByte(b: Byte, rest: string)
    ensures PercentDecode(EncodeByte(b) + rest) == match PercentDecode(rest) case None => None case Some(r) => Some([b] + r)
  {
    var t := EncodeByte(b) + rest;
    assert t[|EncodeByte(b)|..] == rest;
  }

  /** Percent decoding inverts encoding, and an encoded text is one non-empty path segment. */
  lemma {:induction false} EncodedIsSegment(bytes: seq<Byte>)
    ensures PercentDecode(PercentEncode(bytes)) == Some(bytes)
    ensures '/' !in PercentEncode(bytes) && (bytes != [] ==> PercentEncode(bytes) != "")
  {
    if bytes != [] {
      DecodeOneByte(bytes[0], PercentEncode(bytes[1..]));
      EncodedIsSegment(bytes[1..]);
      assert bytes == [bytes[0]] + bytes[1..];
    }
  }

  predicate UpperHex(c: char) {
    '0' <= c <= '9' || 'A' <= c <= 'F'
  }

  /** Letters, digits and `-._~` stand for themselves; any other byte is a percent sign and two upper-case digits. */
  lemma EncodedByteExactly(b: Byte)
    ensures var c := b as char;
            if 'a' <= c <= 'z' || 'A' <= c <= 'Z' || '0' <= c <= '9' || c in "-._~" then EncodeByte(b) == [c]
            else |EncodeByte(b)| == 3 && EncodeByte(b)[0] == '%' && UpperHex(EncodeByte(b)[1]) && UpperHex(EncodeByte(b)[2])
  {
  }

  // ----- segments

  /** The piece before the first slash. */
  function FirstPiece(s: string): string {
    if s == [] || s[0] == '/' then "" else [s[0]] + FirstPiece(s[1..])
  }

  lemma {:induction false} FirstPieceOf(piece: string, rest: string)
    requires '/' !in piece && (rest == [] || rest[0] == '/')
    ensures FirstPiece(piece + rest) == piece
  {
    if piece == [] {
      assert piece + rest == rest;
    } else {
      assert (piece + rest)[1..] == piece[1..] + rest;
      FirstPieceOf(piece[1..], rest);
    }
  }

  lemma {:induction false} FirstPieceFits(s: string)
    ensures |FirstPiece(s)| <= |s| && (|FirstPiece(s)| < |s| ==> s[|FirstPiece(s)|] == '/')
  {
    if s != [] && s[0] != '/' {
      FirstPieceFits(s[1..]);
    }
  }

  /** The non-empty pieces between slashes. */
  function Segments(path: string): seq<string>
    decreases |path|
  {
    FirstPieceFits(path);
    var piece := FirstPiece(path);
    var here := if piece == "" then [] else [piece];
    if |piece| == |path| then here else here + Segments(path[|piece| + 1..])
  }

  predicate IsSegment(s: string) {
    s != "" && '/' !in s
  }

  function PathOf(segments: seq<string>): string {
    if segments == [] then "" else "/" + segments[0] + PathOf(segments[1..])
  }

  lemma LeadingSlash(rest: string)
    ensures Segments("/" + rest) == Segments(rest)
  {
    assert FirstPiece("/" + rest) == "" && ("/" + rest)[1..] == rest;
  }

  lemma LeadingPiece(piece: string, rest: string)
    requires IsSegment(piece)
    ensures Segments(piece + ("/" + rest)) == [piece] + Segments("/" + rest)
  {
    var path := piece + ("/" + rest);
    FirstPieceOf(piece, "/" + rest);
    assert path[|piece| + 1..] == rest;
    LeadingSlash(rest);
  }

  lemma OnlyPiece(piece: string)
    requires IsSegment(piece)
    ensures Segments(piece) == [piece]
  {
    FirstPieceOf(piece, "");
    assert piece + "" == piece;
  }

  /** What `Segments` does with the first piece. */
  lemma FirstSegment(piece: string, rest: string)
    requires '/' !in piece
    ensures Segments(piece + ("/" + rest)) == (if piece == "" then [] else [piece]) + Segments(rest)
    ensures Segments(piece) == if piece == "" then [] else [piece]
  {
    LeadingSlash(rest);
    if piece == "" {
      assert piece + ("/" + rest) == "/" + rest;
    } else {
      LeadingPiece(piece, rest);
      OnlyPiece(piece);
    }
  }

  /** A slash separates, wherever it stands: at the ends and next to another one it adds nothing. */
  lemma {:induction false} SegmentsSplit(a: string, b: string)
    ensures Segments(a + ("/" + b)) == Segments(a) + Segments(b)
    decreases |a|
  {
    var piece := FirstPiece(a);
    FirstPieceFits(a);
    FirstPieceIsFree(a);
    if |piece| == |a| {
      assert a == piece;
      FirstSegment(piece, b);
    } else {
      var rest := a[|piece| + 1..];
      assert a == piece + ("/" + rest);
      Reassociate(piece, rest, b);
      FirstSegment(piece, rest);
      FirstSegment(piece, rest + ("/" + b));
      SegmentsSplit(rest, b);
      var head := if piece == "" then [] else [piece];
      assert (head + Segments(rest)) + Segments(b) == head + (Segments(rest) + Segments(b));
    }
  }

  lemma Reassociate(piece: string, rest: string, b: string)
    ensures (piece + ("/" + rest)) + ("/" + b) == piece + ("/" + (rest + ("/" + b)))
  {
  }

  lemma {:induction false} FirstPieceIsFree(s: string)
    ensures '/' !in FirstPiece(s) && FirstPiece(s) <= s
  {
    if s != [] && s[0] != '/' {
      FirstPieceIsFree(s[1..]);
    }
  }

  lemma {:induction false} SegmentsOfPath(segments: seq<string>)
    requires forall s :: s in segments ==> IsSegment(s)
    ensures Segments(PathOf(segments)) == segments
  {
    if segments != [] {
      assert segments[0] in segments;
      SegmentsOfPath(segments[1..]);
      PrependSegment(segments[0], segments[1..]);
      assert segments == [segments[0]] + segments[1..];
    }
  }

  lemma PrependSegment(head: string, tail: seq<string>)
    requires IsSegment(head)
    ensures Segments(PathOf([head] + tail)) == [head] + Segments(PathOf(tail))
  {
    assert ([head] + tail)[1..] == tail;
    assert PathOf([head] + tail) == "/" + (head + PathOf(tail));
    LeadingSlash(head + PathOf(tail));
    if tail == [] {
      OnlyPiece(head);
      assert head + PathOf(tail) == head;
      assert Segments("") == [];
    } else {
      var rest := tail[0] + PathOf(tail[1..]);
      assert PathOf(tail) == "/" + rest;
      LeadingPiece(head, rest);
    }
  }

  // ----- recognising

  predicate MatchesAt(segments: seq<string>, i: nat) {
    i + 4 <= |segments| && segments[i] == "channels" && segments[i + 2] == "messages"
  }

  function FirstWindow(segments: seq<string>, from: nat): Option<(string, string)>
    decreases |segments| - from
  {
    if from + 4 > |segments| then None
    else if MatchesAt(segments, from) then Some((segments[from + 1], segments[from + 3]))
    else FirstWindow(segments, from + 1)
  }

  /** `parse_message_path`: the four-segment form, else the first of all windows. */
  function ParseMessagePath(path: string): Option<(string, string)> {
    var segments := Segments(path);
    if |segments| == 4 && MatchesAt(segments, 0) then Some((segments[1], segments[3]))
    else FirstWindow(segments, 0)
  }

  lemma {:induction false} FirstWindowExact(segments: seq<string>, from: nat, i: nat)
    requires from <= i && MatchesAt(segments, i)
    requires forall j :: from <= j < i ==> !MatchesAt(segments, j)
    ensures FirstWindow(segments, from) == Some((segments[i + 1], segments[i + 3]))
    decreases i - from
  {
    if from < i {
      FirstWindowExact(segments, from + 1, i);
    }
  }

  lemma {:induction false} NoWindow(segments: seq<string>, from: nat)
    requires forall j :: from <= j < |segments| ==> !MatchesAt(segments, j)
    ensures FirstWindow(segments, from) == None
    decreases |segments| - from
  {
    if from + 4 <= |segments| {
      NoWindow(segments, from + 1);
    }
  }

  /** A path is recognised exactly when some window matches, and the first one decides. */
  lemma ParsesExactly(segments: seq<string>)
    requires forall s :: s in segments ==> IsSegment(s)
    ensures ParseMessagePath(PathOf(segments)).None? <==> forall i: nat :: !MatchesAt(segments, i)
    ensures forall i: nat :: MatchesAt(segments, i) && (forall j :: 0 <= j < i ==> !MatchesAt(segments, j)) ==>
                               ParseMessagePath(PathOf(segments)) == Some((segments[i + 1], segments[i + 3]))
  {
    SegmentsOfPath(segments);
    forall i: nat | MatchesAt(segments, i) && (forall j :: 0 <= j < i ==> !MatchesAt(segments, j))
      ensures ParseMessagePath(PathOf(segments)) == Some((segments[i + 1], segments[i + 3]))
    {
      FirstWindowExact(segments, 0, i);
    }
    if exists i: nat :: MatchesAt(segments, i) {
      var i: nat :| MatchesAt(segments, i);
      var first := FirstMatch(segments, i);
    } else {
      NoWindow(segments, 0);
    }
  }

  lemma {:induction false} FirstMatch(segments: seq<string>, i: nat) returns (first: nat)
    requires MatchesAt(segments, i)
    ensures MatchesAt(segments, first) && forall j :: 0 <= j < first ==> !MatchesAt(segments, j)
  {
    if j: nat :| j < i && MatchesAt(segments, j) {
      first := FirstMatch(segments, j);
    } else {
      first := i;
    }
  }

  // ----- building and recognising

  function TrimSlashes(s: string): string {
    if s != [] && s[0] == '/' then TrimSlashes(s[1..])
    else if s != [] && s[|s| - 1] == '/' then TrimSlashes(s[..|s| - 1])
    else s
  }

  predicate AllSlashes(s: string) {
    forall i :: 0 <= i < |s| ==> s[i] == '/'
  }

  /** No slash at either end. */
  predicate Bare(s: string) {
    s != [] ==> s[0] != '/' && s[|s| - 1] != '/'
  }

  lemma {:induction false} TrimSlashesSplits(s: string) returns (pre: string, post: string)
    ensures AllSlashes(pre) && AllSlashes(post) && Bare(TrimSlashes(s)) && s == pre + TrimSlashes(s) + post
    decreases |s|
  {
    if s != [] && s[0] == '/' {
      pre, post := TrimSlashesSplits(s[1..]);
      pre := "/" + pre;
      assert s == "/" + s[1..];
    } else if s != [] && s[|s| - 1] == '/' {
      pre, post := TrimSlashesSplits(s[..|s| - 1]);
      post := post + "/";
      assert s == s[..|s| - 1] + "/";
    } else {
      pre, post := "", "";
      assert s == "" + s + "";
    }
  }

  lemma {:induction false} SlashesAreTrimmed(pre: string, s: string, post: string)
    requires AllSlashes(pre) && AllSlashes(post) && Bare(s)
    ensures TrimSlashes(pre + s + post) == s
    decreases |pre| + |post|
  {
    var t := pre + s + post;
    if pre != [] {
      assert t[1..] == pre[1..] + s + post;
      SlashesAreTrimmed(pre[1..], s, post);
    } else if post == [] {
      assert t == s;
    } else if s == [] {
      assert t == post + [] + [] && t[1..] == [] + s + post[1..];
      SlashesAreTrimmed([], s, post[1..]);
    } else {
      assert t[..|t| - 1] == [] + s + post[..|post| - 1];
      SlashesAreTrimmed([], s, post[..|post| - 1]);
    }
  }

  /** `TrimSlashes` undoes padding with slashes, and nothing else. */
  lemma TrimSlashesExactly(s: string, bare: string)
    ensures TrimSlashes(s) == bare <==>
            Bare(bare) && exists pre, post :: AllSlashes(pre) && AllSlashes(post) && s == pre + bare + post
  {
    var a, b := TrimSlashesSplits(s);
    if Bare(bare) && exists pre, post :: AllSlashes(pre) && AllSlashes(post) && s == pre + bare + post {
      var pre, post :| AllSlashes(pre) && AllSlashes(post) && s == pre + bare + post;
      SlashesAreTrimmed(pre, bare, post);
    }
  }

  /** The segments of the request path of an edit or a delete; nothing if a part is missing. */
  function MessageSegments(channel: string, messageId: string): Option<seq<string>> {
    var c := TrimSlashes(Trim(channel));
    if c == "" || messageId == "" then None
    else Some(["channels", PercentEncode(Utf8.Encode(c)), "messages", PercentEncode(Utf8.Encode(messageId))])
  }

  lemma FixedSegments()
    ensures IsSegment("channels") && IsSegment("messages")
  {
  }

  lemma MessageSegmentsAreSegments(channel: string, messageId: string)
    requires MessageSegments(channel, messageId).Some?
    ensures forall s :: s in MessageSegments(channel, messageId).value ==> IsSegment(s)
  {
    var c, id := Utf8.Encode(TrimSlashes(Trim(channel))), Utf8.Encode(messageId);
    EncodedIsSegment(c);
    EncodedIsSegment(id);
    FixedSegments();
    assert IsSegment(PercentEncode(c)) && IsSegment(PercentEncode(id));
  }

  /** Whitespace and then slashes around a channel make no difference to the path; without a channel or an id there is none. */
  lemma PaddedChannel(channel: string, messageId: string, pre: string, a: string, b: string, post: string)
    requires Bare(channel) && Trimmed(a + channel + b) && AllSlashes(a) && AllSlashes(b) && Blank(pre) && Blank(post)
    ensures MessageSegments(pre + (a + channel + b) + post, messageId) ==
            if channel == "" || messageId == "" then None
            else Some(["channels", PercentEncode(Utf8.Encode(channel)), "messages", PercentEncode(Utf8.Encode(messageId))])
  {
    TrimPadding(pre, a + channel + b, post);
    SlashesAreTrimmed(a, channel, b);
  }

  // ----- joining to the base URL

  /** Dot segments (RFC 3986, section 5.2.4), in the percent-encoded spellings too. */
  predicate SingleDot(s: string) {
    s == "." || s == "%2e" || s == "%2E"
  }

  predicate DoubleDot(s: string) {
    |s| >= 2 && ((s[0] == '.' && SingleDot(s[1..])) || (|s| >= 4 && SingleDot(s[..3]) && SingleDot(s[3..])))
  }

  /** What `Url::join` leaves of the segments of a path joined to a base URL without one: a single dot is dropped,
      a double dot takes the segment before it along. (A slash left at the end does not matter to recognition.) */
  function Joined(segments: seq<string>): (r: seq<string>)
    ensures |r| <= |segments| && forall i :: 0 <= i < |r| ==> r[i] in segments
  {
    if segments == [] then []
    else
      var last := segments[|segments| - 1];
      var r := Joined(segments[..|segments| - 1]);
      if SingleDot(last) then r
      else if DoubleDot(last) then if r == [] then [] else r[..|r| - 1]
      else r + [last]
  }

  lemma {:induction false} JoinedExact(segments: seq<string>)
    ensures if exists s :: s in segments && (SingleDot(s) || DoubleDot(s)) then |Joined(segments)| < |segments|
            else Joined(segments) == segments
  {
    if segments != [] {
      var init, last := segments[..|segments| - 1], segments[|segments| - 1];
      assert segments == init + [last];
      JoinedExact(init);
    }
  }

  predicate Plain(s: string) {
    !SingleDot(s) && !DoubleDot(s)
  }

  /** What the segments `more` leave when they follow others that left `r`. */
  function Continued(r: seq<string>, more: seq<string>): seq<string>
    decreases |more|
  {
    if more == [] then r
    else
      var s, rest := more[0], more[1..];
      if SingleDot(s) then Continued(r, rest)
      else if DoubleDot(s) then Continued(if r == [] then [] else r[..|r| - 1], rest)
      else Continued(r + [s], rest)
  }

  lemma JoinedOne(before: seq<string>, s: string)
    ensures Joined(before + [s]) == Continued(Joined(before), [s])
  {
    assert (before + [s])[..|before|] == before && [s][1..] == [];
  }

  lemma {:induction false} JoinedContinues(before: seq<string>, more: seq<string>)
    ensures Joined(before + more) == Continued(Joined(before), more)
    decreases |more|
  {
    if more == [] {
      assert before + more == before;
    } else {
      var s, rest := more[0], more[1..];
      assert before + more == (before + [s]) + rest && [s][1..] == [];
      JoinedOne(before, s);
      JoinedContinues(before + [s], rest);
    }
  }

  lemma DoubleIsNotSingle(dots: string)
    requires DoubleDot(dots)
    ensures !SingleDot(dots)
  {
    if dots[0] == '.' && SingleDot(dots[1..]) {
      assert |dots| != 1;
    }
  }

  /** A double dot undoes the plain segment before it, and has nothing to undo at the start. */
  lemma JoinedUndoes(before: seq<string>, s: string, dots: string, after: seq<string>)
    requires Plain(s) && DoubleDot(dots)
    ensures Joined(before + ([s, dots] + after)) == Joined(before + after)
    ensures Joined([dots] + after) == Joined(after)
  {
    DoubleIsNotSingle(dots);
    var r := Joined(before);
    JoinedContinues(before, [s, dots] + after);
    JoinedContinues(before, after);
    JoinedContinues([], [dots] + after);
    JoinedContinues([], after);
    assert ([s, dots] + after)[1..] == [dots] + after && ([dots] + after)[1..] == after;
    assert (r + [s])[..|r|] == r;
    assert [] + ([dots] + after) == [dots] + after && [] + after == after;
  }

  predicate Dots(s: string) {
    s == "." || s == ".."
  }

  lemma DotDecodes(dot: string, rest: string)
    requires SingleDot(dot)
    ensures PercentDecode(dot + rest) == match PercentDecode(rest) case None => None case Some(r) => Some([46] + r)
  {
    var t := dot + rest;
    assert t[|dot|..] == rest;
    if dot == "." {
      assert t[0] == '.';
    } else {
      assert t[0] == '%' && t[1] == '2' && (t[2] == 'e' || t[2] == 'E');
      assert HexValue(t[1]) == Some(2) && HexValue(t[2]) == Some(14);
    }
  }

  lemma DoubleDotDecodes(e: string)
    requires DoubleDot(e)
    ensures PercentDecode(e) == Some([46, 46])
  {
    var k := if e[0] == '.' && SingleDot(e[1..]) then 1 else 3;
    assert e[..1] == [e[0]];
    DotDecodes(e[..k], e[k..]);
    DotDecodes(e[k..], "");
    assert e[k..] + "" == e[k..] && e[..k] + e[k..] == e;
    assert PercentDecode("") == Some([]);
    assert [46] + [] == [46] && [46] + [46] == [46, 46];
  }

  lemma DotsOf(n: nat)
    requires n < 2
    ensures var text := if n == 0 then "." else "..";
            Utf8.Encode(text) == (if n == 0 then [46] else [46, 46]) && PercentEncode(Utf8.Encode(text)) == text
  {
    Utf8.EncodeCons('.', "");
    Utf8.EncodeCons('.', ".");
    assert ['.'] + "." == ".." && PercentEncode([]) == "";
    assert [46] + [46] == [46, 46] && [46, 46][1..] == [46];
  }

  /** An encoded text is a dot segment exactly when the text is. */
  lemma EncodedDots(text: string)
    ensures var e := PercentEncode(Utf8.Encode(text)); SingleDot(e) || DoubleDot(e) <==> Dots(text)
  {
    var bytes := Utf8.Encode(text);
    var e := PercentEncode(bytes);
    EncodedIsSegment(bytes);
    DotsOf(0);
    DotsOf(1);
    if SingleDot(e) {
      DotDecodes(e, "");
      assert e + "" == e;
      Utf8.EncodeInjective(text, ".");
    } else if DoubleDot(e) {
      DoubleDotDecodes(e);
      Utf8.EncodeInjective(text, "..");
    }
  }

  lemma JoinedMessage(channel: string, id: string)
    ensures var segments := ["channels", channel, "messages", id];
            if SingleDot(channel) || DoubleDot(channel) || SingleDot(id) || DoubleDot(id) then |Joined(segments)| < 4
            else Joined(segments) == segments
  {
    var segments := ["channels", channel, "messages", id];
    JoinedExact(segments);
    assert "channels"[0] == 'c' && "messages"[0] == 'm';
    assert segments[1] in segments && segments[3] in segments;
  }

  /** A built path that has been joined to the base URL is recognised exactly when neither part is a dot
      segment, and then decodes to the channel and the message id it was built from. */
  lemma BuiltPathIsRecognised(channel: string, messageId: string)
    requires MessageSegments(channel, messageId).Some?
    ensures var c := TrimSlashes(Trim(channel));
            var r := ParseMessagePath(PathOf(Joined(MessageSegments(channel, messageId).value)));
            && (r.Some? <==> !Dots(c) && !Dots(messageId))
            && (r.Some? ==> PercentDecode(r.value.0) == Some(Utf8.Encode(c))
                            && PercentDecode(r.value.1) == Some(Utf8.Encode(messageId)))
  {
    var c := TrimSlashes(Trim(channel));
    var segments := MessageSegments(channel, messageId).value;
    MessageSegmentsAreSegments(channel, messageId);
    EncodedDots(c);
    EncodedDots(messageId);
    JoinedMessage(segments[1], segments[3]);
    ParsesExactly(Joined(segments));
    if Joined(segments) == segments {
      assert MatchesAt(segments, 0);
      EncodedIsSegment(Utf8.Encode(c));
      EncodedIsSegment(Utf8.Encode(messageId));
    }
  }

  predicate Misleads(prefix: seq<string>, channel: string) {
    || (exists i :: 0 <= i && i + 2 < |prefix| && prefix[i] == "channels" && prefix[i + 2] == "messages")
    || (prefix != [] && prefix[|prefix| - 1] == "channels" && channel == "messages")
  }

  /** Under a base path, every message of a channel is recognised exactly when no window of the base path
      matches first, and the base path does not end in `channels` before a channel called `messages`. */
  lemma PrefixedPathExactlyWhen(prefix: seq<string>, channel: string)
    requires IsSegment(channel) && forall s :: s in prefix ==> IsSegment(s)
    ensures (forall id :: IsSegment(id) ==>
               ParseMessagePath(PathOf(prefix + ["channels", channel, "messages", id])) == Some((channel, id)))
            <==> !Misleads(prefix, channel)
  {
    if Misleads(prefix, channel) {
      PrefixMisleads(prefix, channel, "x");
      PrefixMisleads(prefix, channel, "y");
      assert IsSegment("x") && IsSegment("y");
    } else {
      forall id | IsSegment(id)
        ensures ParseMessagePath(PathOf(prefix + ["channels", channel, "messages", id])) == Some((channel, id))
      {
        PrefixIsHarmless(prefix, channel, id);
      }
    }
  }

  function FirstLeft(prefix: seq<string>, channel: string): Option<(string, string)> {
    FirstWindow(prefix + ["channels", channel, "messages"], 0)
  }

  lemma PrefixIsHarmless(prefix: seq<string>, channel: string, id: string)
    requires IsSegment(channel) && IsSegment(id) && (forall s :: s in prefix ==> IsSegment(s))
    requires !Misleads(prefix, channel)
    ensures ParseMessagePath(PathOf(prefix + ["channels", channel, "messages", id])) == Some((channel, id))
  {
    var tail := ["channels", channel, "messages", id];
    var whole := prefix + tail;
    var n := |prefix|;
    assert IsSegment("channels") && IsSegment("messages");
    assert MatchesAt(whole, n);
    assert "channels"[0] == 'c' && "messages"[0] == 'm';
    forall j | 0 <= j < n
      ensures !MatchesAt(whole, j)
    {
      assert whole[j] == prefix[j];
      if j + 2 < n {
        assert whole[j + 2] == prefix[j + 2];
      }
    }
    ParsesExactly(whole);
  }

  /** A misleading prefix makes the result independent of the message. */
  lemma PrefixMisleads(prefix: seq<string>, channel: string, id: string)
    requires IsSegment(channel) && IsSegment(id) && (forall s :: s in prefix ==> IsSegment(s))
    requires Misleads(prefix, channel)
    ensures ParseMessagePath(PathOf(prefix + ["channels", channel, "messages", id])) == FirstLeft(prefix, channel)
  {
    var whole := prefix + ["channels", channel, "messages", id];
    var short := prefix + ["channels", channel, "messages"];
    assert IsSegment("channels") && IsSegment("messages");
    assert forall k :: 0 <= k < |short| ==> whole[k] == short[k];
    var i: nat;
    if k: nat :| k + 2 < |prefix| && prefix[k] == "channels" && prefix[k + 2] == "messages" {
      i := k;
    } else {
      i := |prefix| - 1;
    }
    assert MatchesAt(short, i);
    var first := FirstMatch(short, i);
    forall j | 0 <= j < first
      ensures !MatchesAt(whole, j)
    {
      assert j + 4 <= |short| && !MatchesAt(short, j);
      assert whole[j] == short[j] && whole[j + 2] == short[j + 2];
    }
    ParsesExactly(whole);
    assert MatchesAt(whole, first);
    FirstWindowExact(short, 0, first);
  }

  /** A base path that holds a window of its own hides every message behind it. */
  lemma BasePathCanMislead()
    ensures ParseMessagePath(PathOf(["channels", "x", "messages"] + ["channels", "general", "messages", "7"]))
            == Some(("x", "channels"))
  {
    var whole := ["channels", "x", "messages"] + ["channels", "general", "messages", "7"];
    assert forall i :: 0 <= i < |whole| ==> whole[i] in ["channels", "x", "messages", "general", "7"];
    assert IsSegment("channels") && IsSegment("x") && IsSegment("messages") && IsSegment("general") && IsSegment("7");
    ParsesExactly(whole);
    assert MatchesAt(whole, 0);
  }
}
