/** The locale files: what `writeLocale` emits, and reading the key/value list back. */
module LocaleFile {
  import opened Prelude
  import opened JsLiteral
  import opened Surrogates

  type Messages = map<JsText, JsText>

  datatype Entry = Entry(key: JsText, value: JsText)

  predicate OneLine(t: JsText) {
    forall i :: 0 <= i < |t| ==> !IsLineTerminator(t[i])
  }

  const SLASH: CodeUnit := 47

  predicate EndsInSlash(t: JsText) {
    t != [] && t[|t| - 1] == SLASH
  }

  /** The fixed texts of a locale file. The layout and the reader are stated over any such frame. */
  datatype Frame = Frame(importLine: JsText, titlePrefix: JsText, titleSuffix: JsText, note: JsText, opening: JsText,
                         closing: JsText, footer: JsText)
  {
    function Head(): JsText {
      importLine + ([LF] + ([LF] + titlePrefix))
    }

    function Middle(): JsText {
      [LF] + (note + ([LF] + (opening + [LF])))
    }

    function Tail(): JsText {
      closing + ([LF] + ([LF] + (footer + [LF])))
    }

    /** Texts without surrogates, each on one line; a title line that ends in a slash, as no later line does;
        and a closing line that is not indented. */
    predicate Valid() {
      && NoSurrogates(importLine) && NoSurrogates(titlePrefix) && NoSurrogates(titleSuffix) && NoSurrogates(note)
      && NoSurrogates(opening) && NoSurrogates(closing) && NoSurrogates(footer)
      && OneLine(titleSuffix) && OneLine(note) && OneLine(opening) && OneLine(closing) && OneLine(footer)
      && EndsInSlash(titleSuffix) && !EndsInSlash(note) && !EndsInSlash(opening) && !EndsInSlash(closing) && !EndsInSlash(footer)
      && closing != [] && closing[0] != 32
    }
  }

  const INDENT: JsText := [32, 32]
  const COLON: JsText := [58, 32]
  const COMMA: JsText := [44]
  const COMMA_LF: JsText := [44, 10]

  // ----- the text

  function EntryThen(e: Entry, rest: JsText): JsText {
    INDENT + (JsString(e.key) + (COLON + (JsString(e.value) + (COMMA_LF + rest))))
  }

  function EntriesThen(entries: seq<Entry>, rest: JsText): JsText {
    if entries == [] then rest else EntryThen(entries[0], EntriesThen(entries[1..], rest))
  }

  /** Header, one line per entry, trailer. */
  function LocaleText(f: Frame, title: JsText, entries: seq<Entry>): JsText {
    f.Head() + (title + (f.titleSuffix + (f.Middle() + EntriesThen(entries, f.Tail()))))
  }

  // ----- writing

  /** The keys that have a value, in the given order. */
  function Entries(keys: seq<JsText>, values: Messages): seq<Entry> {
    if keys == [] then []
    else (if keys[0] in values then [Entry(keys[0], values[keys[0]])] else []) + Entries(keys[1..], values)
  }

  function EntryLine(e: Entry): JsText {
    INDENT + JsString(e.key) + COLON + JsString(e.value) + COMMA
  }

  function EntryLines(entries: seq<Entry>): (r: seq<JsText>)
    ensures |r| == |entries| && forall i :: 0 <= i < |r| ==> r[i] == EntryLine(entries[i])
  {
    if entries == [] then [] else [EntryLine(entries[0])] + EntryLines(entries[1..])
  }

  lemma EntryLinesAppend(entries: seq<Entry>, e: Entry)
    ensures EntryLines(entries + [e]) == EntryLines(entries) + [EntryLine(e)]
  {
    var line := EntryLine(e);
    assert forall i :: 0 <= i < |entries| ==> EntryLines(entries + [e])[i] == EntryLines(entries)[i];
    assert EntryLines(entries + [e])[|entries|] == line;
  }

  function Join(lines: seq<JsText>): JsText {
    if lines == [] then [] else if |lines| == 1 then lines[0] else lines[0] + ([LF] + Join(lines[1..]))
  }

  lemma JoinCons(line: JsText, lines: seq<JsText>)
    requires lines != []
    ensures Join([line] + lines) == line + ([LF] + Join(lines))
  {
    assert ([line] + lines)[1..] == lines;
  }

  lemma Regroup(a: JsText, b: JsText, c: JsText, d: JsText, rest: JsText)
    ensures a + b + c + d + COMMA + ([LF] + rest) == a + (b + (c + (d + (COMMA_LF + rest))))
  {
    assert COMMA + ([LF] + rest) == COMMA_LF + rest;
    assert a + b + c + d + COMMA + ([LF] + rest) == a + b + c + d + (COMMA + ([LF] + rest));
    assert a + b + c + d + (COMMA_LF + rest) == a + b + c + (d + (COMMA_LF + rest));
    assert a + b + c + (d + (COMMA_LF + rest)) == a + b + (c + (d + (COMMA_LF + rest)));
    assert a + b + (c + (d + (COMMA_LF + rest))) == a + (b + (c + (d + (COMMA_LF + rest))));
  }

  lemma {:induction false} JoinEntries(entries: seq<Entry>, lines: seq<JsText>)
    requires lines != []
    ensures Join(EntryLines(entries) + lines) == EntriesThen(entries, Join(lines))
  {
    if entries == [] {
      assert EntryLines(entries) + lines == lines;
    } else {
      var e, rest := entries[0], EntryLines(entries[1..]) + lines;
      assert EntryLines(entries) + lines == [EntryLine(e)] + rest;
      JoinCons(EntryLine(e), rest);
      Regroup(INDENT, JsString(e.key), COLON, JsString(e.value), Join(rest));
      JoinEntries(entries[1..], lines);
    }
  }

  lemma JoinTwo(a: JsText, b: JsText, lines: seq<JsText>)
    requires lines != []
    ensures Join([a, b] + lines) == a + ([LF] + (b + ([LF] + Join(lines))))
  {
    JoinCons(b, lines);
    JoinCons(a, [b] + lines);
    assert [a, b] + lines == [a] + ([b] + lines);
  }

  lemma FiveLines<T>(a: T, b: T, c: T, d: T, e: T, rest: seq<T>)
    ensures [a, b, c, d, e] + rest == [a, b] + ([c] + ([d, e] + rest))
  {
  }

  lemma EmptyPrefix(t: JsText)
    ensures [] + t == t && t + [] == t
  {
  }

  lemma JoinHeader(a: JsText, c: JsText, d: JsText, e: JsText, lines: seq<JsText>)
    requires lines != []
    ensures Join([a, [], c, d, e] + lines) == a + ([LF] + ([LF] + (c + ([LF] + (d + ([LF] + (e + ([LF] + Join(lines)))))))))
  {
    FiveLines(a, [], c, d, e, lines);
    JoinTwo(d, e, lines);
    var last := [d, e] + lines;
    JoinCons(c, last);
    var rest := [c] + last;
    JoinTwo(a, [], rest);
    EmptyPrefix([LF] + Join(rest));
  }

  lemma JoinTrailer(closing: JsText, footer: JsText)
    ensures Join([closing, [], footer, []]) == closing + ([LF] + ([LF] + (footer + [LF])))
  {
    JoinCons(footer, [[]]);
    JoinCons([], [footer] + [[]]);
    JoinCons(closing, [[]] + ([footer] + [[]]));
    assert [closing, [], footer, []] == [closing] + ([[]] + ([footer] + [[]]));
    assert [LF] + [] == [LF];
    var t := [LF] + (footer + [LF]);
    assert [] + t == t;
  }

  lemma RegroupHeader(a: JsText, p: JsText, title: JsText, s: JsText, d: JsText, e: JsText, rest: JsText)
    ensures a + ([LF] + ([LF] + ((p + title + s) + ([LF] + (d + ([LF] + (e + ([LF] + rest)))))))) ==
            (a + ([LF] + ([LF] + p))) + (title + (s + (([LF] + (d + ([LF] + (e + [LF])))) + rest)))
  {
    var m := [LF] + (d + ([LF] + (e + ([LF] + rest))));
    assert m == ([LF] + (d + ([LF] + (e + [LF])))) + rest by {
      assert e + ([LF] + rest) == (e + [LF]) + rest;
      assert [LF] + ((e + [LF]) + rest) == ([LF] + (e + [LF])) + rest;
      assert d + (([LF] + (e + [LF])) + rest) == (d + ([LF] + (e + [LF]))) + rest;
    }
    assert (p + title + s) + m == p + (title + (s + m));
    assert [LF] + (p + (title + (s + m))) == ([LF] + p) + (title + (s + m));
    assert [LF] + (([LF] + p) + (title + (s + m))) == ([LF] + ([LF] + p)) + (title + (s + m));
    assert a + (([LF] + ([LF] + p)) + (title + (s + m))) == (a + ([LF] + ([LF] + p))) + (title + (s + m));
  }

  lemma JoinedLinesAreTheText(f: Frame, title: JsText, entries: seq<Entry>)
    ensures Join([f.importLine, [], f.titlePrefix + title + f.titleSuffix, f.note, f.opening]
                 + (EntryLines(entries) + [f.closing, [], f.footer, []])) == LocaleText(f, title, entries)
  {
    var lines := EntryLines(entries) + [f.closing, [], f.footer, []];
    JoinHeader(f.importLine, f.titlePrefix + title + f.titleSuffix, f.note, f.opening, lines);
    JoinTrailer(f.closing, f.footer);
    JoinEntries(entries, [f.closing, [], f.footer, []]);
    RegroupHeader(f.importLine, f.titlePrefix, title, f.titleSuffix, f.note, f.opening, Join(lines));
  }

  lemma {:induction false} EntriesAppend(keys: seq<JsText>, values: Messages, i: nat)
    requires i < |keys|
    ensures Entries(keys[..i + 1], values) ==
            Entries(keys[..i], values) + if keys[i] in values then [Entry(keys[i], values[keys[i]])] else []
  {
    if i == 0 {
      assert keys[..1][1..] == [];
    } else {
      assert keys[..i + 1][1..] == keys[1..][..i] && keys[..i][1..] == keys[1..][..i - 1];
      EntriesAppend(keys[1..], values, i - 1);
    }
  }

  method PushEntries(keys: seq<JsText>, values: Messages, before: seq<JsText>) returns (lines: seq<JsText>)
    ensures lines == before + EntryLines(Entries(keys, values))
  {
    lines := before;
    for i := 0 to |keys|
      invariant lines == before + EntryLines(Entries(keys[..i], values))
    {
      var k := keys[i];
      EntriesAppend(keys, values, i);
      if k in values {
        EntryLinesAppend(Entries(keys[..i], values), Entry(k, values[k]));
        lines := lines + [EntryLine(Entry(k, values[k]))];
      }
    }
    assert keys[..|keys|] == keys;
  }

  /** Pushes the lines one by one and joins them; the text is the header, one line per valued key
      in order, and the trailer. */
  method WriteLocale(f: Frame, title: JsText, keys: seq<JsText>, values: Messages) returns (text: JsText)
    ensures text == LocaleText(f, title, Entries(keys, values))
  {
    var header := [f.importLine, [], f.titlePrefix + title + f.titleSuffix, f.note, f.opening];
    var lines := PushEntries(keys, values, header);
    ghost var entries := Entries(keys, values);
    var trailer := [f.closing, [], f.footer, []];
    JoinedLinesAreTheText(f, title, entries);
    assert (header + EntryLines(entries)) + trailer == header + (EntryLines(entries) + trailer);
    lines := lines + trailer;
    text := Join(lines);
  }

  // ----- reading

  function Strip(prefix: JsText, t: JsText): (r: Option<JsText>)
    ensures r.Some? ==> |r.value| == |t| - |prefix|
  {
    if prefix <= t then Some(t[|prefix|..]) else None
  }

  /** What follows a comment: its end is the first line terminator, whichever it is. */
  function SkipComment(t: JsText): JsText {
    if t == [] || IsLineTerminator(t[0]) then t else SkipComment(t[1..])
  }

  function ReadEntry(t: JsText): (r: Option<(Entry, JsText)>)
    ensures r.Some? ==> |r.value.1| < |t|
  {
    match Strip(INDENT, t)
    case None => None
    case Some(t1) =>
      match ReadLiteral(t1)
      case None => None
      case Some(key) =>
        match Strip(COLON, key.1)
        case None => None
        case Some(t2) =>
          match ReadLiteral(t2)
          case None => None
          case Some(value) =>
            match Strip(COMMA_LF, value.1)
            case None => None
            case Some(rest) => Some((Entry(key.0, value.0), rest))
  }

  function ReadEntries(f: Frame, t: JsText): Option<seq<Entry>>
    decreases |t|
  {
    if t == f.Tail() then Some([])
    else
      match ReadEntry(t)
      case None => None
      case Some(head) =>
        match ReadEntries(f, head.1)
        case None => None
        case Some(tail) => Some([head.0] + tail)
  }

  /** Splits a locale file back into its key/value list. */
  function ReadLocale(f: Frame, t: JsText): Option<seq<Entry>> {
    match Strip(f.Head(), t)
    case None => None
    case Some(t1) =>
      match Strip(f.Middle(), SkipComment(t1))
      case None => None
      case Some(t2) => ReadEntries(f, t2)
  }

  // ----- the round trip

  lemma {:induction false} SkipsToTerminator(comment: JsText, rest: JsText)
    requires OneLine(comment) && rest != [] && IsLineTerminator(rest[0])
    ensures SkipComment(comment + rest) == rest
  {
    if comment == [] {
      assert comment + rest == rest;
    } else {
      assert (comment + rest)[1..] == comment[1..] + rest;
      SkipsToTerminator(comment[1..], rest);
    }
  }

  lemma StripPrefix(prefix: JsText, rest: JsText)
    ensures Strip(prefix, prefix + rest) == Some(rest)
  {
    assert (prefix + rest)[|prefix|..] == rest;
  }

  lemma EntryReadsBack(e: Entry, rest: JsText)
    ensures ReadEntry(EntryThen(e, rest)) == Some((e, rest))
  {
    var t5 := COMMA_LF + rest;
    var t4 := JsString(e.value) + t5;
    var t3 := COLON + t4;
    var t2 := JsString(e.key) + t3;
    StripPrefix(INDENT, t2);
    LiteralRoundTrip(e.key, t3);
    StripPrefix(COLON, t4);
    LiteralRoundTrip(e.value, t5);
    StripPrefix(COMMA_LF, rest);
  }

  lemma {:induction false} EntriesReadBack(f: Frame, entries: seq<Entry>)
    requires f.Valid()
    ensures ReadEntries(f, EntriesThen(entries, f.Tail())) == Some(entries)
  {
    if entries != [] {
      var e, rest := entries[0], EntriesThen(entries[1..], f.Tail());
      assert EntryThen(e, rest)[0] == 32 && f.Tail()[0] == f.closing[0];
      EntryReadsBack(e, rest);
      EntriesReadBack(f, entries[1..]);
      assert entries == [e] + entries[1..];
    }
  }

  /** No slash stands before a line feed. */
  predicate NoSlashBreak(t: JsText) {
    forall i :: 0 <= i < |t| - 1 ==> t[i] != SLASH || t[i + 1] != LF
  }

  lemma LineHasNoSlashBreak(line: JsText, rest: JsText)
    requires OneLine(line) && !EndsInSlash(line) && NoSlashBreak(rest)
    ensures NoSlashBreak(line + ([LF] + rest))
  {
  }

  lemma NoSlashBreakAfter(head: JsText, rest: JsText)
    requires NoSlashBreak(rest) && NoSlashBreak(head)
    requires head == [] || head[|head| - 1] != SLASH || rest == [] || rest[0] != LF
    ensures NoSlashBreak(head + rest)
  {
  }

  lemma FrameHasNoSlashBreak(f: Frame)
    requires f.Valid()
    ensures NoSlashBreak(f.Middle()) && NoSlashBreak(f.Tail())
  {
    LineHasNoSlashBreak(f.opening, []);
    LineHasNoSlashBreak(f.note, f.opening + ([LF] + []));
    LineHasNoSlashBreak([], f.note + ([LF] + (f.opening + ([LF] + []))));
    assert [LF] + [] == [LF];
    EmptyPrefix(f.Middle());
    LineHasNoSlashBreak(f.footer, []);
    LineHasNoSlashBreak([], f.footer + ([LF] + []));
    EmptyPrefix([LF] + (f.footer + [LF]));
    LineHasNoSlashBreak(f.closing, [LF] + (f.footer + [LF]));
  }

  lemma {:induction false} HexDigitsOnly(t: JsText)
    requires HexNumber(t).Some?
    ensures LF !in t
  {
    if t != [] {
      HexDigitsOnly(t[..|t| - 1]);
      assert t == t[..|t| - 1] + [t[|t| - 1]];
    }
  }

  lemma EscapeHasNoSlashBreak(t: JsText)
    requires ReadEscape(t).Some?
    requires var rest := ReadEscape(t).value.1; NoSlashBreak(rest) && rest != [] && rest[0] != LF
    ensures NoSlashBreak(t)
  {
    var rest := ReadEscape(t).value.1;
    var used := t[..|t| - |rest|];
    if t[0] == 120 && !IsLineTerminator(t[0]) {
      HexDigitsOnly(t[1..][..2]);
    } else if t[0] == 117 {
      HexDigitsOnly(t[1..][..4]);
    }
    assert t == used + rest;
    assert NoSlashBreak(used);
  }

  lemma {:induction false} LiteralHasNoSlashBreak(t: JsText)
    requires ReadBody(t).Some? && NoSlashBreak(ReadBody(t).value.1)
    ensures NoSlashBreak(t)
  {
    if t[0] == QUOTE {
      assert t == [QUOTE] + t[1..];
    } else if t[0] == BACKSLASH {
      LiteralHasNoSlashBreak(ReadEscape(t[1..]).value.1);
      EscapeHasNoSlashBreak(t[1..]);
      assert t == [BACKSLASH] + t[1..];
    } else {
      LiteralHasNoSlashBreak(t[1..]);
      assert t == [t[0]] + t[1..];
    }
  }

  lemma EntryHasNoSlashBreak(t: JsText)
    requires ReadEntry(t).Some? && NoSlashBreak(ReadEntry(t).value.1)
    ensures NoSlashBreak(t)
  {
    var t1 := t[|INDENT|..];
    var t2 := ReadLiteral(t1).value.1;
    var t3 := t2[|COLON|..];
    var t4 := ReadLiteral(t3).value.1;
    var rest := t4[|COMMA_LF|..];
    assert t4 == COMMA_LF + rest;
    LiteralHasNoSlashBreak(t3[1..]);
    assert t3 == [QUOTE] + t3[1..] && t2 == COLON + t3;
    LiteralHasNoSlashBreak(t1[1..]);
    assert t1 == [QUOTE] + t1[1..] && t == INDENT + t1;
  }

  lemma {:induction false} EntriesHaveNoSlashBreak(f: Frame, t: JsText)
    requires f.Valid() && ReadEntries(f, t).Some?
    ensures NoSlashBreak(t)
    decreases |t|
  {
    if t == f.Tail() {
      FrameHasNoSlashBreak(f);
    } else {
      EntriesHaveNoSlashBreak(f, ReadEntry(t).value.1);
      EntryHasNoSlashBreak(t);
    }
  }

  lemma {:induction false} SkipsPart(comment: JsText, rest: JsText)
    requires !OneLine(comment)
    ensures exists tail: JsText :: SkipComment(comment + rest) == tail + rest
  {
    if IsLineTerminator(comment[0]) {
      assert SkipComment(comment + rest) == comment + rest;
    } else {
      assert (comment + rest)[1..] == comment[1..] + rest;
      SkipsPart(comment[1..], rest);
    }
  }

  /** A title that breaks the line leaves the slash at the end of its line where nothing can read it. */
  lemma BrokenTitleIsUnreadable(f: Frame, title: JsText, body: JsText)
    requires f.Valid() && !OneLine(title)
    ensures ReadLocale(f, f.Head() + (title + (f.titleSuffix + (f.Middle() + body)))) == None
  {
    var rest := f.titleSuffix + (f.Middle() + body);
    StripPrefix(f.Head(), title + rest);
    SkipsPart(title, rest);
    var tail: JsText :| SkipComment(title + rest) == tail + rest;
    var t := tail + rest;
    var at := |tail| + |f.titleSuffix| - 1;
    assert t[at] == SLASH && t[at + 1] == LF;
    if Strip(f.Middle(), t).Some? {
      var t2 := Strip(f.Middle(), t).value;
      assert t == f.Middle() + t2;
      if ReadEntries(f, t2).Some? {
        EntriesHaveNoSlashBreak(f, t2);
        FrameHasNoSlashBreak(f);
        var m := f.Middle();
        assert m[|m| - 1] == LF;
        NoSlashBreakAfter(m, t2);
        assert false;
      }
    }
  }

  /** Reading a written file recovers exactly its entries, in order, exactly when the title is on one line. */
  lemma LocaleRoundTrip(f: Frame, title: JsText, entries: seq<Entry>)
    requires f.Valid()
    ensures ReadLocale(f, LocaleText(f, title, entries)) == if OneLine(title) then Some(entries) else None
  {
    var body := EntriesThen(entries, f.Tail());
    var rest := f.Middle() + body;
    if OneLine(title) {
      assert title + (f.titleSuffix + rest) == (title + f.titleSuffix) + rest;
      StripPrefix(f.Head(), title + (f.titleSuffix + rest));
      SkipsToTerminator(title + f.titleSuffix, rest);
      StripPrefix(f.Middle(), body);
      EntriesReadBack(f, entries);
    } else {
      BrokenTitleIsUnreadable(f, title, body);
    }
  }

  // ----- through a UTF-8 file

  function StoredEntry(e: Entry): Entry {
    Entry(Stored(e.key), Stored(e.value))
  }

  function StoredEntries(entries: seq<Entry>): (r: seq<Entry>)
    ensures |r| == |entries| && forall i :: 0 <= i < |r| ==> r[i] == StoredEntry(entries[i])
  {
    if entries == [] then [] else [StoredEntry(entries[0])] + StoredEntries(entries[1..])
  }

  /** Storing a text between plain ones. */
  lemma StoredBetween(p: JsText, s: JsText, q: JsText, rest: JsText)
    requires NoSurrogates(p) && NoSurrogates(q) && q != []
    ensures Stored(p + (s + (q + rest))) == p + (Stored(s) + (q + Stored(rest)))
  {
    PlainPrefix(p, s + (q + rest));
    assert (q + rest)[0] == q[0];
    StoredOfConcat(s, q + rest);
    PlainPrefix(q, rest);
  }

  lemma StoredOfEntry(e: Entry, rest: JsText)
    ensures Stored(EntryThen(e, rest)) == EntryThen(StoredEntry(e), Stored(rest))
  {
    var t := JsString(e.value) + (COMMA_LF + rest);
    StoredBetween(INDENT, JsString(e.key), COLON, t);
    StoredBetween([], JsString(e.value), COMMA_LF, rest);
    assert [] + t == t;
    StoredOfLiteral(e.key);
    StoredOfLiteral(e.value);
    assert [] + (Stored(JsString(e.value)) + (COMMA_LF + Stored(rest))) == Stored(JsString(e.value)) + (COMMA_LF + Stored(rest));
  }

  lemma {:induction false} StoredOfEntries(entries: seq<Entry>, tail: JsText)
    requires NoSurrogates(tail)
    ensures Stored(EntriesThen(entries, tail)) == EntriesThen(StoredEntries(entries), tail)
  {
    if entries == [] {
      NoSurrogatesIsWellFormed(tail);
    } else {
      StoredOfEntry(entries[0], EntriesThen(entries[1..], tail));
      StoredOfEntries(entries[1..], tail);
      assert StoredEntries(entries)[1..] == StoredEntries(entries[1..]);
    }
  }

  lemma StoredOfLocaleText(f: Frame, title: JsText, entries: seq<Entry>)
    requires f.Valid()
    ensures Stored(LocaleText(f, title, entries)) == LocaleText(f, Stored(title), StoredEntries(entries))
  {
    var body := EntriesThen(entries, f.Tail());
    var q := f.titleSuffix + f.Middle();
    assert forall stored: JsText :: f.titleSuffix + (f.Middle() + stored) == q + stored;
    StoredBetween(f.Head(), title, q, body);
    StoredOfEntries(entries, f.Tail());
  }

  lemma StoredKeepsOneLine(t: JsText)
    ensures OneLine(Stored(t)) <==> OneLine(t)
  {
    assert forall i :: 0 <= i < |t| && IsLineTerminator(t[i]) ==> Stored(t)[i] == t[i];
  }

  /** A file read back from disk gives the entries with their unpaired surrogates replaced. */
  lemma StoredLocaleRoundTrip(f: Frame, title: JsText, entries: seq<Entry>)
    requires f.Valid()
    ensures ReadLocale(f, Stored(LocaleText(f, title, entries))) == if OneLine(title) then Some(StoredEntries(entries)) else None
  {
    StoredOfLocaleText(f, title, entries);
    StoredKeepsOneLine(title);
    LocaleRoundTrip(f, Stored(title), StoredEntries(entries));
  }

  // ----- the frame of the script

  function Unit(c: char): CodeUnit {
    if c as int < 0x1_0000 then c as int else REPLACEMENT
  }

  /** The code units of a text of the script. */
  function Units(s: string): JsText {
    seq(|s|, i requires 0 <= i < |s| => Unit(s[i]))
  }

  const FRAME := Frame(
    Units("import type { TranslationMap } from './types';"),
    Units("// "),
    Units(" translations. Keys mirror en.ts; missing" + "/"),
    Units("// English-identical values fall back" + " to English via I18nContext.resolveEn()" + "."),
    Units("const messages: TranslationMap = " + "{"),
    Units("}" + ";"),
    Units("export default messages" + ";"))

  predicate Printable(s: string) {
    forall i :: 0 <= i < |s| ==> ' ' <= s[i] <= '~'
  }

  /** A text of the script that ends in `last`. */
  lemma UnitsAreOneLine(s: string, last: char)
    requires Printable(s) && Printable([last])
    ensures OneLine(Units(s + [last])) && (EndsInSlash(Units(s + [last])) <==> last == '/')
  {
    assert [last][0] == last;
  }

  lemma TitleIsOneLine()
    ensures OneLine(FRAME.titleSuffix) && EndsInSlash(FRAME.titleSuffix)
  {
    UnitsAreOneLine(" translations. Keys mirror en.ts; missing", '/');
  }

  lemma NoteIsOneLine()
    ensures OneLine(FRAME.note) && !EndsInSlash(FRAME.note)
  {
    var a, b := "// English-identical values fall back", " to English via I18nContext.resolveEn()";
    assert Printable(a);
    assert Printable(b);
    UnitsAreOneLine(a + b, '.');
  }

  lemma OpeningIsOneLine()
    ensures OneLine(FRAME.opening) && !EndsInSlash(FRAME.opening)
  {
    UnitsAreOneLine("const messages: TranslationMap = ", '{');
  }

  lemma EndIsOneLine()
    ensures OneLine(FRAME.closing) && !EndsInSlash(FRAME.closing) && FRAME.closing != [] && FRAME.closing[0] != 32
    ensures OneLine(FRAME.footer) && !EndsInSlash(FRAME.footer)
  {
    UnitsAreOneLine("}", ';');
    assert ("}" + ";")[0] == '}';
    UnitsAreOneLine("export default messages", ';');
  }

  lemma FrameIsValid()
    ensures FRAME.Valid()
  {
    TitleIsOneLine();
    NoteIsOneLine();
    OpeningIsOneLine();
    EndIsOneLine();
  }
}
