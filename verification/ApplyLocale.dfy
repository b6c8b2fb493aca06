/** Merging a translations file into a locale file. */
module ApplyLocale {
  import opened Prelude
  import opened JsLiteral
  import opened Surrogates
  import opened LocaleFile

  /** How the script engine loads a locale file: the messages it exports, or nothing if that fails. */
  type Loader = JsText -> Option<Messages>

  function MessagesOf(entries: seq<Entry>): Messages {
    if entries == [] then map[]
    else
      var last := |entries| - 1;
      MessagesOf(entries[..last])[entries[last].key := entries[last].value]
  }

  /** A loader that agrees with the reader on every file the reader understands; on others it is free. */
  ghost predicate Faithful(f: Frame, load: Loader) {
    forall t :: ReadLocale(f, t).Some? ==> load(t) == Some(MessagesOf(ReadLocale(f, t).value))
  }

  function Existing(load: Loader, files: map<JsText, JsText>, locale: JsText): Messages {
    if locale in files && load(files[locale]).Some? then load(files[locale]).value else map[]
  }

  /** New translation, else existing one, else English. */
  function Chosen(k: JsText, translations: Messages, existing: Messages, english: Messages): JsText
    requires k in english
  {
    if k in translations then translations[k] else if k in existing then existing[k] else english[k]
  }

  function Merged(keys: seq<JsText>, translations: Messages, existing: Messages, english: Messages): Messages
    requires forall k :: k in keys ==> k in english
  {
    map k | k in keys :: Chosen(k, translations, existing, english)
  }

  predicate Changes(k: JsText, translations: Messages, existing: Messages) {
    k in translations && (k !in existing || existing[k] != translations[k])
  }

  function ChangedAt(keys: seq<JsText>, translations: Messages, existing: Messages): set<nat> {
    set i | 0 <= i < |keys| && Changes(keys[i], translations, existing)
  }

  /** `en`, as code units. */
  const ENGLISH: JsText := [101, 110]

  datatype Counts = Counts(updated: nat, total: nat)

  function TitleOf(titles: Messages, locale: JsText): JsText {
    if locale in titles then titles[locale] else locale
  }

  /** The file one application leaves for its locale. */
  function Rewritten(f: Frame, titles: Messages, locale: JsText, keys: seq<JsText>, values: Messages): JsText {
    Stored(LocaleText(f, TitleOf(titles, locale), Entries(keys, values)))
  }

  /** Chooses a value for every key, and counts the keys whose supplied value differs from the existing one. */
  method MergeAll(translations: Messages, existing: Messages, keys: seq<JsText>, english: Messages)
    returns (merged: Messages, updated: nat, total: nat)
    requires forall k :: k in keys ==> k in english
    ensures merged == Merged(keys, translations, existing, english)
    ensures forall k :: k in merged <==> k in keys
    ensures forall k :: k in keys && k in translations ==> merged[k] == translations[k]
    ensures forall k :: k in keys && k !in translations && k in existing ==> merged[k] == existing[k]
    ensures forall k :: k in keys && k !in translations && k !in existing ==> merged[k] == english[k]
    ensures updated == |ChangedAt(keys, translations, existing)|
    ensures forall i :: i in ChangedAt(keys, translations, existing) <==>
                        && 0 <= i < |keys| && keys[i] in translations
                        && !(keys[i] in existing && existing[keys[i]] == translations[keys[i]])
    ensures total == |keys|
  {
    merged, updated, total := map[], 0, 0;
    for i := 0 to |keys|
      invariant total == i
      invariant updated == |ChangedAt(keys[..i], translations, existing)|
      invariant merged == Merged(keys[..i], translations, existing, english)
    {
      var k := keys[i];
      total := total + 1;
      ChangedAtGrows(keys, i, translations, existing);
      if k in translations {
        var newVal := translations[k];
        if k !in existing || newVal != existing[k] {
          updated := updated + 1;
        }
        merged := merged[k := newVal];
      } else if k in existing {
        merged := merged[k := existing[k]];
      } else {
        merged := merged[k := english[k]];
      }
      assert keys[..i + 1] == keys[..i] + [k];
    }
    assert keys[..|keys|] == keys;
  }

  class LocaleDir {
    const frame: Frame
    const load: Loader
    const titles: Messages
    var files: map<JsText, JsText>

    constructor (frame: Frame, load: Loader, titles: Messages, files: map<JsText, JsText>)
      ensures this.frame == frame && this.load == load && this.titles == titles && this.files == files
    {
      this.frame, this.load, this.titles, this.files := frame, load, titles, files;
    }

    /** Rewrites one locale with exactly the English keys in English order, and counts the keys
        whose supplied value differs from the existing one. */
    method Apply(locale: JsText, translations: Messages, enKeys: seq<JsText>, enValues: Messages)
      returns (r: Option<Counts>)
      requires forall k :: k in enKeys ==> k in enValues
      modifies this
      ensures locale == [101, 110] ==> r == None && files == old(files)
      ensures locale != [101, 110] ==>
                var existing := Existing(load, old(files), locale);
                && r == Some(Counts(|ChangedAt(enKeys, translations, existing)|, |enKeys|))
                && files == old(files)[locale :=
                     Rewritten(frame, titles, locale, enKeys, Merged(enKeys, translations, existing, enValues))]
    {
      if locale == ENGLISH {
        return None;
      }
      var existing: Messages := map[];
      if locale in files {
        var loaded := load(files[locale]);
        if loaded.Some? {
          existing := loaded.value;
        }
      }
      var merged, updated, total := MergeAll(translations, existing, enKeys, enValues);
      var text := WriteLocale(frame, TitleOf(titles, locale), enKeys, merged);
      files := files[locale := Stored(text)];
      return Some(Counts(updated, total));
    }
  }

  lemma ChangedAtGrows(keys: seq<JsText>, i: nat, translations: Messages, existing: Messages)
    requires i < |keys|
    ensures |ChangedAt(keys[..i + 1], translations, existing)| ==
            |ChangedAt(keys[..i], translations, existing)| + if Changes(keys[i], translations, existing) then 1 else 0
  {
    var before, after := ChangedAt(keys[..i], translations, existing), ChangedAt(keys[..i + 1], translations, existing);
    assert forall j :: 0 <= j < i ==> keys[..i + 1][j] == keys[..i][j];
    assert after == if Changes(keys[i], translations, existing) then before + {i} else before;
  }

  // ----- what an application leaves

  /** The directory after one application. */
  function Applied(f: Frame, load: Loader, titles: Messages, files: map<JsText, JsText>, locale: JsText, translations: Messages,
                   keys: seq<JsText>, english: Messages): map<JsText, JsText>
    requires forall k :: k in keys ==> k in english
  {
    files[locale := Rewritten(f, titles, locale, keys, Merged(keys, translations, Existing(load, files, locale), english))]
  }

  /** After one application under a one-line title, loading the file gives exactly the English keys, each with what a UTF-8 file keeps
      of the supplied value, else of the value the old file had, else of the English one. */
  lemma AppliedMessages(f: Frame, load: Loader, titles: Messages, files: map<JsText, JsText>, locale: JsText, translations: Messages,
                        keys: seq<JsText>, english: Messages)
    requires f.Valid() && Faithful(f, load) && OneLine(TitleOf(titles, locale))
    requires Distinct(keys) && (forall k :: k in keys ==> k in english && WellFormed(k))
    ensures var before := if locale in files then load(files[locale]) else None;
            var first := Applied(f, load, titles, files, locale, translations, keys, english);
            locale in first && load(first[locale]).Some? &&
            var after := load(first[locale]).value;
            && (forall k :: k in after <==> k in keys)
            && (forall k :: k in keys && k in translations ==> after[k] == Stored(translations[k]))
            && (forall k :: k in keys && k !in translations && before.Some? && k in before.value ==> after[k] == Stored(before.value[k]))
            && (forall k :: k in keys && k !in translations && !(before.Some? && k in before.value) ==> after[k] == Stored(english[k]))
  {
    var merged := Merged(keys, translations, Existing(load, files, locale), english);
    var first := Applied(f, load, titles, files, locale, translations, keys, english);
    ReloadedMessages(f, load, titles, first, locale, keys, merged);
    StoredLocaleRoundTrip(f, TitleOf(titles, locale), Entries(keys, merged));
    StoredMessages(keys, merged);
  }

  /** The file starts with a comment line that shows the title of the table, or else the name of the locale. */
  lemma AppliedTitle(f: Frame, titles: Messages, locale: JsText, keys: seq<JsText>, values: Messages)
    requires f.Valid()
    ensures var shown := if locale in titles then titles[locale] else locale;
            f.Head() + (Stored(shown) + f.titleSuffix) <= Rewritten(f, titles, locale, keys, values)
  {
    var shown := if locale in titles then titles[locale] else locale;
    StoredOfLocaleText(f, shown, Entries(keys, values));
    var rest := f.Middle() + EntriesThen(StoredEntries(Entries(keys, values)), f.Tail());
    assert f.Head() + (Stored(shown) + (f.titleSuffix + rest)) == f.Head() + (Stored(shown) + f.titleSuffix) + rest;
  }

  // ----- applying twice

  ghost predicate Distinct(keys: seq<JsText>) {
    forall i, j :: 0 <= i < j < |keys| ==> keys[i] != keys[j]
  }

  lemma {:induction false} EntriesOfTotal(keys: seq<JsText>, values: Messages)
    requires forall k :: k in keys ==> k in values
    ensures |Entries(keys, values)| == |keys|
    ensures forall i :: 0 <= i < |keys| ==> Entries(keys, values)[i] == Entry(keys[i], values[keys[i]])
  {
    if keys != [] {
      EntriesOfTotal(keys[1..], values);
    }
  }

  lemma {:induction false} MessagesOfExact(entries: seq<Entry>)
    requires forall i, j :: 0 <= i < j < |entries| ==> entries[i].key != entries[j].key
    ensures forall i :: 0 <= i < |entries| ==>
              entries[i].key in MessagesOf(entries) && MessagesOf(entries)[entries[i].key] == entries[i].value
    ensures forall k :: k in MessagesOf(entries) ==> exists i :: 0 <= i < |entries| && entries[i].key == k
  {
    if entries != [] {
      var last := |entries| - 1;
      var init := entries[..last];
      MessagesOfExact(init);
      assert forall i :: 0 <= i < last ==> init[i] == entries[i];
      forall k | k in MessagesOf(entries)
        ensures exists i :: 0 <= i < |entries| && entries[i].key == k
      {
        if k == entries[last].key {
          assert 0 <= last < |entries|;
        } else {
          assert k in MessagesOf(init);
          var i :| 0 <= i < |init| && init[i].key == k;
          assert entries[i].key == k;
        }
      }
    }
  }

  lemma MessagesByKey(keys: seq<JsText>, entries: seq<Entry>, values: Messages)
    requires Distinct(keys) && |entries| == |keys|
    requires forall i :: 0 <= i < |keys| ==> keys[i] in values && entries[i] == Entry(keys[i], values[keys[i]])
    ensures forall k :: k in MessagesOf(entries) <==> k in keys
    ensures forall k :: k in keys ==> MessagesOf(entries)[k] == values[k]
  {
    MessagesOfExact(entries);
    forall k | k in keys
      ensures k in MessagesOf(entries) && MessagesOf(entries)[k] == values[k]
    {
      var i :| 0 <= i < |keys| && keys[i] == k;
      assert entries[i].key == k;
    }
  }

  /** The messages of a stored file: exactly its keys, each with its stored value. */
  lemma StoredMessages(keys: seq<JsText>, values: Messages)
    requires Distinct(keys) && (forall k :: k in keys ==> k in values && WellFormed(k))
    ensures var m := MessagesOf(StoredEntries(Entries(keys, values)));
            && (forall k :: k in m <==> k in keys)
            && (forall k :: k in keys ==> m[k] == Stored(values[k]))
  {
    EntriesOfTotal(keys, values);
    var stored := map k | k in keys :: Stored(values[k]);
    var entries := StoredEntries(Entries(keys, values));
    forall i | 0 <= i < |keys|
      ensures keys[i] in stored && entries[i] == Entry(keys[i], stored[keys[i]])
    {
      assert keys[i] in keys;
      assert entries[i] == StoredEntry(Entry(keys[i], values[keys[i]]));
    }
    MessagesByKey(keys, entries, stored);
  }

  /** What the next load sees. */
  lemma ReloadedMessages(f: Frame, load: Loader, titles: Messages, files: map<JsText, JsText>, locale: JsText,
                         keys: seq<JsText>, values: Messages)
    requires f.Valid() && Faithful(f, load) && OneLine(TitleOf(titles, locale))
    requires locale in files && files[locale] == Rewritten(f, titles, locale, keys, values)
    ensures Existing(load, files, locale) == MessagesOf(StoredEntries(Entries(keys, values)))
  {
    StoredLocaleRoundTrip(f, TitleOf(titles, locale), Entries(keys, values));
  }

  lemma SameStoredText(f: Frame, titles: Messages, locale: JsText, keys: seq<JsText>, a: Messages, b: Messages)
    requires f.Valid()
    requires forall k :: k in keys ==> k in a && k in b && Stored(a[k]) == Stored(b[k])
    ensures Rewritten(f, titles, locale, keys, a) == Rewritten(f, titles, locale, keys, b)
  {
    EntriesOfTotal(keys, a);
    EntriesOfTotal(keys, b);
    var title := TitleOf(titles, locale);
    StoredOfLocaleText(f, title, Entries(keys, a));
    StoredOfLocaleText(f, title, Entries(keys, b));
    assert forall i :: 0 <= i < |keys| ==> keys[i] in keys;
    assert StoredEntries(Entries(keys, a)) == StoredEntries(Entries(keys, b));
  }

  /** The positions a second application reports. */
  function ReportedAgain(f: Frame, load: Loader, titles: Messages, files: map<JsText, JsText>, locale: JsText,
                         translations: Messages, keys: seq<JsText>, english: Messages): set<nat>
    requires forall k :: k in keys ==> k in english
  {
    ChangedAt(keys, translations, Existing(load, Applied(f, load, titles, files, locale, translations, keys, english), locale))
  }

  /** Applying the same input again under a one-line title rewrites the same file, and reports no update
      exactly when every supplied value for an English key survives a UTF-8 file. */
  lemma ApplyAgain(f: Frame, load: Loader, titles: Messages, files: map<JsText, JsText>, locale: JsText, translations: Messages,
                   keys: seq<JsText>, english: Messages)
    requires f.Valid() && Faithful(f, load) && OneLine(TitleOf(titles, locale))
    requires Distinct(keys) && (forall k :: k in keys ==> k in english && WellFormed(k))
    ensures var first := Applied(f, load, titles, files, locale, translations, keys, english);
            Applied(f, load, titles, first, locale, translations, keys, english) == first
    ensures ReportedAgain(f, load, titles, files, locale, translations, keys, english) == {} <==>
            forall k :: k in keys && k in translations ==> WellFormed(translations[k])
  {
    var existing := Existing(load, files, locale);
    var merged := Merged(keys, translations, existing, english);
    var first := Applied(f, load, titles, files, locale, translations, keys, english);
    ReloadedMessages(f, load, titles, first, locale, keys, merged);
    StoredMessages(keys, merged);
    var again := Existing(load, first, locale);
    SameStoredMerge(keys, translations, existing, again, english);
    SameStoredText(f, titles, locale, keys, merged, Merged(keys, translations, again, english));
    NothingChangedIff(keys, translations, again);
  }

  /** Merging over what was stored changes no stored value. */
  lemma SameStoredMerge(keys: seq<JsText>, translations: Messages, existing: Messages, again: Messages, english: Messages)
    requires forall k :: k in keys ==> k in english && k in again
    requires forall k :: k in keys ==> again[k] == Stored(Merged(keys, translations, existing, english)[k])
    ensures forall k :: k in keys ==>
              Stored(Merged(keys, translations, again, english)[k]) == Stored(Merged(keys, translations, existing, english)[k])
  {
    forall k | k in keys {
      StoredIsWellFormed(Merged(keys, translations, existing, english)[k]);
    }
  }

  /** Loads what the reader understands and nothing else. */
  function ReaderOf(f: Frame): Loader {
    (t: JsText) => if ReadLocale(f, t).Some? then Some(MessagesOf(ReadLocale(f, t).value)) else None
  }

  lemma BrokenTitleReports(f: Frame, titles: Messages, files: map<JsText, JsText>, locale: JsText, translations: Messages,
                           keys: seq<JsText>, english: Messages, i: nat)
    requires f.Valid() && !OneLine(TitleOf(titles, locale)) && (forall k :: k in keys ==> k in english)
    requires i < |keys| && keys[i] in translations
    ensures i in ReportedAgain(f, ReaderOf(f), titles, files, locale, translations, keys, english)
  {
    var merged := Merged(keys, translations, Existing(ReaderOf(f), files, locale), english);
    StoredLocaleRoundTrip(f, TitleOf(titles, locale), Entries(keys, merged));
  }

  /** Whatever the loader makes of files the reader does not understand, a second application reports no update
      exactly when every supplied value survives a UTF-8 file, and the title is on one line if any is supplied. */
  lemma NothingReportedExactlyWhen(f: Frame, titles: Messages, files: map<JsText, JsText>, locale: JsText,
                                   translations: Messages, keys: seq<JsText>, english: Messages)
    requires f.Valid() && Distinct(keys) && (forall k :: k in keys ==> k in english && WellFormed(k))
    ensures (forall load: Loader :: Faithful(f, load) ==>
               ReportedAgain(f, load, titles, files, locale, translations, keys, english) == {})
            <==> forall k :: k in keys && k in translations ==>
                               WellFormed(translations[k]) && OneLine(TitleOf(titles, locale))
  {
    var title := TitleOf(titles, locale);
    if OneLine(title) {
      forall load: Loader | Faithful(f, load) {
        ApplyAgain(f, load, titles, files, locale, translations, keys, english);
      }
      assert Faithful(f, ReaderOf(f));
    } else if exists k :: k in keys && k in translations {
      var i :| 0 <= i < |keys| && keys[i] in translations;
      BrokenTitleReports(f, titles, files, locale, translations, keys, english, i);
      assert Faithful(f, ReaderOf(f));
    }
  }

  lemma NothingChangedIff(keys: seq<JsText>, translations: Messages, again: Messages)
    requires forall k :: k in keys && k in translations ==> k in again && again[k] == Stored(translations[k])
    ensures ChangedAt(keys, translations, again) == {} <==>
            forall k :: k in keys && k in translations ==> WellFormed(translations[k])
  {
    var changed := ChangedAt(keys, translations, again);
    if changed == {} {
      forall k | k in keys && k in translations
        ensures WellFormed(translations[k])
      {
        var i :| 0 <= i < |keys| && keys[i] == k;
        assert i !in changed;
      }
    } else {
      var i :| i in changed;
      assert keys[i] in keys && keys[i] in translations;
    }
  }

  /** A lone surrogate supplied for one key is reported as an update again and again. */
  lemma SurrogateIsReportedAgain(f: Frame, load: Loader)
    requires f.Valid() && Faithful(f, load)
    ensures var german, key: JsText := [100, 101], [97];
            ReportedAgain(f, load, map[], map[], german, map[key := [0xD800]], [key], map[key := [98]]) != {}
  {
    var german, key: JsText, translations: Messages := [100, 101], [97], map[[97] := [0xD800]];
    assert WellFormed(key) && Stored(translations[key])[0] == REPLACEMENT;
    ApplyAgain(f, load, map[], map[], german, translations, [key], map[key := [98]]);
  }
}
