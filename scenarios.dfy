/**
 * Concrete cases of the package's own tests, derived from the general
 * lemmas of the model.
 */
module Scenarios {
  import opened Common
  import opened Strings
  import opened OrderedMap
  import opened Configuration
  import opened LocalesRegistry
  import opened Validation
  import opened FormRequest

  /** A language with two countries contributes the language, then each country locale. */
  lemma TwoCountries(sep: string, language: string, c1: string, c2: string)
    ensures EntryLocales(sep, LocaleEntry(StringKey(language), Countries([c1, c2]))) ==
      [language, CountryLocale(sep, language, c1), CountryLocale(sep, language, c2)]
  {
    assert [c1, c2][..1] == [c1] && [c1][..0] == [];
    assert CountryLocales(sep, language, [c1]) == [CountryLocale(sep, language, c1)];
    assert CountryLocales(sep, language, [c1, c2]) == [CountryLocale(sep, language, c1), CountryLocale(sep, language, c2)];
  }

  /** Three new, distinct locales are appended in order. */
  lemma InsertThree(table: seq<string>, a: string, b: string, c: string)
    requires a !in table && b !in table && c !in table && a != b && a != c && b != c
    ensures InsertedAll(table, [a, b, c]) == table + [a, b, c]
  {
    InsertOne(table, a);
    InsertOne(table + [a], b);
    InsertOne(table + [a, b], c);
    assert [a] + [b] == [a, b] && [a, b] + [c] == [a, b, c];
    assert table + [a] + [b] == table + [a, b] && table + [a, b] + [c] == table + [a, b, c];
    InsertedAllAppend(table, [a], [b]);
    InsertedAllAppend(table, [a, b], [c]);
  }

  lemma InsertOne(table: seq<string>, a: string)
    ensures InsertedAll(table, [a]) == Inserted(table, a)
  {
    assert [a][..0] == [];
  }

  /** The locales of the two entries of `LoadCountries` are pairwise distinct, so each insertion appends. */
  lemma DistinctPieces()
    ensures "en" != "en-GB" && "en" != "en-US" && "en-GB" != "en-US"
    ensures "de" != "de-DE" && "de" != "de-CH" && "de-DE" != "de-CH"
    ensures "de" !in ["en", "en-GB", "en-US"] && "de-DE" !in ["en", "en-GB", "en-US"] && "de-CH" !in ["en", "en-GB", "en-US"]
    ensures ["en", "en-GB", "en-US"] + ["de", "de-DE", "de-CH"] == ["en", "en-GB", "en-US", "de", "de-DE", "de-CH"]
  {
  }

  /** A language with two countries, as a configuration entry. */
  lemma CountryEntry(sep: string, e: LocaleEntry, language: string, c1: string, c2: string, l1: string, l2: string)
    requires e == LocaleEntry(StringKey(language), Countries([c1, c2]))
    requires l1 == CountryLocale(sep, language, c1) && l2 == CountryLocale(sep, language, c2)
    ensures EntryLocales(sep, e) == [language, l1, l2]
  {
    TwoCountries(sep, language, c1, c2);
  }

  /** The first entry alone registers `en` and its two countries. */
  lemma LoadFirst(sep: string, entries: seq<LocaleEntry>)
    requires sep == "-"
    requires entries == [LocaleEntry(StringKey("en"), Countries(["GB", "US"])),
                         LocaleEntry(StringKey("de"), Countries(["DE", "CH"]))]
    ensures LoadedLocales(sep, entries[..1]) == ["en", "en-GB", "en-US"]
    ensures EntryLocales(sep, entries[1]) == ["de", "de-DE", "de-CH"]
  {
    assert CountryLocale("-", "en", "GB") == "en-GB" && CountryLocale("-", "en", "US") == "en-US";
    assert CountryLocale("-", "de", "DE") == "de-DE" && CountryLocale("-", "de", "CH") == "de-CH";
    DistinctPieces();
    CountryEntry(sep, entries[0], "en", "GB", "US", "en-GB", "en-US");
    CountryEntry(sep, entries[1], "de", "DE", "CH", "de-DE", "de-CH");
    var xs := ["en", "en-GB", "en-US"];
    assert entries[..0] == [];
    LoadedLocalesStep(sep, entries, 0);
    InsertThree([], "en", "en-GB", "en-US");
    AppendEmptyLeft(xs);
  }

  /** `load()` with `['en' => ['GB', 'US'], 'de' => ['DE', 'CH']]` registers each language before its countries. */
  lemma LoadCountries(sep: string, entries: seq<LocaleEntry>)
    requires sep == "-"
    requires entries == [LocaleEntry(StringKey("en"), Countries(["GB", "US"])),
                         LocaleEntry(StringKey("de"), Countries(["DE", "CH"]))]
    ensures LoadedLocales(sep, entries) == ["en", "en-GB", "en-US", "de", "de-DE", "de-CH"]
  {
    var xs, ys := ["en", "en-GB", "en-US"], ["de", "de-DE", "de-CH"];
    LoadFirst(sep, entries);
    DistinctPieces();
    LoadedLocalesStep(sep, entries, 1);
    assert entries[..2] == entries;
    InsertThree(xs, "de", "de-DE", "de-CH");
  }

  /** A key holding one placeholder, with no prefix character around it, has that placeholder replaced. */
  lemma TokenReplaced(st: Settings, locale: string, before: string, name: string, after: string, key: string)
    requires |st.prefix| == 1 && |st.suffix| > 0 && st.prefix[0] !in before && st.prefix[0] !in after
    requires |name| > 0 && forall j :: 0 <= j < |name| ==> NameChar(st, name[j])
    requires key == before + st.prefix + name + st.suffix + after
    ensures ReplacePlaceholder(st, locale, key) == before + (Substitute(st, locale, name) + after)
  {
    assert st.prefix == [st.prefix[0]];
    CharAbsent(before, st.prefix[0]);
    CharAbsent(after, st.prefix[0]);
    ReplaceToken(st, locale, before, name, after);
    ReplaceWithoutPrefix(st, locale, after);
    AppendAssoc(before, Substitute(st, locale, name), after);
  }

  /** A rule string of two pieces, the first non-empty, is rewritten piece by piece. */
  lemma TwoPieces(st: Settings, locale: string, a: string, b: string, rule: string)
    requires a != "" && '|' !in a && '|' !in b && rule == a + "|" + b
    ensures FormatString(st, locale, rule) == ReplacePlaceholder(st, locale, a) + ("|" + ReplacePlaceholder(st, locale, b))
  {
    CharAbsent(a, '|');
    CharAbsent(b, '|');
    FormatStringSplit(st, locale, a, b);
    AppendAssoc(ReplacePlaceholder(st, locale, a), "|", ReplacePlaceholder(st, locale, b));
  }

  /** Text without the prefix character is copied as it is. */
  lemma PlainText(st: Settings, locale: string, s: string)
    requires |st.prefix| == 1 && st.prefix[0] !in s
    ensures ReplacePlaceholder(st, locale, s) == s
  {
    assert st.prefix == [st.prefix[0]];
    CharAbsent(s, st.prefix[0]);
    ReplaceWithoutPrefix(st, locale, s);
  }

  /** `%content%` in a key becomes `locale.content` in the array format and `content:locale` in the key format. */
  lemma ReplaceSubKey(key: string, locale: string)
    requires key == "translations.%content%"
    ensures ReplacePlaceholder(Settings(Some(FORMAT_ARRAY), "%", "%"), locale, key) == "translations." + (locale + ".content")
    ensures ReplacePlaceholder(Settings(Some(FORMAT_KEY), "%", "%"), locale, key) == "translations." + ("content:" + locale)
  {
    var arr, kf := Settings(Some(FORMAT_ARRAY), "%", "%"), Settings(Some(FORMAT_KEY), "%", "%");
    assert "translations.%content%" == "translations." + "%" + "content" + "%" + "";
    assert "." + "content" == ".content" && "content" + ":" == "content:";
    assert forall j :: 0 <= j < |"content"| ==> NameChar(arr, "content"[j]) && NameChar(kf, "content"[j]);
    TokenReplaced(arr, locale, "translations.", "content", "", key);
    TokenReplaced(kf, locale, "translations.", "content", "", key);
    var sa, sk := Substitute(arr, locale, "content"), Substitute(kf, locale, "content");
    assert sa == locale + "." + "content" && sk == "content" + ":" + locale;
    AppendEmpty(sa);
    AppendEmpty(sk);
    AppendAssoc(locale, ".", "content");
    AppendAssoc("content", ":", locale);
  }

  /** In an imploded rule the placeholder is rewritten inside the piece that holds it. */
  lemma ImplodedRule(rule: string, locale: string)
    requires rule == "required_with:%title%|string"
    ensures FormatString(Settings(Some(FORMAT_ARRAY), "%", "%"), locale, rule) ==
      "required_with:" + (locale + ".title") + ("|" + "string")
  {
    var st := Settings(Some(FORMAT_ARRAY), "%", "%");
    var a := "required_with:%title%";
    assert "required_with:%title%|string" == "required_with:%title%" + "|" + "string";
    assert "required_with:%title%" == "required_with:" + "%" + "title" + "%" + "";
    assert "." + "title" == ".title";
    assert forall j :: 0 <= j < |"title"| ==> NameChar(Settings(Some(FORMAT_ARRAY), "%", "%"), "title"[j]);
    assert '|' !in "required_with:%title%" && '|' !in "string" && '%' !in "string" && '%' !in "required_with:";
    TokenReplaced(st, locale, "required_with:", "title", "", a);
    TwoPieces(st, locale, a, "string", rule);
    PlainText(st, locale, "string");
    var sub := Substitute(st, locale, "title");
    assert sub == locale + "." + "title";
    AppendEmpty(sub);
    AppendAssoc(locale, ".", "title");
  }

  /** The writes for `title`: `required|array` on `title`, then `string` on each `title.locale`. */
  lemma TitleWrites(locales: seq<string>)
    requires locales == ["el", "en", "fr", "de", "id", "en-GB", "en-US", "de-DE", "de-CH"]
    ensures EntryWrites("title", Str("string"), locales) ==
      [("title", Str("required|array")),
       ("title.el", Str("string")), ("title.en", Str("string")), ("title.fr", Str("string")),
       ("title.de", Str("string")), ("title.id", Str("string")), ("title.en-GB", Str("string")),
       ("title.en-US", Str("string")), ("title.de-DE", Str("string")), ("title.de-CH", Str("string"))]
  {
    assert NoDuplicates(["el", "en", "fr", "de", "id", "en-GB", "en-US", "de-DE", "de-CH"]);
    assert '.' !in "title";
    assert NestedKey("title", "el") == "title.el" && NestedKey("title", "en") == "title.en";
    assert NestedKey("title", "fr") == "title.fr" && NestedKey("title", "de") == "title.de";
    assert NestedKey("title", "id") == "title.id" && NestedKey("title", "en-GB") == "title.en-GB";
    assert NestedKey("title", "en-US") == "title.en-US" && NestedKey("title", "de-DE") == "title.de-DE";
    assert NestedKey("title", "de-CH") == "title.de-CH";
    EntryWritesAt("title", Str("string"), locales, 0);
    EntryWritesAt("title", Str("string"), locales, 1);
    EntryWritesAt("title", Str("string"), locales, 2);
    EntryWritesAt("title", Str("string"), locales, 3);
    EntryWritesAt("title", Str("string"), locales, 4);
    EntryWritesAt("title", Str("string"), locales, 5);
    EntryWritesAt("title", Str("string"), locales, 6);
    EntryWritesAt("title", Str("string"), locales, 7);
    EntryWritesAt("title", Str("string"), locales, 8);
    EntryWritesAt("title", Str("string"), locales, 9);
  }

  /** `['title' => 'string']` with nine registered locales gives `title` and one `title.locale` per locale. */
  lemma FormRequestTitle(rules: Entries<Value>, locales: seq<string>)
    requires rules == [("title", Str("string"))]
    requires locales == ["el", "en", "fr", "de", "id", "en-GB", "en-US", "de-DE", "de-CH"]
    ensures RulesByLocales(rules, locales) ==
      [("title", Str("required|array")),
       ("title.el", Str("string")), ("title.en", Str("string")), ("title.fr", Str("string")),
       ("title.de", Str("string")), ("title.id", Str("string")), ("title.en-GB", Str("string")),
       ("title.en-US", Str("string")), ("title.de-DE", Str("string")), ("title.de-CH", Str("string"))]
  {
    assert NoDuplicates(["el", "en", "fr", "de", "id", "en-GB", "en-US", "de-DE", "de-CH"]);
    assert '.' !in "title";
    assert NestedKey("title", "el") == "title.el" && NestedKey("title", "en") == "title.en";
    assert NestedKey("title", "fr") == "title.fr" && NestedKey("title", "de") == "title.de";
    assert NestedKey("title", "id") == "title.id" && NestedKey("title", "en-GB") == "title.en-GB";
    assert NestedKey("title", "en-US") == "title.en-US" && NestedKey("title", "de-DE") == "title.de-DE";
    assert NestedKey("title", "de-CH") == "title.de-CH";
    assert Keys(rules) == ["title"];
    WritesDistinct(rules, locales);
    RulesByLocalesFresh(rules, locales);
    assert rules[..0] == [];
    assert Writes(rules, locales) == EntryWrites("title", Str("string"), locales);
    TitleWrites(locales);
  }
}
