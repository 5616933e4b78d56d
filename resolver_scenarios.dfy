/**
 * Fallback cases of the package's own tests, resolved through the default
 * resolver chain. Rows are given in the order the tests create them. The
 * registry's locales are written out in the order `load()` gives them for
 * each test's `translatable.locales`, with the default separator `-`.
 */
module ResolverScenarios {
  import opened Common
  import opened Strings
  import opened Configuration
  import opened Translations
  import opened LocalesRegistry
  import opened TranslationResolvers

  /** A saved row holding one `name`. */
  function NameRow(locale: string, name: string): Translation
  {
    Translation(locale, map["name" := Str(name)], map["name" := Str(name)])
  }

  /** A locale without the separator proposes no language. */
  lemma NoLanguage(env: Env, locale: string)
    requires Separator(env.localeSeparator) == "-" && '-' !in locale
    ensures Candidates(CountryBasedLocale, env, locale) == []
  {
    assert "-" == ['-'];
    CharAbsent(locale, '-');
    CountryBasedCandidates(env, locale);
  }

  /** `language-country` proposes `language`. */
  lemma LanguageProposed(env: Env, language: string, country: string, locale: string)
    requires Separator(env.localeSeparator) == "-" && '-' !in language && !Falsy(language)
    requires locale == language + "-" + country
    ensures Candidates(CountryBasedLocale, env, locale) == [language]
  {
    assert "-" == ['-'];
    CharAbsent(language, '-');
    CountryLocaleRoundTrip("-", language, country);
    CountryBasedCandidates(env, locale);
  }

  /** A fallback locale that is set and truthy is the one candidate of `ConfigFallbackLocale`. */
  lemma FallbackProposed(env: Env, locale: string, fallback: string)
    requires env.fallbackLocale == Some(fallback) && !Falsy(fallback)
    ensures Candidates(ConfigFallbackLocale, env, locale) == [fallback]
  {
    ConfigFallbackCandidates(env, locale);
  }

  /** No fallback locale: `ConfigFallbackLocale` proposes nothing. */
  lemma NoFallbackProposed(env: Env, locale: string)
    requires env.fallbackLocale == None
    ensures Candidates(ConfigFallbackLocale, env, locale) == []
  {
    ConfigFallbackCandidates(env, locale);
  }

  /** The candidate loop returns the row of its first candidate when that locale is unchecked and has a row. */
  lemma TryHit(s: Subject, cs: seq<string>, checked: seq<string>, t: Translation)
    requires cs != [] && cs[0] !in checked && FirstWhere(s.translations, cs[0]) == Some(t)
    ensures TryCandidates(s, cs, checked, None).found == Some(t)
  {
  }

  /** The loop moves past a checked candidate without recording anything. */
  lemma TrySkip(s: Subject, cs: seq<string>, checked: seq<string>)
    requires cs != [] && cs[0] in checked
    ensures TryCandidates(s, cs, checked, None) == TryCandidates(s, cs[1..], checked, None)
  {
  }

  /** The loop records an unchecked candidate without a row and moves on. */
  lemma TryMiss(s: Subject, cs: seq<string>, checked: seq<string>)
    requires cs != [] && cs[0] !in checked && FirstWhere(s.translations, cs[0]) == None
    ensures TryCandidates(s, cs, checked, None) == TryCandidates(s, cs[1..], checked + [cs[0]], None)
  {
  }

  /** The requested locale without a row is recorded and yields nothing. */
  lemma GivenMiss(s: Subject, locale: string)
    requires FirstWhere(s.translations, locale) == None
    ensures ByLocale(s, locale, [], None) == Lookup(None, [locale])
  {
  }

  /** The requested locale has no row, and its language has row `t`: the language's row is returned. */
  lemma LanguageRowWins(s: Subject, env: Env, locale: string, language: string, t: Translation)
    requires FirstWhere(s.translations, locale) == None && language != locale
    requires Candidates(CountryBasedLocale, env, locale) == [language]
    requires FirstWhere(s.translations, language) == Some(t)
    ensures ChainResolution(DefaultChain, s, env, locale, true, [], None).found == Some(t)
  {
    DefaultChainUnrolled(s, env, locale, None);
    GivenMiss(s, locale);
    TryHit(s, [language], [locale], t);
  }

  /**
   * Neither the requested locale nor its language (if any) has a row, and
   * the fallback locale has row `t`: the fallback locale's row is returned.
   */
  lemma FallbackRowWins(s: Subject, env: Env, locale: string, languages: seq<string>, fallback: string, t: Translation)
    requires FirstWhere(s.translations, locale) == None
    requires Candidates(CountryBasedLocale, env, locale) == languages && |languages| <= 1
    requires forall l :: l in languages ==> l != locale && FirstWhere(s.translations, l) == None
    requires Candidates(ConfigFallbackLocale, env, locale) == [fallback] && fallback != locale && fallback !in languages
    requires FirstWhere(s.translations, fallback) == Some(t)
    ensures ChainResolution(DefaultChain, s, env, locale, true, [], None).found == Some(t)
  {
    DefaultChainUnrolled(s, env, locale, None);
    GivenMiss(s, locale);
    if languages != [] {
      TryMiss(s, languages, [locale]);
      assert languages[1..] == [];
      TryHit(s, [fallback], [locale] + [languages[0]], t);
    } else {
      TryHit(s, [fallback], [locale], t);
    }
  }

  // ---------------------------------------------------------------------------
  // it_returns_default_translation

  /**
   * With fallback locale `de` and only a `de` row, `getTranslation('ch', true)`
   * returns the `de` row and `getTranslation('ch', false)` returns null.
   */
  lemma ReturnsDefaultTranslation(s: Subject, env: Env)
    requires s.translations == [NameRow("de", "Erbsen")]
    requires Separator(env.localeSeparator) == "-" && env.fallbackLocale == Some("de")
    ensures ChainResolution(DefaultChain, s, env, "ch", true, [], None).found == Some(NameRow("de", "Erbsen"))
    ensures ChainResolution(DefaultChain, s, env, "ch", false, [], None).found == None
  {
    NoLanguage(env, "ch");
    FallbackProposed(env, "ch", "de");
    FirstWhereMissing(s.translations, "ch");
    FirstWhereAt(s.translations, "de", 0);
    FallbackRowWins(s, env, "ch", [], "de", NameRow("de", "Erbsen"));
    ChainNoFallback(DefaultChain, s, env, "ch", [], None);
  }

  // ---------------------------------------------------------------------------
  // fallback_for_country_based_locales

  /**
   * Rows `fr`, `en-GB`, `en` and fallback locale `fr`: `en-US` resolves to
   * the `en` row, its language, before the configured fallback.
   */
  lemma CountryBasedBeforeConfigured(s: Subject, env: Env)
    requires s.translations == [NameRow("fr", "Frites"), NameRow("en-GB", "Chips"), NameRow("en", "French fries")]
    requires Separator(env.localeSeparator) == "-" && env.fallbackLocale == Some("fr")
    requires env.locales == ["en", "en-US", "en-GB", "fr"]
    ensures ChainResolution(DefaultChain, s, env, "en-US", true, [], None).found == Some(NameRow("en", "French fries"))
  {
    LanguageProposed(env, "en", "US", "en-US");
    FirstWhereMissing(s.translations, "en-US");
    FirstWhereAt(s.translations, "en", 2);
    LanguageRowWins(s, env, "en-US", "en", NameRow("en", "French fries"));
  }

  // ---------------------------------------------------------------------------
  // fallback_for_country_based_locales_with_no_base_locale

  /**
   * Rows `en`, `pt-PT` and fallback locale `en`: `pt-BR` has no `pt` row to
   * fall back to, so the configured fallback `en` is returned.
   */
  lemma CountryBasedWithoutLanguageRow(s: Subject, env: Env)
    requires s.translations == [NameRow("en", "Chips"), NameRow("pt-PT", "Batatas fritas")]
    requires Separator(env.localeSeparator) == "-" && env.fallbackLocale == Some("en")
    requires env.locales == ["pt", "pt-PT", "pt-BR", "en"]
    ensures ChainResolution(DefaultChain, s, env, "pt-BR", true, [], None).found == Some(NameRow("en", "Chips"))
  {
    LanguageProposed(env, "pt", "BR", "pt-BR");
    FallbackProposed(env, "pt-BR", "en");
    FirstWhereMissing(s.translations, "pt-BR");
    FirstWhereMissing(s.translations, "pt");
    FirstWhereAt(s.translations, "en", 0);
    FallbackRowWins(s, env, "pt-BR", ["pt"], "en", NameRow("en", "Chips"));
  }

  // ---------------------------------------------------------------------------
  // it_returns_first_existing_translation_as_fallback

  /** Rows `en`, `de`, `de-DE`, created in that order. */
  function GreeceRows(): seq<Translation>
  {
    [NameRow("en", "Greece"), NameRow("de", "Griechenland"), NameRow("de-DE", "Griechenland")]
  }

  /** With current locale `xyz` and no fallback locale, fallback off finds nothing. */
  lemma FirstAvailableNeedsFallback(s: Subject, env: Env)
    requires s.translations == GreeceRows()
    ensures ChainResolution(DefaultChain, s, env, "xyz", false, [], None).found == None
  {
    FirstWhereMissing(s.translations, "xyz");
    ChainNoFallback(DefaultChain, s, env, "xyz", [], None);
  }

  /**
   * The first three resolvers find nothing for `xyz` without a fallback
   * locale, so the first available registry locale decides.
   */
  lemma OnlyFirstAvailableProposes(s: Subject, env: Env)
    requires FirstWhere(s.translations, "xyz") == None
    requires Separator(env.localeSeparator) == "-" && env.fallbackLocale == None
    requires forall i :: 0 <= i < |env.locales| ==> !Falsy(env.locales[i])
    ensures ChainResolution(DefaultChain, s, env, "xyz", true, [], None) == TryCandidates(s, env.locales, ["xyz"], None)
  {
    NoLanguage(env, "xyz");
    NoFallbackProposed(env, "xyz");
    TruthyOnlyAll(env.locales);
    FirstAvailableCandidates(env, "xyz");
    DefaultChainUnrolled(s, env, "xyz", None);
    GivenMiss(s, "xyz");
  }

  /** Registry `xyz, en, de, de-DE, de-AT, fr, el`: `xyz` falls back to the first locale with a row, `en`. */
  lemma FirstAvailableInRegistryOrder(s: Subject, env: Env)
    requires s.translations == GreeceRows()
    requires Separator(env.localeSeparator) == "-" && env.fallbackLocale == None
    requires env.locales == ["xyz", "en", "de", "de-DE", "de-AT", "fr", "el"]
    ensures ChainResolution(DefaultChain, s, env, "xyz", true, [], None).found == Some(NameRow("en", "Greece"))
  {
    FirstWhereMissing(s.translations, "xyz");
    FirstWhereAt(s.translations, "en", 0);
    OnlyFirstAvailableProposes(s, env);
    TrySkip(s, env.locales, ["xyz"]);
    TryHit(s, env.locales[1..], ["xyz"], NameRow("en", "Greece"));
  }

  /** `de-AT` still falls back to its language `de`, ahead of the registry's first locale. */
  lemma CountryLocaleFallsBackToLanguage(s: Subject, env: Env)
    requires s.translations == GreeceRows()
    requires Separator(env.localeSeparator) == "-" && env.fallbackLocale == None
    requires env.locales == ["xyz", "en", "de", "de-DE", "de-AT", "fr", "el"]
    ensures ChainResolution(DefaultChain, s, env, "de-AT", true, [], None).found == Some(NameRow("de", "Griechenland"))
  {
    LanguageProposed(env, "de", "AT", "de-AT");
    FirstWhereMissing(s.translations, "de-AT");
    FirstWhereAt(s.translations, "de", 1);
    LanguageRowWins(s, env, "de-AT", "de", NameRow("de", "Griechenland"));
  }

  /** Registry reordered to `xyz, de, de-DE, de-AT, en, fr, el`: `xyz` now falls back to `de`. */
  lemma FirstAvailableFollowsReload(s: Subject, env: Env)
    requires s.translations == GreeceRows()
    requires Separator(env.localeSeparator) == "-" && env.fallbackLocale == None
    requires env.locales == ["xyz", "de", "de-DE", "de-AT", "en", "fr", "el"]
    ensures ChainResolution(DefaultChain, s, env, "xyz", true, [], None).found == Some(NameRow("de", "Griechenland"))
  {
    FirstWhereMissing(s.translations, "xyz");
    FirstWhereAt(s.translations, "de", 1);
    OnlyFirstAvailableProposes(s, env);
    TrySkip(s, env.locales, ["xyz"]);
    TryHit(s, env.locales[1..], ["xyz"], NameRow("de", "Griechenland"));
  }

  /** Once the `de` row is deleted, the country locale `de-DE` comes before the next plain locale `en`. */
  lemma CountryLocaleBeforeNextLanguage(s: Subject, env: Env)
    requires s.translations == [NameRow("en", "Greece"), NameRow("de-DE", "Griechenland")]
    requires Separator(env.localeSeparator) == "-" && env.fallbackLocale == None
    requires env.locales == ["xyz", "de", "de-DE", "de-AT", "en", "fr", "el"]
    ensures ChainResolution(DefaultChain, s, env, "xyz", true, [], None).found == Some(NameRow("de-DE", "Griechenland"))
  {
    FirstWhereMissing(s.translations, "xyz");
    FirstWhereMissing(s.translations, "de");
    FirstWhereAt(s.translations, "de-DE", 1);
    OnlyFirstAvailableProposes(s, env);
    var rest := env.locales[1..];
    TrySkip(s, env.locales, ["xyz"]);
    TryMiss(s, rest, ["xyz"]);
    assert ["xyz"] + [rest[0]] == ["xyz", "de"];
    TryHit(s, rest[1..], ["xyz", "de"], NameRow("de-DE", "Griechenland"));
  }
}
