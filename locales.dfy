/**
 * The locale registry (class `Locales`): an insertion-ordered set of locale
 * strings built from `translatable.locales`, the locale separator, the
 * current locale and the country-locale helpers.
 */
module LocalesRegistry {
  import opened Common
  import opened Strings
  import opened Configuration

  // ---------------------------------------------------------------------------
  // Locale strings and the separator

  /** `getLocaleSeparator`: the configured separator, or `-` when it is unset or falsy. */
  function Separator(configured: Option<string>): (sep: string)
    ensures |sep| > 0
    ensures Truthy(configured) ==> sep == configured.value
    ensures !Truthy(configured) ==> sep == "-"
  {
    OrElse(configured, "-")
  }

  /** `getCountryLocale`: language, separator, country. */
  function CountryLocale(sep: string, language: string, country: string): string
  {
    language + sep + country
  }

  /** `isLocaleCountryBased`: the separator occurs in the locale. */
  predicate IsCountryBased(sep: string, locale: string)
  {
    Contains(locale, sep)
  }

  /**
   * `getLanguageFromCountryBasedLocale`: the first piece of `explode(sep, locale)`,
   * i.e. the part before the first separator, or the whole locale if there is none.
   */
  function LanguageOf(sep: string, locale: string): (language: string)
    requires |sep| > 0
    ensures IsPrefix(language, locale) && !Contains(language, sep)
    ensures IsCountryBased(sep, locale) ==> OccursAt(locale, sep, |language|)
    ensures !IsCountryBased(sep, locale) ==> language == locale
  {
    ExplodeHead(sep, locale);
    Explode(sep, locale)[0]
  }

  /** With a one-character separator, the language of a composed country locale is the language. */
  lemma CountryLocaleRoundTrip(sep: string, language: string, country: string)
    requires |sep| == 1 && !Contains(language, sep)
    ensures IsCountryBased(sep, CountryLocale(sep, language, country))
    ensures LanguageOf(sep, CountryLocale(sep, language, country)) == language
  {
    var w := CountryLocale(sep, language, country);
    assert OccursAt(w, sep, |language|) by { assert w[|language|..|language| + 1] == sep; }
    FirstPieceOfJoin(sep, language, country);
  }

  /** With a longer separator the round trip can fail: `a-` joined by `--` splits at index 1. */
  lemma CountryLocaleRoundTripNeedsShortSeparator()
    ensures !Contains("a-", "--")
    ensures LanguageOf("--", CountryLocale("--", "a-", "GB")) == "a"
  {
    assert "a-"[0..2] != "--" by { assert "a-"[0..2][0] == 'a'; }
    assert IndexFrom("a-", "--", 0) == None;
    var w := CountryLocale("--", "a-", "GB");
    assert w == "a---GB";
    assert !OccursAt(w, "--", 0);
    assert OccursAt(w, "--", 1);
    assert IndexOf(w, "--") == Some(1);
  }

  // ---------------------------------------------------------------------------
  // The table: a PHP array keyed by the locale itself, kept as the sequence of its values

  /** `$locales[$l] = $l`: a new locale goes to the end; a present one stays where it is. */
  function Inserted(table: seq<string>, l: string): (r: seq<string>)
    ensures l in table ==> r == table
    ensures l !in table ==> r == table + [l]
    ensures NoDuplicates(table) ==> NoDuplicates(r)
    ensures forall m :: m in r <==> m in table || m == l
  {
    if l in table then table else table + [l]
  }

  /** `unset($locales[$l])`. */
  function Removed(table: seq<string>, l: string): (r: seq<string>)
    ensures l !in r
    ensures forall m :: m != l ==> (m in r <==> m in table)
    ensures NoDuplicates(table) ==> NoDuplicates(r)
    ensures |r| <= |table|
  {
    if table == [] then []
    else if table[0] == l then Removed(table[1..], l)
    else
      var rest := Removed(table[1..], l);
      assert NoDuplicates(table) ==> NoDuplicates(table[1..]) && table[0] !in table[1..];
      [table[0]] + rest
  }

  /** Unsetting a locale that is not registered leaves the table as it was. */
  lemma {:induction false} RemovedAbsent(table: seq<string>, l: string)
    requires l !in table
    ensures Removed(table, l) == table
  {
    if table != [] {
      RemovedAbsent(table[1..], l);
    }
  }

  /** Unsetting the locale at position `i` of a duplicate-free table cuts out
      exactly that position: the others keep their order. */
  lemma {:induction false} RemovedAt(table: seq<string>, l: string, i: int)
    requires NoDuplicates(table)
    requires 0 <= i < |table| && table[i] == l
    ensures Removed(table, l) == table[..i] + table[i + 1..]
  {
    if i == 0 {
      assert l !in table[1..];
      RemovedAbsent(table[1..], l);
    } else {
      assert NoDuplicates(table[1..]);
      RemovedAt(table[1..], l, i - 1);
      assert table[..i] == [table[0]] + table[1..][..i - 1];
      assert table[i + 1..] == table[1..][i..];
    }
  }

  /** Inserting `xs` one after another. */
  function InsertedAll(table: seq<string>, xs: seq<string>): (r: seq<string>)
    ensures forall m :: m in r <==> m in table || m in xs
    ensures NoDuplicates(table) ==> NoDuplicates(r)
    decreases |xs|
  {
    if xs == [] then table else Inserted(InsertedAll(table, xs[..|xs| - 1]), xs[|xs| - 1])
  }

  /** The position of the first occurrence of `x` in `xs`. */
  function FirstPosition(xs: seq<string>, x: string): (k: nat)
    requires x in xs
    ensures k < |xs| && xs[k] == x && x !in xs[..k]
  {
    if xs[0] == x then 0 else 1 + FirstPosition(xs[1..], x)
  }

  /**
   * Inserting a list into the empty table keeps each locale once, in the
   * order of its first occurrence in the list.
   */
  lemma {:induction false} InsertedAllOrder(xs: seq<string>)
    ensures NoDuplicates(InsertedAll([], xs))
    ensures forall m :: m in InsertedAll([], xs) <==> m in xs
    ensures forall i, j :: 0 <= i < j < |InsertedAll([], xs)| ==>
      FirstPosition(xs, InsertedAll([], xs)[i]) < FirstPosition(xs, InsertedAll([], xs)[j])
    decreases |xs|
  {
    if xs != [] {
      var init := xs[..|xs| - 1];
      var y := xs[|xs| - 1];
      assert xs == init + [y];
      InsertedAllOrder(init);
      InsertedInOrder(init, y, InsertedAll([], init));
    }
  }

  /** Inserting the next locale of a list keeps the table in first-occurrence order. */
  lemma InsertedInOrder(init: seq<string>, y: string, t: seq<string>)
    requires NoDuplicates(t) && forall m :: m in t <==> m in init
    requires forall i, j :: 0 <= i < j < |t| ==> FirstPosition(init, t[i]) < FirstPosition(init, t[j])
    ensures NoDuplicates(Inserted(t, y)) && forall m :: m in Inserted(t, y) <==> m in init + [y]
    ensures forall i, j :: 0 <= i < j < |Inserted(t, y)| ==>
      FirstPosition(init + [y], Inserted(t, y)[i]) < FirstPosition(init + [y], Inserted(t, y)[j])
  {
    var xs := init + [y];
    forall m | m in init ensures FirstPosition(xs, m) == FirstPosition(init, m) {
      FirstPositionPrefix(init, [y], m);
    }
    if y !in t {
      assert y !in init;
      assert FirstPosition(xs, y) == |init|;
    }
  }

  lemma {:induction false} FirstPositionPrefix(xs: seq<string>, ys: seq<string>, x: string)
    requires x in xs
    ensures FirstPosition(xs + ys, x) == FirstPosition(xs, x)
    decreases |xs|
  {
    if xs[0] != x {
      assert (xs + ys)[1..] == xs[1..] + ys;
      FirstPositionPrefix(xs[1..], ys, x);
    }
  }

  /** The locales one configuration entry contributes, in order. */
  function EntryLocales(sep: string, e: LocaleEntry): seq<string>
  {
    match (e.key, e.value)
    case (StringKey(language), Countries(codes)) => [language] + CountryLocales(sep, language, codes)
    case (_, Plain(l)) => [l]
    case (_, _) => []
  }

  function CountryLocales(sep: string, language: string, codes: seq<string>): seq<string>
  {
    if codes == [] then []
    else CountryLocales(sep, language, codes[..|codes| - 1]) + [CountryLocale(sep, language, codes[|codes| - 1])]
  }

  /** The locales of a configuration, entry by entry, with repetitions. */
  function ConfiguredLocales(sep: string, entries: seq<LocaleEntry>): seq<string>
  {
    if entries == [] then []
    else ConfiguredLocales(sep, entries[..|entries| - 1]) + EntryLocales(sep, entries[|entries| - 1])
  }

  /** The table `load()` builds from `entries`. */
  function LoadedLocales(sep: string, entries: seq<LocaleEntry>): (r: seq<string>)
    ensures NoDuplicates(r)
    ensures forall l :: l in r <==> l in ConfiguredLocales(sep, entries)
  {
    InsertedAll([], ConfiguredLocales(sep, entries))
  }

  lemma {:induction false} InsertedAllAppend(table: seq<string>, xs: seq<string>, ys: seq<string>)
    ensures InsertedAll(table, xs + ys) == InsertedAll(InsertedAll(table, xs), ys)
    decreases |ys|
  {
    if ys != [] {
      var init := ys[..|ys| - 1];
      assert (xs + ys)[..|xs + ys| - 1] == xs + init;
      assert (xs + ys)[|xs + ys| - 1] == ys[|ys| - 1];
      InsertedAllAppend(table, xs, init);
    } else {
      assert xs + ys == xs;
    }
  }

  /** The table after `i + 1` entries is the table after `i` entries with entry `i`'s locales inserted. */
  lemma LoadedLocalesStep(sep: string, entries: seq<LocaleEntry>, i: nat)
    requires i < |entries|
    ensures LoadedLocales(sep, entries[..i + 1]) == InsertedAll(LoadedLocales(sep, entries[..i]), EntryLocales(sep, entries[i]))
  {
    assert entries[..i + 1][..i] == entries[..i];
    InsertedAllAppend([], ConfiguredLocales(sep, entries[..i]), EntryLocales(sep, entries[i]));
  }

  /**
   * A locale is registered after `load()` exactly when a configuration entry
   * names it: a plain string value, a string key with a countries list, or
   * such a key joined by the separator to one of its countries.
   */
  lemma LoadedLocalesMembers(sep: string, entries: seq<LocaleEntry>, l: string)
    ensures l in LoadedLocales(sep, entries) <==> exists i :: 0 <= i < |entries| && l in EntryLocales(sep, entries[i])
  {
    InsertedAllMembers(ConfiguredLocales(sep, entries), l);
    ConfiguredLocalesMembers(sep, entries, l);
  }

  /** Inserting keeps exactly the locales of the list. */
  lemma InsertedAllMembers(xs: seq<string>, m: string)
    ensures m in InsertedAll([], xs) <==> m in xs
  {
    InsertedAllOrder(xs);
  }

  lemma ConfiguredLocalesMembers(sep: string, entries: seq<LocaleEntry>, l: string)
    ensures l in ConfiguredLocales(sep, entries) <==> exists i :: 0 <= i < |entries| && l in EntryLocales(sep, entries[i])
  {
    if l in ConfiguredLocales(sep, entries) {
      ConfiguredNamed(sep, entries, l);
    } else {
      forall i | 0 <= i < |entries| ensures l !in EntryLocales(sep, entries[i]) {
        if l in EntryLocales(sep, entries[i]) { NamedConfigured(sep, entries, i, l); }
      }
    }
  }

  lemma {:induction false} ConfiguredNamed(sep: string, entries: seq<LocaleEntry>, l: string)
    requires l in ConfiguredLocales(sep, entries)
    ensures exists i :: 0 <= i < |entries| && l in EntryLocales(sep, entries[i])
    decreases |entries|
  {
    var n := |entries| - 1;
    if l !in EntryLocales(sep, entries[n]) {
      var init := entries[..n];
      ConfiguredNamed(sep, init, l);
      var i :| 0 <= i < |init| && l in EntryLocales(sep, init[i]);
      assert entries[i] == init[i];
    }
  }

  lemma {:induction false} NamedConfigured(sep: string, entries: seq<LocaleEntry>, i: nat, l: string)
    requires i < |entries| && l in EntryLocales(sep, entries[i])
    ensures l in ConfiguredLocales(sep, entries)
    decreases |entries|
  {
    var n := |entries| - 1;
    if i < n {
      var init := entries[..n];
      assert entries[i] == init[i];
      NamedConfigured(sep, init, i, l);
    }
  }

  lemma {:induction false} CountryLocalesMembers(sep: string, language: string, codes: seq<string>, l: string)
    ensures l in CountryLocales(sep, language, codes) <==> exists c :: c in codes && l == CountryLocale(sep, language, c)
    decreases |codes|
  {
    if codes != [] {
      var init := codes[..|codes| - 1];
      CountryLocalesMembers(sep, language, init, l);
      assert codes == init + [codes[|codes| - 1]];
      if exists c :: c in init && l == CountryLocale(sep, language, c) {
        var c :| c in init && l == CountryLocale(sep, language, c);
        assert c in codes;
      }
    }
  }

  // ---------------------------------------------------------------------------
  // The registry object

  class Locales {
    /** The configuration repository the registry reads on every call. */
    var config: Config
    /** The translator's current locale, used when `translatable.locale` is not set. */
    var translatorLocale: string
    /** `$this->locales`, as the sequence of its values in insertion order. */
    var locales: seq<string>

    ghost predicate Valid()
      reads this
    {
      NoDuplicates(locales)
    }

    /** The fields before `load()` runs. */
    constructor (config: Config, translatorLocale: string)
      ensures Valid() && this.config == config && this.translatorLocale == translatorLocale && locales == []
    {
      this.config := config;
      this.translatorLocale := translatorLocale;
      locales := [];
    }

    /** `new Locales($config, $translator)`: the constructor runs `load()`, which may throw. */
    static method Create(config: Config, translatorLocale: string) returns (r: Result<Locales, Error>)
      ensures r.Failure? <==> config.locales == []
      ensures r.Failure? ==> r.error == LocalesNotDefined
      ensures r.Success? ==> fresh(r.value) && r.value.Valid() && r.value.config == config
      ensures r.Success? ==> r.value.translatorLocale == translatorLocale
      ensures r.Success? ==> r.value.locales == LoadedLocales(Separator(config.localeSeparator), config.locales)
    {
      var registry := new Locales(config, translatorLocale);
      var outcome := registry.Load();
      if outcome.Fail? {
        return Failure(outcome.error);
      }
      return Success(registry);
    }

    method Add(locale: string)
      requires Valid()
      modifies this`locales
      ensures Valid()
      ensures locales == Inserted(old(locales), locale)
    {
      locales := Inserted(locales, locale);
    }

    /** `all()`: the registered locales in insertion order. */
    function All(): (r: seq<string>)
      reads this
      ensures forall l :: l in r <==> Has(l)
      ensures Valid() ==> NoDuplicates(r)
    {
      locales
    }

    /** `current()`: `translatable.locale` when truthy, else the translator's locale. */
    function Current(): (l: string)
      reads this
      ensures Truthy(config.locale) ==> l == config.locale.value
      ensures !Truthy(config.locale) ==> l == translatorLocale
    {
      OrElse(config.locale, translatorLocale)
    }

    method Forget(locale: string)
      requires Valid()
      modifies this`locales
      ensures Valid()
      ensures locales == Removed(old(locales), locale)
    {
      locales := Removed(locales, locale);
    }

    /** `get($locale)`: the locale itself when registered, else null. */
    function Get(locale: string): (r: Option<string>)
      reads this
      ensures r.Some? <==> Has(locale)
      ensures r.Some? ==> r.value == locale
    {
      if locale in locales then Some(locale) else None
    }

    /**
     * `getCountryLocale`: with a one-character separator absent from the
     * language, the result is country-based and its language is the language.
     */
    function GetCountryLocale(language: string, country: string): (l: string)
      reads this
      ensures |GetLocaleSeparator()| == 1 && !Contains(language, GetLocaleSeparator()) ==>
        IsLocaleCountryBased(l) && GetLanguageFromCountryBasedLocale(l) == language
    {
      var sep := GetLocaleSeparator();
      if |sep| == 1 && !Contains(language, sep) then
        CountryLocaleRoundTrip(sep, language, country);
        CountryLocale(sep, language, country)
      else
        CountryLocale(sep, language, country)
    }

    /**
     * `getLanguageFromCountryBasedLocale`: the separator-free prefix before the
     * first separator; a locale without the separator is returned whole.
     */
    function GetLanguageFromCountryBasedLocale(locale: string): (language: string)
      reads this
      ensures IsPrefix(language, locale) && !Contains(language, GetLocaleSeparator())
      ensures IsLocaleCountryBased(locale) ==> OccursAt(locale, GetLocaleSeparator(), |language|)
      ensures !IsLocaleCountryBased(locale) ==> language == locale
    {
      LanguageOf(GetLocaleSeparator(), locale)
    }

    /** `getLocaleSeparator`: `translatable.locale_separator` when truthy, else `-`. */
    function GetLocaleSeparator(): (sep: string)
      reads this
      ensures |sep| > 0
      ensures Truthy(config.localeSeparator) ==> sep == config.localeSeparator.value
      ensures !Truthy(config.localeSeparator) ==> sep == "-"
    {
      Separator(config.localeSeparator)
    }

    /** `has($locale)`: the locale is one of those `all()` lists. */
    predicate Has(locale: string)
      reads this
      ensures Has(locale) <==> exists i :: 0 <= i < |locales| && locales[i] == locale
    {
      locale in locales
    }

    /** `isLocaleCountryBased`: the separator occurs somewhere in the locale. */
    predicate IsLocaleCountryBased(locale: string)
      reads this
      ensures IsLocaleCountryBased(locale) <==> exists j: nat :: OccursAt(locale, GetLocaleSeparator(), j)
    {
      IndexOfSpec(locale, GetLocaleSeparator());
      IsCountryBased(GetLocaleSeparator(), locale)
    }

    /**
     * `load()`: with no configured locales it throws before touching the
     * table; otherwise it rebuilds the table from the configuration.
     */
    method Load() returns (r: Outcome<Error>)
      modifies this`locales
      ensures config.locales == [] ==> r == Fail(LocalesNotDefined) && locales == old(locales)
      ensures config.locales != [] ==> r == Pass && Valid()
      ensures config.locales != [] ==> locales == LoadedLocales(GetLocaleSeparator(), config.locales)
    {
      var entries := config.locales;
      if |entries| == 0 {
        return Fail(LocalesNotDefined);
      }
      ghost var sep := GetLocaleSeparator();
      locales := [];
      assert entries[..0] == [];
      for i := 0 to |entries|
        invariant config.locales == entries
        invariant locales == LoadedLocales(sep, entries[..i])
        invariant Valid()
      {
        LoadEntry(entries[i]);
        LoadedLocalesStep(sep, entries, i);
      }
      assert entries[..|entries|] == entries;
      return Pass;
    }

    /** One round of the loop in `load()`: the locales of entry `e`, added in order. */
    method LoadEntry(e: LocaleEntry)
      requires Valid()
      modifies this`locales
      ensures Valid()
      ensures locales == InsertedAll(old(locales), EntryLocales(GetLocaleSeparator(), e))
    {
      ghost var sep := GetLocaleSeparator();
      match (e.key, e.value) {
        case (StringKey(language), Countries(codes)) =>
          Add(language);
          assert [language][..0] == [];
          for j := 0 to |codes|
            invariant Valid()
            invariant locales == InsertedAll(old(locales), [language] + CountryLocales(sep, language, codes[..j]))
          {
            var countryLocale := GetCountryLocale(language, codes[j]);
            Add(countryLocale);
            assert codes[..j + 1][..j] == codes[..j];
            ghost var xs := [language] + CountryLocales(sep, language, codes[..j]);
            assert [language] + CountryLocales(sep, language, codes[..j + 1]) == xs + [countryLocale];
            assert (xs + [countryLocale])[..|xs|] == xs;
          }
          assert codes[..|codes|] == codes;
        case (_, Plain(l)) =>
          Add(l);
          assert [l][..0] == [];
        case (_, _) =>
      }
    }

    /**
     * `$locales[$key] = $value`: a string key and value add the country
     * locale `key<sep>value`; a string value alone adds itself; anything else
     * changes nothing. `None` stands for null or a non-string.
     */
    method OffsetSet(key: Option<string>, value: Option<string>)
      requires Valid()
      modifies this`locales
      ensures Valid()
      ensures key.Some? && value.Some? ==> locales == Inserted(old(locales), GetCountryLocale(key.value, value.value))
      ensures key.None? && value.Some? ==> locales == Inserted(old(locales), value.value)
      ensures value.None? ==> locales == old(locales)
    {
      if key.Some? && value.Some? {
        Add(GetCountryLocale(key.value, value.value));
      } else if value.Some? {
        Add(value.value);
      }
    }

    /** `unset($locales[$key])`. */
    method OffsetUnset(key: string)
      requires Valid()
      modifies this`locales
      ensures Valid()
      ensures locales == Removed(old(locales), key)
    {
      Forget(key);
    }
  }
}
