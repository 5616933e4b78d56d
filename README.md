# laravel-translatable, modelled in Dafny

This project models the core of the Astrotomic `laravel-translatable` package.
It covers six parts:

- **The locale registry** (`Locales`). An insertion-ordered set of locale
  strings, built from `translatable.locales`. A `language => [countries]`
  entry expands to the language and then to `language<sep>country` for each
  country.
- **The translation resolvers** and the chain that uses them. `GivenLocale`,
  `CountryBasedLocale`, `ConfigFallbackLocale` and `FirstAvailableLocale` each
  propose locales. A caller-owned list of checked locales is threaded through
  every lookup, so no locale is looked up twice. The first row found wins.
  The attribute-aware variant also rejects a row whose value is empty under an
  overridable policy.
- **The `Translatable` trait.** It splits `attr:locale` keys and chooses the
  effective locale (the enforced locale, else the registry's current locale).
  It routes reads, writes and `fill` to translation rows, creating rows on
  demand. It also answers exact-match queries, flattens the rows to a
  `locale => attr => value` array, deletes rows by locale, and saves dirty rows
  until the first failed save.
- **`RuleFactory`.** Validation rules whose keys hold a `prefix name suffix`
  placeholder are expanded once per locale. The placeholder becomes
  `locale.name` (array format) or `name:locale` (key format). The same rewrite
  is applied inside rule strings, which are split on `|`, and element by
  element inside rule arrays.
- **`TranslatableFormRequest::makeRulesByLocales`.** Each rule key becomes
  `required|array`, plus a copy of its rule under `key.locale` for each
  registered locale.
- **Scenarios** from the package's tests, stated as lemmas.

Modules, one per file:

| File | Module | Contents |
|---|---|---|
| `common.dfy` | `Common` | Option/Result/Outcome, the package's exceptions as `Error`, PHP values with `empty()`, PHP truthiness of strings |
| `strings.dfy` | `Strings` | `strpos`, `explode`, `implode` and their laws |
| `ordered_map.dfy` | `OrderedMap` | PHP arrays with string keys: ordered entries, `$m[$k] = $v` |
| `config.dfy` | `Configuration` | the `translatable.*` configuration values |
| `translations.dfy` | `Translations` | translation rows and `firstWhere` on the locale column |
| `locales.dfy` | `LocalesRegistry` | class `Locales` |
| `resolvers.dfy` | `TranslationResolvers` | the resolvers, the candidate loop and the chain |
| `translatable.dfy` | `TranslatableTrait` | class `Translatable` (the model using the trait) and its row operations |
| `rule_factory.dfy` | `Validation` | class `RuleFactory`, the placeholder pattern and its replacement |
| `form_request.dfy` | `FormRequest` | `makeRulesByLocales` |
| `scenarios.dfy` | `Scenarios` | test expectations proved on the model |
| `resolver_scenarios.dfy` | `ResolverScenarios` | the fallback tests, resolved through the default resolver chain |

How state is modelled:

- State the source changes in place is a class field with `modifies` frames:
  - the registry's locale table;
  - a model's rows, enforced locale and own attributes;
  - the factory's format, delimiters and locales.
- Each method is proved against a function of its inputs and old state
  (`LoadedLocales`, `ChainResolution`, `SaveRows`, `TranslationsArray`,
  `ParseRules`, `RulesByLocales`, ...).
- The properties the package promises are proved as lemmas about those
  functions.
- The resolvers' mutable checked collection is a `seq<string>` threaded
  through each call; the methods `Resolve` and `RunChain` carry the loops.
- Outside effects are parameters:
  - the translator's current locale, the configuration repository and the
    emptiness policy are fields of the objects;
  - a row's `save()` is a function `Translation -> bool` passed to
    `SaveTranslations`.

## Behaviour worth noting

- **Property fallback** (`getAttributeOrFallback`, src/Translatable/Translatable.php:369-384).
  The read runs the attribute-aware chain once, with `usePropertyFallback()`
  as its fallback flag. A row whose cell the emptiness policy rejects makes
  the resolvers move on; there is no second pass that ignores emptiness.
- **Position of `GivenLocale`** (src/Translatable/Translatable.php:408-417).
  `getTranslationResolvers` puts it in front only when the configured list
  lacks it. A list that names it later runs it there.
- **Resolver order.** The chain is the configured `translationResolvers`
  list. `DefaultChain` is the order of the package's default configuration
  (`GivenLocale`, `CountryBasedLocale`, `ConfigFallbackLocale`,
  `FirstAvailableLocale`), which the fallback tests rely on. The
  configuration file itself is not part of this model.
- **Exact rows first.** A chain led by `GivenLocale` returns the exact row
  whenever it yields, with fallback on or off (`ExactRowWins`). With
  fallback off, any chain containing `GivenLocale` returns the exact row or
  null (`TranslationWithoutFallback`).

## Model

| member | source | states |
|---|---|---|
| LocalesRegistry.Separator | src/Translatable/Locales.php:71-74 | the configured separator when truthy, else `-`; never empty |
| LocalesRegistry.LanguageOf | src/Translatable/Locales.php:66-69 | the language is a separator-free prefix of the locale, ending at the first separator when there is one, and the whole locale otherwise |
| LocalesRegistry.CountryLocaleRoundTrip | src/Translatable/Locales.php:61-69 | with a one-character separator, `language<sep>country` is country-based and its language is `language` again |
| LocalesRegistry.CountryLocaleRoundTripNeedsShortSeparator | src/Translatable/Locales.php:61-69 | with the two-character separator `--`, the language `a-` composed with `GB` comes back as `a` |
| LocalesRegistry.Inserted | src/Translatable/Locales.php:36-39 | `$locales[$l] = $l` appends a new locale, leaves a present one in place, and never creates a duplicate |
| LocalesRegistry.InsertedAll | src/Translatable/Locales.php:36-39 | inserting a list one locale after another adds exactly its locales and never creates a duplicate |
| LocalesRegistry.Removed | src/Translatable/Locales.php:51-54 | after `unset` the locale is absent and every other locale keeps its membership |
| LocalesRegistry.RemovedAbsent | src/Translatable/Locales.php:51-54 | unsetting a locale that is not registered leaves the table unchanged |
| LocalesRegistry.RemovedAt | src/Translatable/Locales.php:51-54 | unsetting the locale at position `i` of a duplicate-free table removes exactly that position, so the other locales keep their order |
| LocalesRegistry.InsertedAllOrder | src/Translatable/Locales.php:36-44 | inserting a list keeps each locale once, exactly the list's locales, in first-occurrence order |
| LocalesRegistry.InsertedInOrder | src/Translatable/Locales.php:36-39 | one more insertion keeps the table duplicate-free and in first-occurrence order |
| LocalesRegistry.FirstPositionPrefix | src/Translatable/Locales.php:94-106 | the first position of a locale is not changed by what is added after it |
| LocalesRegistry.InsertedAllAppend | src/Translatable/Locales.php:94-106 | inserting `xs + ys` is inserting `xs`, then `ys` |
| LocalesRegistry.LoadedLocalesStep | src/Translatable/Locales.php:95-106 | the table after entry `i` is the table before it with that entry's locales inserted |
| LocalesRegistry.LoadedLocales | src/Translatable/Locales.php:94-106 | the table `load()` builds is duplicate-free and holds exactly the locales the configuration entries contribute |
| LocalesRegistry.LoadedLocalesMembers | src/Translatable/Locales.php:94-106 | after `load()` a locale is registered iff some configuration entry contributes it |
| LocalesRegistry.InsertedAllMembers | src/Translatable/Locales.php:94-106 | the table holds exactly the inserted locales |
| LocalesRegistry.ConfiguredLocalesMembers | src/Translatable/Locales.php:95-106 | a locale is in the configured sequence iff some entry contributes it |
| LocalesRegistry.ConfiguredNamed | src/Translatable/Locales.php:95-106 | every configured locale comes from some entry |
| LocalesRegistry.NamedConfigured | src/Translatable/Locales.php:95-106 | every locale an entry contributes is configured |
| LocalesRegistry.CountryLocalesMembers | src/Translatable/Locales.php:99-102 | the country locales of a language are exactly `language<sep>c` for its countries `c` |
| LocalesRegistry.Locales.constructor | src/Translatable/Locales.php:28-32 | the registry holds the configuration and translator locale, with an empty table |
| LocalesRegistry.Locales.Create | src/Translatable/Locales.php:28-34 | construction fails with `LocalesNotDefined` iff no locales are configured; otherwise the table is the loaded table |
| LocalesRegistry.Locales.Add | src/Translatable/Locales.php:36-39 | the table becomes `Inserted(old, locale)` and stays duplicate-free |
| LocalesRegistry.Locales.Forget | src/Translatable/Locales.php:51-54 | the table becomes `Removed(old, locale)` and stays duplicate-free; by RemovedAt the other locales keep their order |
| LocalesRegistry.Locales.All | src/Translatable/Locales.php:41-44 | `all()` lists exactly the locales `has` accepts, each once while the registry is valid |
| LocalesRegistry.Locales.Current | src/Translatable/Locales.php:46-49 | `translatable.locale` when truthy, else the translator's locale |
| LocalesRegistry.Locales.Get | src/Translatable/Locales.php:56-59 | the locale itself iff it is registered, else null |
| LocalesRegistry.Locales.GetCountryLocale | src/Translatable/Locales.php:61-64 | with a one-character separator absent from the language, the composed locale is country-based and its language is the language again |
| LocalesRegistry.Locales.GetLanguageFromCountryBasedLocale | src/Translatable/Locales.php:66-69 | a separator-free prefix of the locale, ending at its first separator, or the whole locale when it has none |
| LocalesRegistry.Locales.GetLocaleSeparator | src/Translatable/Locales.php:71-74 | `translatable.locale_separator` when truthy, else `-`; never empty |
| LocalesRegistry.Locales.Has | src/Translatable/Locales.php:76-79 | the membership test itself: `has` holds iff some position of the table holds the locale |
| LocalesRegistry.Locales.IsLocaleCountryBased | src/Translatable/Locales.php:81-84 | true iff the separator occurs somewhere in the locale |
| LocalesRegistry.Locales.Load | src/Translatable/Locales.php:86-107 | with no configured locales it fails with `LocalesNotDefined` and leaves the table unchanged; otherwise the table is `LoadedLocales` of the configuration |
| LocalesRegistry.Locales.LoadEntry | src/Translatable/Locales.php:96-105 | one entry adds a plain locale, or a language and then each country locale in order |
| LocalesRegistry.Locales.OffsetSet | src/Translatable/Locales.php:119-126 | string key and value add `key<sep>value`; only a string value adds the value; otherwise nothing changes |
| LocalesRegistry.Locales.OffsetUnset | src/Translatable/Locales.php:128-131 | the table becomes `Removed(old, key)`; by RemovedAt the other locales keep their order |
| Translations.NewTranslation | src/Translatable/Translatable.php:173-183 | a new row carries the locale and no dirty attributes |
| Translations.FirstIndex | src/Translatable/TranslationResolvers/BaseTranslationResolver.php:25 | the position of the first row of a locale, none iff no row has it |
| Translations.FirstWhereSpec | src/Translatable/TranslationResolvers/BaseTranslationResolver.php:25 | `firstWhere` finds a row iff some row has the locale, and it is the earliest such row |
| Translations.FirstWhereAppend | src/Translatable/Translatable.php:180 | appending rows does not change what a present locale resolves to |
| Translations.FirstWhereAt | src/Translatable/TranslationResolvers/BaseTranslationResolver.php:25 | a row of the locale with none before it is what `firstWhere` returns |
| Translations.FirstWhereMissing | src/Translatable/TranslationResolvers/BaseTranslationResolver.php:25 | `firstWhere` returns null when no row has the locale |
| TranslationResolvers.ResolveTranslationByLocale | src/Translatable/TranslationResolvers/BaseTranslationResolver.php:14-26 | a checked locale gives null and an unchanged list; otherwise the locale is appended once, and a row is returned iff one exists, the first of that locale |
| TranslationResolvers.ResolveTranslationWithAttributeByLocale | src/Translatable/TranslationResolvers/BaseTranslationResolver.php:28-45 | the same checked list as the plain lookup; a row iff the plain lookup found one whose attribute is not empty under the policy, and then the same row |
| TranslationResolvers.ByLocale | src/Translatable/TranslationResolvers/BaseTranslationResolver.php:14-45 | either variant: skips a checked locale, records an unchecked one, returns the first row iff it passes the attribute test |
| TranslationResolvers.SomeAll | src/Translatable/TranslationResolvers/FirstAvailableLocale.php:17-20 | the registry locales as non-null candidates, in order |
| TranslationResolvers.ArrayFilter | src/Translatable/TranslationResolvers/BaseFallbackResolver.php:28 | `array_filter` never grows the candidate list |
| TranslationResolvers.ArrayFilterMembers | src/Translatable/TranslationResolvers/BaseFallbackResolver.php:28 | a candidate survives the filter iff it was a non-null string other than `''` and `'0'` |
| TranslationResolvers.TruthyOnly | src/Translatable/TranslationResolvers/FirstAvailableLocale.php:17-20 | the truthy strings of a list, in order: a string is kept iff it is in the list and is not `''` or `'0'` |
| TranslationResolvers.Candidates | src/Translatable/TranslationResolvers/BaseFallbackResolver.php:28 | a resolver tries exactly the truthy strings among its proposed locales |
| TranslationResolvers.CountryBasedCandidates | src/Translatable/TranslationResolvers/CountryBasedLocale.php:17-24 | the only candidate is the language of a country-based locale, when truthy; a plain locale gives none |
| TranslationResolvers.ConfigFallbackCandidates | src/Translatable/TranslationResolvers/ConfigFallbackLocale.php:20-23 | the only candidate is the configured fallback locale, unless unset or falsy |
| TranslationResolvers.FirstAvailableCandidates | src/Translatable/TranslationResolvers/FirstAvailableLocale.php:17-20 | the candidates are the truthy registry locales, in registry order |
| TranslationResolvers.ArrayFilterSomeAll | src/Translatable/TranslationResolvers/FirstAvailableLocale.php:17-20 | filtering the registry list keeps its truthy locales in order |
| TranslationResolvers.TruthyOnlyAll | src/Translatable/TranslationResolvers/FirstAvailableLocale.php:17-20 | a registry without falsy locales is proposed whole |
| TranslationResolvers.TryCandidatesChecked | src/Translatable/TranslationResolvers/BaseFallbackResolver.php:28-40 | the candidate loop only appends candidates to the checked list and keeps it duplicate-free |
| TranslationResolvers.TryCandidatesFound | src/Translatable/TranslationResolvers/BaseFallbackResolver.php:28-40 | a row found is that of the first unchecked candidate that yields one; no later candidate is checked |
| TranslationResolvers.Winner | src/Translatable/TranslationResolvers/BaseFallbackResolver.php:28-37 | the winning candidate's position is within the candidates |
| TranslationResolvers.WinnerWins | src/Translatable/TranslationResolvers/BaseFallbackResolver.php:28-37 | every earlier candidate was checked or yields nothing, and the winner's first row is returned |
| TranslationResolvers.WinnerChecked | src/Translatable/TranslationResolvers/BaseFallbackResolver.php:28-37 | only candidates up to the winner are recorded as checked |
| TranslationResolvers.WinsAtShift | src/Translatable/TranslationResolvers/BaseFallbackResolver.php:28-37 | a winner after an unsuccessful first candidate is a winner of the whole list |
| TranslationResolvers.TryCandidatesNone | src/Translatable/TranslationResolvers/BaseFallbackResolver.php:28-40 | when nothing is found, every candidate was checked before or yields no row, and every locale added to the checked list yields no row |
| TranslationResolvers.ResolutionGate | src/Translatable/TranslationResolvers/GivenLocale.php:13-24 | `GivenLocale` ignores the fallback flag and looks up the requested locale only; a fallback resolver with the flag off returns null and checks nothing |
| TranslationResolvers.ResolutionChecked | src/Translatable/TranslationResolvers/BaseFallbackResolver.php:18-41 | every resolver extends the checked list at its end and keeps it duplicate-free |
| TranslationResolvers.ResolutionFound | src/Translatable/TranslationResolvers/BaseFallbackResolver.php:18-68 | a row a resolver returns is the first row of a locale that was unchecked and passes the attribute test |
| TranslationResolvers.ResolutionNone | src/Translatable/TranslationResolvers/BaseFallbackResolver.php:18-41 | a resolver that returns null found no proposed locale that was unchecked and yields; each locale it records as checked yields nothing |
| TranslationResolvers.Resolve | src/Translatable/TranslationResolvers/BaseFallbackResolver.php:18-68 | the resolver's loop with its early return computes `Resolution` (row and checked list) |
| TranslationResolvers.ChainUnfold | src/Translatable/Translatable.php:191-197 | one step of the chain from resolver `i` |
| TranslationResolvers.RunChain | src/Translatable/Translatable.php:189-199 | the loop over the resolvers with a fresh checked list returns the first row any resolver returns |
| TranslationResolvers.EffectiveChain | src/Translatable/Translatable.php:408-417 | `GivenLocale` is always in the chain; it is prepended iff the configured list lacks it |
| TranslationResolvers.ChainChecked | src/Translatable/Translatable.php:189-197 | no locale is looked up twice in one resolution: the checked list only grows and stays duplicate-free |
| TranslationResolvers.ChainFound | src/Translatable/Translatable.php:189-197 | a row the chain returns is the first row of some unchecked locale and passes the attribute test |
| TranslationResolvers.ChainWinner | src/Translatable/Translatable.php:189-199 | a row the chain returns is the result of the first resolver that returns one, run on the checked list the resolvers before it left |
| TranslationResolvers.ChainWinsAtShift | src/Translatable/Translatable.php:191-197 | a winner after a first resolver that returns null is a winner of the whole chain, one position later |
| TranslationResolvers.ChainNone | src/Translatable/Translatable.php:189-199 | when the chain returns null, every locale any resolver proposes was checked before or yields no row |
| TranslationResolvers.DefaultChainUnrolled | src/Translatable/Translatable.php:189-199 | with fallback on, the default chain tries the requested locale, the language of a country locale, the configured fallback, then the registry locales, threading one checked list |
| TranslationResolvers.ExactMatchFirst | src/Translatable/TranslationResolvers/GivenLocale.php:19-23 | led by `GivenLocale`, a chain returns the exact row whenever one yields, whatever follows |
| TranslationResolvers.ChainCheckedNoFallback | src/Translatable/TranslationResolvers/BaseFallbackResolver.php:24-26 | with the requested locale checked and fallback off, no resolver returns anything or checks anything |
| TranslationResolvers.ChainNoFallback | src/Translatable/TranslationResolvers/BaseFallbackResolver.php:24-26 | with fallback off, a chain containing `GivenLocale` returns the exact row iff it yields, else null |
| TranslationResolvers.ChainAttributeAgrees | src/Translatable/TranslationResolvers/BaseTranslationResolver.php:34-44 | when no row's attribute is empty, the attribute variant resolves and checks exactly like the plain one |
| TranslationResolvers.AcceptsAll | src/Translatable/TranslationResolvers/BaseTranslationResolver.php:40-44 | with no empty attribute, a locale yields for the attribute variant iff it yields for the plain one |
| TranslationResolvers.ResolutionAttributeAgrees | src/Translatable/TranslationResolvers/BaseFallbackResolver.php:43-68 | one resolver's two variants agree when the attribute test accepts every row |
| TranslationResolvers.TryCandidatesAttributeAgrees | src/Translatable/TranslationResolvers/BaseFallbackResolver.php:54-65 | the two candidate loops agree when the attribute test accepts every row |
| TranslatableTrait.IsTranslationDirty | src/Translatable/Translatable.php:321-327 | a row is dirty iff some column other than the locale differs from its original |
| TranslatableTrait.RowsWithLocale | src/Translatable/Translatable.php:202-211 | the rows gain one new row stamped with the locale iff none had it; otherwise they are unchanged |
| TranslatableTrait.RowsWithLocaleIdempotent | src/Translatable/Translatable.php:202-211 | a repeated get-or-create neither grows the rows nor changes the row found |
| TranslatableTrait.FirstRowIndex | src/Translatable/Translatable.php:206 | the position of the exact row `getTranslation($l, false)` returns |
| TranslatableTrait.WithRowAttribute | src/Translatable/Translatable.php:276 | only the exact row changes: its attribute holds the value, while its locale, its original and its other attributes stay |
| TranslatableTrait.FillRow | src/Translatable/Translatable.php:131 | each key reads its last entry's value, every other attribute and the original stay, and the keys are the old ones and the entries' |
| TranslatableTrait.FillRowAppend | src/Translatable/Translatable.php:131 | filling with `a` and then `b` is filling with `a + b` |
| TranslatableTrait.FillFirst | src/Translatable/Translatable.php:131 | the first row of the locale becomes that row filled with the entries; every row keeps its locale |
| TranslatableTrait.AfterSave | src/Translatable/Translatable.php:353 | a successful save leaves the row clean (Eloquent syncs its original on save); a failed one leaves it as it was |
| TranslatableTrait.SaveRows | src/Translatable/Translatable.php:346-357 | the loop keeps the number of rows and reports success only if it started in success |
| TranslatableTrait.SaveRowsResult | src/Translatable/Translatable.php:338-358 | `saveTranslations` reports success iff every dirty row saves |
| TranslatableTrait.SavedBeforeShift | src/Translatable/Translatable.php:346-355 | the flag after the first row, with the later rows, tells the same as the flag for all rows |
| TranslatableTrait.SaveRowsRows | src/Translatable/Translatable.php:346-355 | a row is stamped and saved iff it is dirty and every dirty row before it saved; other rows are untouched |
| TranslatableTrait.SaveRowsRow | src/Translatable/Translatable.php:346-355 | the same, for one row |
| TranslatableTrait.SaveRowsAllSucceed | src/Translatable/Translatable.php:338-358 | when every save succeeds, the result is true and no row stays dirty |
| TranslatableTrait.SaveStart | src/Translatable/Translatable.php:340-346 | the loop bookkeeping holds before the first row |
| TranslatableTrait.SaveStep | src/Translatable/Translatable.php:347-354 | one pass of the loop body keeps the bookkeeping, in both branches |
| TranslatableTrait.SaveDone | src/Translatable/Translatable.php:355-357 | after the last row, the flag and rows are the loop's outcome |
| TranslatableTrait.SaveRowsUnfold | src/Translatable/Translatable.php:346-355 | one row of the save loop |
| TranslatableTrait.SaveAsDeclaredRejectsPlainRows | src/Translatable/Translatable.php:321-347 | as declared, the first dirty check of a loaded plain translation model raises `TypeError` |
| TranslatableTrait.SaveAsDeclaredWithContract | src/Translatable/Translatable.php:321-357 | with rows that implement the contract, the declared loop returns what `SaveRows` returns |
| TranslatableTrait.Undeleted | src/Translatable/Translatable.php:112-122 | after delete and reload, null leaves no rows; a list keeps exactly the rows whose locale is not listed |
| TranslatableTrait.Keep | src/Translatable/Translatable.php:115 | the kept rows are exactly those whose locale is not listed |
| TranslatableTrait.KeepNothingListed | src/Translatable/Translatable.php:115 | deleting an empty list of locales keeps every row, in order |
| TranslatableTrait.PutCell | src/Translatable/Translatable.php:228 | `$m[$l][$a] = $v` sets that cell and leaves other cells and locales alone |
| TranslatableTrait.PutRow | src/Translatable/Translatable.php:227-229 | one row writes every translated attribute of its locale and nothing else |
| TranslatableTrait.LastRowIndex | src/Translatable/Translatable.php:226-230 | the position of the last row of a locale |
| TranslatableTrait.HasLocaleSnoc | src/Translatable/Translatable.php:226 | a locale has a row iff an earlier row or the last row has it |
| TranslatableTrait.TranslationsArrayKeys | src/Translatable/Translatable.php:222-233 | the array has a key for exactly the locales with a row, when there are translated attributes |
| TranslatableTrait.TranslationsArrayCells | src/Translatable/Translatable.php:222-233 | each cell holds the value of the last row of that locale |
| TranslatableTrait.Translatable.constructor | src/Translatable/Translatable.php:41 | a model starts with no enforced locale |
| TranslatableTrait.Translatable.Locale | src/Translatable/Translatable.php:329-336 | the enforced locale when truthy, else the registry's current locale |
| TranslatableTrait.Translatable.EffectiveLocale | src/Translatable/Translatable.php:187 | `$locale ?: $this->locale()` |
| TranslatableTrait.Translatable.EffectiveLocaleIdempotent | src/Translatable/Translatable.php:204 | resolving an effective locale again changes nothing |
| TranslatableTrait.Translatable.UseFallback | src/Translatable/Translatable.php:391-398 | the model's boolean when it declares one, else `translatable.use_fallback` |
| TranslatableTrait.Translatable.UsePropertyFallback | src/Translatable/Translatable.php:400-403 | fallback is on and `translatable.use_property_fallback` is set |
| TranslatableTrait.Translatable.GetTranslationResolvers | src/Translatable/Translatable.php:408-417 | the configured chain with `GivenLocale` prepended when missing |
| TranslatableTrait.Translatable.TranslationFor | src/Translatable/Translatable.php:185-200 | null, or the first row of some locale |
| TranslatableTrait.Translatable.AttributeOrFallback | src/Translatable/Translatable.php:369-384 | null, or a value the emptiness policy accepts |
| TranslatableTrait.Translatable.GetAttributeAndLocale | src/Translatable/Translatable.php:360-367 | a key without `:` pairs with `locale()`; otherwise the attribute is the `:`-free part before the first `:` |
| TranslatableTrait.Translatable.GetTranslation | src/Translatable/Translatable.php:185-200 | the first row the chain returns for the effective locale, with the flag defaulting to `useFallback()` |
| TranslatableTrait.Translatable.GetAttributeOrFallback | src/Translatable/Translatable.php:369-384 | the found row's attribute under the attribute-aware chain with `usePropertyFallback()`, else null |
| TranslatableTrait.Translatable.DefaultPolicyReadsNoEmptyValue | src/Translatable/Translatable.php:316-319 | under the default `empty()` policy, a read returns null or a non-empty value |
| TranslatableTrait.Translatable.ExactAttributeWins | src/Translatable/Translatable.php:369-384 | led by `GivenLocale`, a read returns the exact row's cell whenever the policy accepts it |
| TranslatableTrait.Translatable.AsWrittenDropsFoundValue | src/Translatable/Translatable.php:378-380 | as written, a found exact value is read as null |
| TranslatableTrait.Translatable.TranslationWithoutFallback | src/Translatable/Translatable.php:185-200 | without fallback, `getTranslation` is exactly `firstWhere` of the effective locale |
| TranslatableTrait.Translatable.ExactRowWins | src/Translatable/Translatable.php:185-200 | led by `GivenLocale`, an exact row wins over every fallback |
| TranslatableTrait.Translatable.TranslationIsFirstOfItsLocale | src/Translatable/Translatable.php:185-200 | a returned row is the first row of its own locale |
| TranslatableTrait.Translatable.AttributeOrFallbackSpec | src/Translatable/Translatable.php:369-384 | a read is null or a value the policy accepts; with property fallback off it is the exact row's accepted value, else null |
| TranslatableTrait.Translatable.GetAttribute | src/Translatable/Translatable.php:149-161 | a translated attribute (possibly `attr:locale`) is read through the resolvers; any other key reads the model's own attribute |
| TranslatableTrait.Translatable.HasTranslation | src/Translatable/Translatable.php:235-246 | true iff some row's locale equals the effective locale |
| TranslatableTrait.Translatable.GetNewTranslation | src/Translatable/Translatable.php:173-183 | a new row stamped with the locale is appended and returned |
| TranslatableTrait.Translatable.GetTranslationOrNew | src/Translatable/Translatable.php:202-211 | the rows become `RowsWithLocale`, and the returned row is the exact row of the effective locale |
| TranslatableTrait.Translatable.GetTranslationOrFail | src/Translatable/Translatable.php:213-220 | the exact row iff one exists, else `ModelNotFound` naming the locale |
| TranslatableTrait.Translatable.SetAttribute | src/Translatable/Translatable.php:271-282 | a translated attribute is written to its locale's row (created when missing), never to the model; other keys go to the model |
| TranslatableTrait.Translatable.Fill | src/Translatable/Translatable.php:124-147 | the rows become `FillRows`, whose first rows `FillRowsFirst` describes; the unrouted entries are returned for the parent |
| TranslatableTrait.Translatable.FillEntry | src/Translatable/Translatable.php:127-143 | one entry is claimed iff it is routed, and the rows become `FillOne`, whose first rows `FillOne` states |
| TranslatableTrait.Translatable.DeleteTranslations | src/Translatable/Translatable.php:112-122 | the rows become `Undeleted(old, locales)` |
| TranslatableTrait.Translatable.GetTranslationsArray | src/Translatable/Translatable.php:222-233 | the nested loops compute `TranslationsArray` |
| TranslatableTrait.Translatable.SaveTranslations | src/Translatable/Translatable.php:338-358 | true without saving when rows are not loaded; otherwise the result and rows of `SaveRows` |
| TranslatableTrait.Translatable.SetEnforcedLocale | src/Translatable/Translatable.php:284-289 | the enforced locale is the given one |
| TranslatableTrait.AttributeAndLocale | src/Translatable/Translatable.php:360-367 | a key without `:` pairs with `locale()`; otherwise the attribute is the part before the first `:` |
| TranslatableTrait.AttributeAndLocaleOfJoin | src/Translatable/Translatable.php:360-367 | `attribute:locale` splits back into attribute and locale |
| TranslatableTrait.RouteEntry | src/Translatable/Translatable.php:127-143 | a claimed entry goes to a registered locale; a registered locale with an array value is always claimed whole |
| TranslatableTrait.FillOne | src/Translatable/Translatable.php:127-143 | an unclaimed entry changes nothing; a claimed one makes its locale's first row the old first row (or a new row) filled with the entry's values and leaves every other locale's first row as it was |
| TranslatableTrait.FillOneAt | src/Translatable/Translatable.php:127-143 | the same, for one locale |
| TranslatableTrait.FilledOtherLocale | src/Translatable/Translatable.php:131 | filling a locale's row, created when missing, does not change the first row of another locale |
| TranslatableTrait.FillRows | src/Translatable/Translatable.php:126-144 | filling keeps every existing row's locale |
| TranslatableTrait.FillRowsFirst | src/Translatable/Translatable.php:126-144 | after the loop a locale has no first row iff it had none and no entry was routed to it; otherwise its first row is the old one (or a new one) filled with exactly the values routed to it, in order |
| TranslatableTrait.RoutedToUntargeted | src/Translatable/Translatable.php:126-144 | a locale no entry is routed to receives no values |
| TranslatableTrait.Unrouted | src/Translatable/Translatable.php:132-146 | never more entries than given are passed on |
| TranslatableTrait.UnroutedSpec | src/Translatable/Translatable.php:126-146 | exactly the unclaimed entries go to the parent, and all of them do iff none is claimed |
| TranslatableTrait.FillStep | src/Translatable/Translatable.php:126-144 | one entry of the `fill` loop |
| OrderedMap.Keys | src/Translatable/Validation/RuleFactory.php:76-90 | the keys of an array, in order |
| OrderedMap.Get | src/Translatable/Validation/RuleFactory.php:76-90 | a lookup fails exactly for a missing key |
| OrderedMap.Put | src/Translatable/Validation/RuleFactory.php:80 | a write appends a new key, keeps an existing key in place, and changes no other key |
| OrderedMap.PutAllStep | src/Translatable/Validation/RuleFactory.php:85-87 | writing `j + 1` entries is writing `j`, then entry `j` |
| OrderedMap.PutAllStepWith | src/Translatable/Traits/TranslatableFormRequest.php:43-46 | the same step with its entry named |
| OrderedMap.PutAllAppend | src/Translatable/Traits/TranslatableFormRequest.php:40-47 | writing `a + b` is writing `a`, then `b` |
| OrderedMap.KeysAppend | src/Translatable/Validation/RuleFactory.php:76-90 | the keys of a concatenation |
| OrderedMap.PutAllFresh | src/Translatable/Validation/RuleFactory.php:85-87 | writes of new, distinct keys simply append |
| OrderedMap.LastValue | src/Translatable/Translatable.php:131 | the value of the last entry with the key, none iff no entry has it |
| OrderedMap.PutAllGet | src/Translatable/Validation/RuleFactory.php:85-87 | after a list of writes a key reads its last written value, else its old one; the keys are the old and the written ones |
| Strings.IndexFrom | src/Translatable/Validation/RuleFactory.php:105 | a position found is an occurrence at or after the start |
| Strings.IndexFromSpec | src/Translatable/Validation/RuleFactory.php:105 | the search finds the first occurrence, and finds nothing only when there is none |
| Strings.IndexOf | src/Translatable/Validation/RuleFactory.php:147 | `strpos` returns an occurrence |
| Strings.IndexOfSpec | src/Translatable/Validation/RuleFactory.php:147 | `strpos` gives the first occurrence, and `false` iff there is none |
| Strings.NotOccursAt | src/Translatable/Locales.php:83 | a string without `sub` has it nowhere |
| Strings.ContainsAt | src/Translatable/Locales.php:83 | a string where `sub` occurs somewhere contains it |
| Strings.OccursInSuffix | src/Translatable/Validation/RuleFactory.php:147 | an occurrence in a suffix is one in the string |
| Strings.NotContainsAny | src/Translatable/Locales.php:83 | a string with `sub` nowhere does not contain it |
| Strings.CharAbsent | src/Translatable/Validation/RuleFactory.php:147 | a string without character `c` does not contain `[c]` |
| Strings.BeforeFirstOccurrence | src/Translatable/Locales.php:68 | nothing before the first occurrence contains `sub` |
| Strings.Explode | src/Translatable/Locales.php:68 | `explode` always yields at least one piece |
| Strings.ExplodeHead | src/Translatable/Locales.php:68 | the first piece is the separator-free prefix before the first separator, or the whole string |
| Strings.NotContainsSlice | src/Translatable/Validation/RuleFactory.php:108 | no slice contains what the string lacks |
| Strings.ExplodeKeepsAbsence | src/Translatable/Validation/RuleFactory.php:108 | every piece avoids what the string avoids |
| Strings.ImplodeExplode | src/Translatable/Validation/RuleFactory.php:106-108 | `implode` of `explode` with the same separator gives the string back |
| Strings.SplitAround | src/Translatable/Locales.php:68 | an occurrence splits a string into before, `sub` and after |
| Strings.ExplodeAt | src/Translatable/Locales.php:68 | `explode` cuts at the first separator and continues after it |
| Strings.ImplodeCons | src/Translatable/Validation/RuleFactory.php:106 | `implode` of a head and a non-empty tail |
| Strings.ExplodeTwo | src/Translatable/Translatable.php:363 | `explode` of `a<sep>b` gives `[a, b]` when neither holds the one-character separator |
| Strings.FirstPieceOfJoin | src/Translatable/Locales.php:61-69 | the first piece of `a<sep>b` is `a` when `a` lacks the one-character separator |
| Validation.Coalesce | src/Translatable/Validation/RuleFactory.php:37-39 | `$given ?? $configured`, null read as `''` |
| Validation.NameRun | src/Translatable/Validation/RuleFactory.php:142 | the run of name characters is within the string |
| Validation.NameRunOf | src/Translatable/Validation/RuleFactory.php:142 | a run of name characters followed by the end or another character is measured exactly |
| Validation.NameRunChars | src/Translatable/Validation/RuleFactory.php:142 | the run holds name characters only |
| Validation.MatchHere | src/Translatable/Validation/RuleFactory.php:137-143 | a match has a non-empty name and fits in the string |
| Validation.MatchHereSound | src/Translatable/Validation/RuleFactory.php:137-143 | a match is prefix, a name of characters other than `.` and the delimiters, suffix, then the rest |
| Validation.MatchHereDelimiters | src/Translatable/Validation/RuleFactory.php:137-143 | the delimiters of a match sit at its start and right after the name |
| Validation.TokenMatches | src/Translatable/Validation/RuleFactory.php:137-143 | with a non-empty suffix, `prefix + name + suffix` matches with that name whatever follows |
| Validation.SubstituteInjective | src/Translatable/Validation/RuleFactory.php:126-135 | different locales give different replacements, in both formats |
| Validation.Advance | src/Translatable/Validation/RuleFactory.php:123 | each scan step moves forward and stays within the string |
| Validation.ReplaceWithoutPrefix | src/Translatable/Validation/RuleFactory.php:121-124 | a string without the prefix is left unchanged |
| Validation.ReplaceAfterPlain | src/Translatable/Validation/RuleFactory.php:121-124 | with a one-character prefix, text without it is copied and the rewrite continues after it |
| Validation.ReplaceCopies | src/Translatable/Validation/RuleFactory.php:121-124 | where no match starts, one character is copied |
| Validation.ReplaceSubstitutes | src/Translatable/Validation/RuleFactory.php:121-135 | where a match starts, it is replaced and the scan resumes after it |
| Validation.PlainHead | src/Translatable/Validation/RuleFactory.php:137-143 | text starting with a non-prefix character has no match at its start |
| Validation.ReplaceToken | src/Translatable/Validation/RuleFactory.php:121-143 | `before + prefix + name + suffix + after` rewrites to `before + replacement + rewrite(after)` |
| Validation.ReplaceEach | src/Translatable/Validation/RuleFactory.php:106-108 | each piece is rewritten on its own |
| Validation.FormatRule | src/Translatable/Validation/RuleFactory.php:102-119 | strings are rewritten, arrays keep their keys, other rules are unchanged |
| Validation.FormatEntries | src/Translatable/Validation/RuleFactory.php:112-116 | `array_map` keeps the keys and the length |
| Validation.FormatStringSplit | src/Translatable/Validation/RuleFactory.php:104-111 | `a|b` with non-empty `a` is rewritten piece by piece |
| Validation.FormatStringWithoutPrefix | src/Translatable/Validation/RuleFactory.php:104-111 | a rule string without the prefix is unchanged, whether split or not |
| Validation.FormatRuleWithoutPrefix | src/Translatable/Validation/RuleFactory.php:102-119 | a rule that mentions the prefix nowhere is unchanged, however nested |
| Validation.FormatEntriesWithoutPrefix | src/Translatable/Validation/RuleFactory.php:112-116 | the same for the entries of an array rule |
| Validation.MatchedIsTranslatable | src/Translatable/Validation/RuleFactory.php:145-148 | a key the pattern matches in is translatable |
| Validation.LoneDelimiterIsTranslatable | src/Translatable/Validation/RuleFactory.php:145-148 | `title%` is translatable although the pattern matches nowhere in it |
| Validation.Expansion | src/Translatable/Validation/RuleFactory.php:85-87 | one entry per locale, in locale order: the rewritten key and the formatted rule |
| Validation.ParseEntry | src/Translatable/Validation/RuleFactory.php:79-87 | the keys after one entry are the earlier keys and the key itself, or its rewrite for each locale when it is translatable |
| Validation.ParseRulesKeys | src/Translatable/Validation/RuleFactory.php:76-90 | the parsed rules have exactly the keys the input entries produce |
| Validation.ParseUntranslated | src/Translatable/Validation/RuleFactory.php:79-83 | input without translatable keys comes back unchanged |
| Validation.ParseEntryExpands | src/Translatable/Validation/RuleFactory.php:85-87 | a translatable key with new, distinct per-locale keys adds exactly its expansion, at the end |
| Validation.ExpansionKeysDistinct | src/Translatable/Validation/RuleFactory.php:85-87 | a key with one placeholder gets one distinct key per distinct locale: `before + locale.name + after` or `before + name:locale + after` |
| Validation.CheckLocales | src/Translatable/Validation/RuleFactory.php:63-67 | passes iff the registry has every locale; otherwise reports the first it lacks |
| Validation.ParseRulesStep | src/Translatable/Validation/RuleFactory.php:78-88 | the entries up to `i`, then entry `i` |
| Validation.RuleFactory.constructor | src/Translatable/Validation/RuleFactory.php:35-40 | each argument left null falls back to its configuration value |
| Validation.RuleFactory.SetLocales | src/Translatable/Validation/RuleFactory.php:52-72 | null selects all registry locales; a list is kept iff every locale is registered; otherwise the first unregistered one fails and nothing changes |
| Validation.RuleFactory.Parse | src/Translatable/Validation/RuleFactory.php:74-91 | the nested loops compute `ParseRules` |
| Validation.RuleFactory.Make | src/Translatable/Validation/RuleFactory.php:42-50 | an invalid locale list fails; otherwise the parse of the input under the factory's settings and locales |
| FormRequest.PerLocale | src/Translatable/Traits/TranslatableFormRequest.php:43-46 | one write per locale |
| FormRequest.PerLocaleAt | src/Translatable/Traits/TranslatableFormRequest.php:45 | write `j` is `key.locales[j] => rule` |
| FormRequest.EntryWrites | src/Translatable/Traits/TranslatableFormRequest.php:42-46 | `1 + |locales|` writes per entry |
| FormRequest.EntryWritesAt | src/Translatable/Traits/TranslatableFormRequest.php:42-46 | the first write is `key => required|array`, then `key.locale => rule` in locale order |
| FormRequest.RulesByLocalesStep | src/Translatable/Traits/TranslatableFormRequest.php:40-47 | the result after `i + 1` entries is that after `i`, then entry `i`'s writes |
| FormRequest.EntryWritesFirst | src/Translatable/Traits/TranslatableFormRequest.php:42 | the first write of an entry |
| FormRequest.EntryWritesNext | src/Translatable/Traits/TranslatableFormRequest.php:45 | write `j + 1` of an entry |
| FormRequest.MakeRulesByLocales | src/Translatable/Traits/TranslatableFormRequest.php:34-50 | the nested loops compute `RulesByLocales` over the registry's locales |
| FormRequest.RulesByLocalesIsWrites | src/Translatable/Traits/TranslatableFormRequest.php:40-49 | the result is all the writes applied at once |
| FormRequest.WritesLength | src/Translatable/Traits/TranslatableFormRequest.php:40-47 | `|rules| * (1 + |locales|)` writes |
| FormRequest.WritesConcat | src/Translatable/Traits/TranslatableFormRequest.php:40-47 | the writes of `a + b` are those of `a`, then those of `b` |
| FormRequest.WritesUnfold | src/Translatable/Traits/TranslatableFormRequest.php:40-47 | the writes of the last entry come last |
| FormRequest.WritesSplit | src/Translatable/Traits/TranslatableFormRequest.php:40-47 | entry `i`'s writes form block `i`, after `i * (1 + |locales|)` earlier writes |
| FormRequest.RulesByLocalesFresh | src/Translatable/Traits/TranslatableFormRequest.php:40-49 | with no key written twice, the result is the writes in block order, `|rules| * (1 + |locales|)` entries |
| FormRequest.BaseKey | src/Translatable/Traits/TranslatableFormRequest.php:45 | the part of a key before its first `.` |
| FormRequest.BaseKeyOf | src/Translatable/Traits/TranslatableFormRequest.php:45 | a dot-free key is the base of itself and of each of its per-locale keys |
| FormRequest.NestedKeyDistinct | src/Translatable/Traits/TranslatableFormRequest.php:45 | per-locale keys differ iff their locales do, and never equal the key |
| FormRequest.WritesKeysBase | src/Translatable/Traits/TranslatableFormRequest.php:40-47 | with dot-free keys, every written key has the base of some rule key |
| FormRequest.WritesDistinct | src/Translatable/Traits/TranslatableFormRequest.php:40-47 | distinct dot-free keys and distinct locales write every key once |
| Scenarios.LoadCountries | tests/LocalesTest.php:62-77 | `['en' => ['GB','US'], 'de' => ['DE','CH']]` loads `['en','en-GB','en-US','de','de-DE','de-CH']` |
| Scenarios.TokenReplaced | src/Translatable/Validation/RuleFactory.php:121-124 | a key with one placeholder and no other prefix character has it replaced |
| Scenarios.TwoPieces | src/Translatable/Validation/RuleFactory.php:104-111 | `a|b` is rewritten piece by piece |
| Scenarios.PlainText | src/Translatable/Validation/RuleFactory.php:121-124 | text without the prefix character is copied |
| Scenarios.ReplaceSubKey | tests/ValidationTest.php:45-59 | `translations.%content%` becomes `translations.<locale>.content` (array format) and `translations.content:<locale>` (key format) |
| Scenarios.ImplodedRule | tests/ValidationTest.php:304-322 | `required_with:%title%|string` becomes `required_with:<locale>.title|string` |
| Scenarios.FormRequestTitle | tests/TranslatableFormRequestTest.php:13-26 | `title => string` with the nine registered locales gives `title => required|array` then `title.<locale> => string` for each, in order |
| ResolverScenarios.ReturnsDefaultTranslation | tests/TranslatableTest.php:251-263 | with fallback locale `de` and only a `de` row, `ch` resolves to the `de` row with fallback on and to null with it off |
| ResolverScenarios.CountryBasedBeforeConfigured | tests/TranslatableTest.php:477-492 | with rows `fr`, `en-GB`, `en` and fallback `fr`, `en-US` resolves to the `en` row |
| ResolverScenarios.CountryBasedWithoutLanguageRow | tests/TranslatableTest.php:495-509 | with rows `en`, `pt-PT` and fallback `en`, `pt-BR` resolves to the `en` row |
| ResolverScenarios.FirstAvailableNeedsFallback | tests/TranslatableTest.php:902 | with fallback off, `xyz` resolves to null |
| ResolverScenarios.OnlyFirstAvailableProposes | tests/TranslatableTest.php:879-881 | without an `xyz` row or a fallback locale, the default chain for `xyz` is the candidate loop over the registry |
| ResolverScenarios.FirstAvailableInRegistryOrder | tests/TranslatableTest.php:869-907 | with registry `xyz, en, de, de-DE, de-AT, fr, el`, `xyz` resolves to the `en` row |
| ResolverScenarios.CountryLocaleFallsBackToLanguage | tests/TranslatableTest.php:909-912 | `de-AT` resolves to the `de` row |
| ResolverScenarios.FirstAvailableFollowsReload | tests/TranslatableTest.php:914-929 | with registry `xyz, de, de-DE, de-AT, en, fr, el`, `xyz` resolves to the `de` row |
| ResolverScenarios.CountryLocaleBeforeNextLanguage | tests/TranslatableTest.php:931-937 | without the `de` row, `xyz` resolves to the `de-DE` row before `en` |

## Left out

- Persistence and SQL. Rows are an in-memory sequence. A row's `save()` is an
  oracle function that returns a boolean; the connection name it sets is not
  modelled.
- `deleteTranslations`: the per-row `delete()` and the reload are modelled as
  filtering the in-memory rows.
- Lazy loading: reads treat the rows as loaded. `translationsLoaded` only
  stands for `relationLoaded('translations')` in `saveTranslations`.
- `bootTranslatable` (the `saved`/`deleting` hooks) and the autoload and
  cascade switches: framework wiring.
- `attributesToArray`, `transformModelValue` casting,
  `replicateWithTranslations`, `translate*` aliases, `getEnforcedLocale` and
  `getLocaleName`: framework read paths or one-line aliases. The locale
  column is the `locale` field of a row.
- Translation-model class names and the foreign key: they are derived by
  reflection, so the relation key is a field of the model.
- The query scopes, `Relationship`, the validation rules `TranslatableExists`
  and `TranslatableUnique`, the service provider, `createDefaultValidator`
  and the `FallbackStrategies` classes, which the trait never uses.
- `Locales::offsetExists`, `offsetGet` and `toArray`: aliases of `has`, `get`
  and `all`.
- PHP array keys that look like integers (such as `'1'`) become integers.
  The model keeps every key a string.
- LocalesRegistry.Locales.Load: the `(array)` cast of a non-array configuration value. The
  configuration is already a list of entries, so an empty list is the empty
  case.
- FillRow: the translation model's own `fill` honours its `$fillable` and
  guarded lists; the model writes every entry it is given. An entry for the
  `locale` column is stored as an ordinary attribute, so the row keeps its
  locale. In PHP, when `locale` is fillable (as in
  tests/Eloquent/CountryTranslation.php:11-15), such an entry moves the row
  to another locale. FillFirst, FillOne, FillRowsFirst and
  TranslatableTrait.Translatable.Fill keep the row's locale for the same
  reason.
- TranslatableTrait.Translatable.Fill: `parent::fill` (mass assignment and
  guarding) is not modelled. The entries it would receive are returned.
- TranslatableTrait.Translatable.HasTranslation: uses strict string
  equality where the source has PHP's loose `==`.
- TranslationResolvers.ResolveTranslationByLocale: the checked-locale test
  (`Collection::contains`, src/Translatable/TranslationResolvers/BaseTranslationResolver.php:19)
  and the row lookup (`firstWhere`, line 25) compare loosely in PHP, so
  `'1'` matches `'01'` and `'1e1'` matches `'10'`. The model uses strict
  string equality here and in Translations.FirstWhere.
- The `?TranslatableContract` return type of `BaseFallbackResolver`: the
  `TypeError` a wrong return would raise is not modelled. A found row versus
  none is modelled.
- `getLocaleKey`, which `BaseTranslationResolver` calls to name the locale
  column, is not part of this model. Rows are looked up by their `locale`
  field, the column `getLocaleName` names.
- Validation.ReplacePlaceholder: `$` and `\` inside a locale are taken
  literally. `preg_replace` would read them as back-references.
  `preg_quote` escaping is implicit, because the delimiters are matched
  literally.
- Validation.Coalesce: a null prefix or suffix reads as `''`, as PHP's
  string functions read null.
- Validation.ReplaceToken: stated only for a one-character prefix and a
  non-empty suffix, the delimiters the package and its tests use. The
  general `Validation.ReplacePlaceholder` scan is defined for any
  delimiters.
- Validation.RuleFactory.Locales: before `setLocales` runs, the iterated
  locales (PHP null) count as empty.
- FormRequest.WritesDistinct: requires dot-free rule keys. A key
  containing `.` can collide with another key's per-locale key.
- FormRequest.MakeRulesByLocales: the registry object is passed in,
  whereas the source takes it from the container.

## Findings

| source | as written | input that shows it | evidently intended | confidence | as-written member | corrected member |
|---|---|---|---|---|---|---|
| src/Translatable/Translatable.php:378 | `$translation instanceof Translatable` names the trait itself, and PHP's `instanceof` is false for every object when its right side is a trait, so the loop never returns a value | a model whose only row, for the current locale, has `name = 'Peas'`; reading `name` finds that row and still yields null | return the found row's attribute whenever a resolver returns a row | not executed | TranslatableTrait.Translatable.AsWrittenDropsFoundValue | TranslatableTrait.Translatable.ExactAttributeWins |
| src/Translatable/Translatable.php:321 | `isTranslationDirty` declares its parameter as `TranslatableContract $translation`, while translation models such as tests/Eloquent/CountryTranslation.php:7 extend plain `Eloquent` and do not implement that contract, so the call at line 347 raises a `TypeError` | a `Country` with one loaded `CountryTranslation` row being saved: the first dirty check rejects the row | accept any translation `Model` and compare its dirty attributes | not executed | TranslatableTrait.SaveAsDeclaredRejectsPlainRows | TranslatableTrait.SaveRowsResult |
