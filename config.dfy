/**
 * The `translatable.*` configuration values the core reads. The repository
 * behind them is mutable shared state in the package; here it is a value that
 * the registry holds and that callers may replace.
 */
module Configuration {
  import opened Common

  /** A key of the `translatable.locales` array: PHP array keys are integers or strings. */
  datatype LocaleKey = IntKey(i: int) | StringKey(s: string)

  /** A value of the `translatable.locales` array. */
  datatype LocaleValue =
    | Plain(locale: string)          // 'de'
    | Countries(codes: seq<string>)  // 'de' => ['DE', 'AT']
    | OtherValue                     // any other PHP value; load() skips it

  datatype LocaleEntry = LocaleEntry(key: LocaleKey, value: LocaleValue)

  /** The resolvers that extend the fallback base class: each proposes candidate locales. */
  datatype FallbackResolver = CountryBasedLocale | ConfigFallbackLocale | FirstAvailableLocale

  /** The resolver classes `translatable.translation_resolvers` may list. */
  datatype ResolverClass = GivenLocale | Fallback(resolver: FallbackResolver)

  datatype Config = Config(
    locales: seq<LocaleEntry>,                 // translatable.locales
    localeSeparator: Option<string>,           // translatable.locale_separator
    locale: Option<string>,                    // translatable.locale
    fallbackLocale: Option<string>,            // translatable.fallback_locale
    useFallback: bool,                         // translatable.use_fallback
    usePropertyFallback: bool,                 // translatable.use_property_fallback
    translationResolvers: seq<ResolverClass>,  // translatable.translation_resolvers
    ruleFormat: Option<int>,                   // translatable.rule_factory.format
    rulePrefix: Option<string>,                // translatable.rule_factory.prefix
    ruleSuffix: Option<string>                 // translatable.rule_factory.suffix
  )
}
