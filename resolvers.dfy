/**
 * The translation resolvers. Each resolver, given the translation rows of a
 * model, a requested locale, a fallback flag and the caller's list of locales
 * already checked, may return a row. Every locale a resolver looks up is first
 * compared with the checked list and then appended to it, so one resolution
 * never looks the same locale up twice.
 *
 * `resolve` and `resolveWithAttribute` differ only in the test applied to a
 * found row; here both are one operation with `attribute: Option<string>`
 * (`None` for `resolve`, `Some(a)` for `resolveWithAttribute(..., a)`).
 */
module TranslationResolvers {
  import opened Common
  import opened Configuration
  import opened Translations
  import opened LocalesRegistry

  /** What a resolver sees of the model: its rows and its emptiness policy for attributes. */
  datatype Subject = Subject(translations: seq<Translation>, isEmptyAttribute: (string, Value) -> bool)

  /**
   * What the fallback resolvers are built from: the registry's locales in
   * order, its separator setting, and `translatable.fallback_locale`.
   */
  datatype Env = Env(locales: seq<string>, localeSeparator: Option<string>, fallbackLocale: Option<string>)

  /** The row a resolver returns, if any, and the checked list afterwards. */
  datatype Lookup = Lookup(found: Option<Translation>, checked: seq<string>)

  /** A found row passes the attribute test (`resolve` applies none). */
  predicate Accepts(s: Subject, attribute: Option<string>, t: Translation)
  {
    match attribute
    case None => true
    case Some(a) => !s.isEmptyAttribute(a, Attribute(t, a))
  }

  /** Looking `locale` up would yield a row: one exists and it passes the attribute test. */
  predicate Yields(s: Subject, locale: string, attribute: Option<string>)
  {
    FirstWhere(s.translations, locale).Some? && Accepts(s, attribute, FirstWhere(s.translations, locale).value)
  }

  // ---------------------------------------------------------------------------
  // BaseTranslationResolver

  /** `resolveTranslationByLocale`: skip a checked locale, else record it and look it up. */
  function ResolveTranslationByLocale(s: Subject, locale: string, checked: seq<string>): (r: Lookup)
    ensures locale in checked ==> r == Lookup(None, checked)
    ensures locale !in checked ==> r.checked == checked + [locale]
    ensures r.found.Some? <==> locale !in checked && HasLocale(s.translations, locale)
    ensures r.found.Some? ==> IsFirstRowOf(s.translations, locale, r.found.value)
  {
    FirstWhereSpec(s.translations, locale);
    if locale in checked then Lookup(None, checked)
    else Lookup(FirstWhere(s.translations, locale), checked + [locale])
  }

  /**
   * `resolveTranslationWithAttributeByLocale`: the plain lookup, except that a
   * row whose attribute is empty under the policy is dropped; the locale still
   * counts as checked.
   */
  function ResolveTranslationWithAttributeByLocale(s: Subject, locale: string, checked: seq<string>, attribute: string): (r: Lookup)
    ensures r.checked == ResolveTranslationByLocale(s, locale, checked).checked
    ensures r.found.Some? <==> (ResolveTranslationByLocale(s, locale, checked).found.Some? &&
      !s.isEmptyAttribute(attribute, Attribute(ResolveTranslationByLocale(s, locale, checked).found.value, attribute)))
    ensures r.found.Some? ==> r.found == ResolveTranslationByLocale(s, locale, checked).found
  {
    var plain := ResolveTranslationByLocale(s, locale, checked);
    if plain.found.None? then plain
    else if s.isEmptyAttribute(attribute, Attribute(plain.found.value, attribute)) then Lookup(None, plain.checked)
    else plain
  }

  /** The base lookup of one locale, for either variant. */
  function ByLocale(s: Subject, locale: string, checked: seq<string>, attribute: Option<string>): (r: Lookup)
    ensures locale in checked ==> r == Lookup(None, checked)
    ensures locale !in checked ==> r.checked == checked + [locale]
    ensures r.found.Some? <==> locale !in checked && Yields(s, locale, attribute)
    ensures r.found.Some? ==> r.found == FirstWhere(s.translations, locale)
  {
    FirstWhereSpec(s.translations, locale);
    match attribute
    case None => ResolveTranslationByLocale(s, locale, checked)
    case Some(a) => ResolveTranslationWithAttributeByLocale(s, locale, checked, a)
  }

  // ---------------------------------------------------------------------------
  // The candidates of the fallback resolvers

  /** `fallbackLocales($locale)` of each fallback resolver; `None` is PHP null. */
  function FallbackLocales(r: FallbackResolver, env: Env, locale: string): seq<Option<string>>
  {
    match r
    case CountryBasedLocale =>
      var sep := Separator(env.localeSeparator);
      if IsCountryBased(sep, locale) then [Some(LanguageOf(sep, locale))] else []
    case ConfigFallbackLocale => [env.fallbackLocale]
    case FirstAvailableLocale => SomeAll(env.locales)
  }

  function SomeAll(xs: seq<string>): (r: seq<Option<string>>)
    ensures |r| == |xs| && forall i :: 0 <= i < |xs| ==> r[i] == Some(xs[i])
  {
    if xs == [] then [] else [Some(xs[0])] + SomeAll(xs[1..])
  }

  /** `array_filter`: drops null, `''` and `'0'`, keeping the order of the rest. */
  function ArrayFilter(xs: seq<Option<string>>): (r: seq<string>)
    ensures |r| <= |xs|
  {
    if xs == [] then []
    else
      var rest := ArrayFilter(xs[1..]);
      if xs[0].Some? && !Falsy(xs[0].value) then [xs[0].value] + rest else rest
  }

  /** What survives the filter is exactly the truthy strings of the list. */
  lemma {:induction false} ArrayFilterMembers(xs: seq<Option<string>>, c: string)
    ensures c in ArrayFilter(xs) <==> Some(c) in xs && !Falsy(c)
  {
    if xs != [] {
      ArrayFilterMembers(xs[1..], c);
      assert Some(c) in xs <==> Some(c) == xs[0] || Some(c) in xs[1..];
    }
  }

  /** The strings of `xs` that PHP treats as true, in order. */
  function TruthyOnly(xs: seq<string>): (r: seq<string>)
    ensures |r| <= |xs|
    ensures forall x :: x in r <==> x in xs && !Falsy(x)
  {
    if xs == [] then [] else (if Falsy(xs[0]) then [] else [xs[0]]) + TruthyOnly(xs[1..])
  }

  /** The candidates a fallback resolver tries, in order. */
  function Candidates(r: FallbackResolver, env: Env, locale: string): (cs: seq<string>)
    ensures forall c :: c in cs <==> Some(c) in FallbackLocales(r, env, locale) && !Falsy(c)
  {
    var xs := FallbackLocales(r, env, locale);
    assert forall c :: c in ArrayFilter(xs) <==> Some(c) in xs && !Falsy(c) by {
      forall c ensures c in ArrayFilter(xs) <==> Some(c) in xs && !Falsy(c) { ArrayFilterMembers(xs, c); }
    }
    ArrayFilter(xs)
  }

  /**
   * `CountryBasedLocale` proposes at most one locale: the language part of a
   * country-based locale (when it is not falsy), and nothing for a plain locale.
   */
  lemma CountryBasedCandidates(env: Env, locale: string)
    ensures var sep := Separator(env.localeSeparator);
      Candidates(CountryBasedLocale, env, locale) ==
        (if IsCountryBased(sep, locale) && !Falsy(LanguageOf(sep, locale)) then [LanguageOf(sep, locale)] else [])
  {
    var sep := Separator(env.localeSeparator);
    if IsCountryBased(sep, locale) {
      assert FallbackLocales(CountryBasedLocale, env, locale)[1..] == [];
    }
  }

  /** `ConfigFallbackLocale` proposes the configured fallback locale, unless it is unset or falsy. */
  lemma ConfigFallbackCandidates(env: Env, locale: string)
    ensures Candidates(ConfigFallbackLocale, env, locale) ==
      (if Truthy(env.fallbackLocale) then [env.fallbackLocale.value] else [])
  {
    assert FallbackLocales(ConfigFallbackLocale, env, locale)[1..] == [];
  }

  /** `FirstAvailableLocale` proposes every truthy registry locale, in registry order. */
  lemma {:induction false} FirstAvailableCandidates(env: Env, locale: string)
    ensures Candidates(FirstAvailableLocale, env, locale) == TruthyOnly(env.locales)
  {
    ArrayFilterSomeAll(env.locales);
  }

  lemma {:induction false} ArrayFilterSomeAll(xs: seq<string>)
    ensures ArrayFilter(SomeAll(xs)) == TruthyOnly(xs)
  {
    if xs != [] {
      ArrayFilterSomeAll(xs[1..]);
      assert SomeAll(xs)[1..] == SomeAll(xs[1..]);
    }
  }

  /** A registry with no falsy locale is proposed whole, in order. */
  lemma {:induction false} TruthyOnlyAll(xs: seq<string>)
    requires forall i :: 0 <= i < |xs| ==> !Falsy(xs[i])
    ensures TruthyOnly(xs) == xs
  {
    if xs != [] {
      TruthyOnlyAll(xs[1..]);
    }
  }

  // ---------------------------------------------------------------------------
  // BaseFallbackResolver: the candidate loop

  /** The `foreach` over the candidates: the first row found is returned. */
  function TryCandidates(s: Subject, candidates: seq<string>, checked: seq<string>, attribute: Option<string>): Lookup
    decreases |candidates|
  {
    if candidates == [] then Lookup(None, checked)
    else
      var step := ByLocale(s, candidates[0], checked, attribute);
      if step.found.Some? then step else TryCandidates(s, candidates[1..], step.checked, attribute)
  }

  /**
   * The loop only appends to the checked list, appends only candidates, and
   * keeps it free of duplicates.
   */
  lemma {:induction false} TryCandidatesChecked(s: Subject, candidates: seq<string>, checked: seq<string>, attribute: Option<string>)
    ensures IsPrefix(checked, TryCandidates(s, candidates, checked, attribute).checked)
    ensures forall l :: l in TryCandidates(s, candidates, checked, attribute).checked ==> l in checked || l in candidates
    ensures NoDuplicates(checked) ==> NoDuplicates(TryCandidates(s, candidates, checked, attribute).checked)
    decreases |candidates|
  {
    if candidates != [] {
      var step := ByLocale(s, candidates[0], checked, attribute);
      if step.found.None? {
        TryCandidatesChecked(s, candidates[1..], step.checked, attribute);
        var r := TryCandidates(s, candidates[1..], step.checked, attribute);
        assert r.checked[..|step.checked|] == step.checked;
        assert r.checked[..|checked|] == step.checked[..|checked|];
      }
      if NoDuplicates(checked) && candidates[0] !in checked {
        NoDuplicatesAppend(checked, candidates[0]);
      }
    }
  }

  lemma NoDuplicatesAppend(xs: seq<string>, x: string)
    requires NoDuplicates(xs) && x !in xs
    ensures NoDuplicates(xs + [x])
  {
  }

  /**
   * Candidate `i` is the first one that was not already checked and yields a
   * row: every earlier candidate was checked before or yields nothing.
   */
  predicate WinsAt(s: Subject, candidates: seq<string>, checked: seq<string>, attribute: Option<string>, i: int)
  {
    0 <= i < |candidates| && candidates[i] !in checked && Yields(s, candidates[i], attribute) &&
    forall j :: 0 <= j < i ==> candidates[j] in checked || !Yields(s, candidates[j], attribute)
  }

  /**
   * A row found by the loop comes from the first candidate that wins, and no
   * candidate after it is recorded as checked.
   */
  lemma {:induction false} TryCandidatesFound(s: Subject, candidates: seq<string>, checked: seq<string>, attribute: Option<string>)
    requires TryCandidates(s, candidates, checked, attribute).found.Some?
    ensures exists i :: (WinsAt(s, candidates, checked, attribute, i) &&
      TryCandidates(s, candidates, checked, attribute).found == FirstWhere(s.translations, candidates[i]) &&
      forall l :: l in TryCandidates(s, candidates, checked, attribute).checked ==> l in checked || l in candidates[..i + 1])
    decreases |candidates|
  {
    var k := Winner(s, candidates, checked, attribute);
    WinnerWins(s, candidates, checked, attribute);
    WinnerChecked(s, candidates, checked, attribute);
    assert WinsAt(s, candidates, checked, attribute, k);
  }

  /** The position of the candidate whose row the loop returns. */
  function Winner(s: Subject, candidates: seq<string>, checked: seq<string>, attribute: Option<string>): (k: nat)
    requires TryCandidates(s, candidates, checked, attribute).found.Some?
    ensures k < |candidates|
    decreases |candidates|
  {
    var step := ByLocale(s, candidates[0], checked, attribute);
    if step.found.Some? then 0 else 1 + Winner(s, candidates[1..], step.checked, attribute)
  }

  lemma {:induction false} WinnerWins(s: Subject, candidates: seq<string>, checked: seq<string>, attribute: Option<string>)
    requires TryCandidates(s, candidates, checked, attribute).found.Some?
    ensures WinsAt(s, candidates, checked, attribute, Winner(s, candidates, checked, attribute))
    ensures TryCandidates(s, candidates, checked, attribute).found ==
      FirstWhere(s.translations, candidates[Winner(s, candidates, checked, attribute)])
    decreases |candidates|
  {
    var step := ByLocale(s, candidates[0], checked, attribute);
    if step.found.None? {
      var rest := candidates[1..];
      WinnerWins(s, rest, step.checked, attribute);
      var k := Winner(s, rest, step.checked, attribute);
      WinsAtShift(s, candidates, checked, step.checked, attribute, k);
      assert candidates[k + 1] == rest[k];
    }
  }

  lemma {:induction false} WinnerChecked(s: Subject, candidates: seq<string>, checked: seq<string>, attribute: Option<string>)
    requires TryCandidates(s, candidates, checked, attribute).found.Some?
    ensures forall l :: l in TryCandidates(s, candidates, checked, attribute).checked ==>
      l in checked || l in candidates[..Winner(s, candidates, checked, attribute) + 1]
    decreases |candidates|
  {
    var step := ByLocale(s, candidates[0], checked, attribute);
    if step.found.Some? {
      assert candidates[..1] == [candidates[0]];
    } else {
      var rest := candidates[1..];
      WinnerChecked(s, rest, step.checked, attribute);
      var k := Winner(s, rest, step.checked, attribute);
      assert candidates[..k + 2] == [candidates[0]] + rest[..k + 1];
    }
  }

  lemma WinsAtShift(s: Subject, candidates: seq<string>, checked: seq<string>, checked': seq<string>,
                    attribute: Option<string>, k: int)
    requires |candidates| > 0 && ByLocale(s, candidates[0], checked, attribute) == Lookup(None, checked')
    requires WinsAt(s, candidates[1..], checked', attribute, k)
    ensures WinsAt(s, candidates, checked, attribute, k + 1)
  {
    var rest := candidates[1..];
    forall j | 0 <= j < k + 1 ensures candidates[j] in checked || !Yields(s, candidates[j], attribute) {
      if j > 0 { assert candidates[j] == rest[j - 1]; }
    }
  }

  /** When the loop finds nothing, every candidate was checked before or yields no row. */
  lemma {:induction false} TryCandidatesNone(s: Subject, candidates: seq<string>, checked: seq<string>, attribute: Option<string>)
    requires TryCandidates(s, candidates, checked, attribute).found.None?
    ensures forall c :: c in candidates ==> c in checked || !Yields(s, c, attribute)
    ensures forall c :: c in TryCandidates(s, candidates, checked, attribute).checked ==> c in checked || !Yields(s, c, attribute)
    decreases |candidates|
  {
    if candidates != [] {
      var step := ByLocale(s, candidates[0], checked, attribute);
      TryCandidatesNone(s, candidates[1..], step.checked, attribute);
      forall c | c in candidates ensures c in checked || !Yields(s, c, attribute) {
        if c != candidates[0] { assert c in candidates[1..]; }
      }
      assert forall c :: c in step.checked ==> c in checked || c == candidates[0];
    }
  }

  // ---------------------------------------------------------------------------
  // One resolver

  /** `$resolver->resolve(...)` / `resolveWithAttribute(...)` for a resolver class. */
  function Resolution(r: ResolverClass, s: Subject, env: Env, locale: string, withFallback: bool,
                      checked: seq<string>, attribute: Option<string>): Lookup
  {
    match r
    case GivenLocale => ByLocale(s, locale, checked, attribute)
    case Fallback(kind) =>
      if !withFallback then Lookup(None, checked)
      else TryCandidates(s, Candidates(kind, env, locale), checked, attribute)
  }

  /**
   * `GivenLocale` ignores the fallback flag and looks up only the requested
   * locale; a fallback resolver with the flag off returns nothing and checks nothing.
   */
  lemma ResolutionGate(r: ResolverClass, s: Subject, env: Env, locale: string, withFallback: bool,
                       checked: seq<string>, attribute: Option<string>)
    ensures r == GivenLocale ==>
      Resolution(r, s, env, locale, withFallback, checked, attribute) == ByLocale(s, locale, checked, attribute)
    ensures r.Fallback? && !withFallback ==>
      Resolution(r, s, env, locale, withFallback, checked, attribute) == Lookup(None, checked)
  {
  }

  /** Every resolver keeps the checked list growing at its end and free of duplicates. */
  lemma ResolutionChecked(r: ResolverClass, s: Subject, env: Env, locale: string, withFallback: bool,
                          checked: seq<string>, attribute: Option<string>)
    ensures IsPrefix(checked, Resolution(r, s, env, locale, withFallback, checked, attribute).checked)
    ensures NoDuplicates(checked) ==> NoDuplicates(Resolution(r, s, env, locale, withFallback, checked, attribute).checked)
  {
    match r
    case GivenLocale =>
      if NoDuplicates(checked) && locale !in checked {
        NoDuplicatesAppend(checked, locale);
      }
    case Fallback(kind) =>
      if withFallback {
        TryCandidatesChecked(s, Candidates(kind, env, locale), checked, attribute);
      }
  }

  /** A row any resolver returns is the first row of a locale that was unchecked and yields. */
  lemma ResolutionFound(r: ResolverClass, s: Subject, env: Env, locale: string, withFallback: bool,
                        checked: seq<string>, attribute: Option<string>)
    requires Resolution(r, s, env, locale, withFallback, checked, attribute).found.Some?
    ensures exists l :: (l !in checked && Yields(s, l, attribute) &&
      Resolution(r, s, env, locale, withFallback, checked, attribute).found == FirstWhere(s.translations, l))
  {
    match r
    case GivenLocale =>
    case Fallback(kind) =>
      TryCandidatesFound(s, Candidates(kind, env, locale), checked, attribute);
  }

  /** `resolve` as the resolver class runs it: the fallback gate and the candidate loop. */
  method Resolve(r: ResolverClass, s: Subject, env: Env, locale: string, withFallback: bool,
                 checked: seq<string>, attribute: Option<string>)
    returns (found: Option<Translation>, checkedOut: seq<string>)
    ensures Lookup(found, checkedOut) == Resolution(r, s, env, locale, withFallback, checked, attribute)
  {
    match r {
      case GivenLocale =>
        var step := ByLocale(s, locale, checked, attribute);
        return step.found, step.checked;
      case Fallback(kind) =>
        if !withFallback {
          return None, checked;
        }
        var candidates := Candidates(kind, env, locale);
        checkedOut := checked;
        var i := 0;
        while i < |candidates|
          invariant 0 <= i <= |candidates|
          invariant TryCandidates(s, candidates[i..], checkedOut, attribute) == TryCandidates(s, candidates, checked, attribute)
        {
          assert candidates[i..][1..] == candidates[i + 1..];
          var step := ByLocale(s, candidates[i], checkedOut, attribute);
          if step.found.Some? {
            return step.found, step.checked;
          }
          checkedOut := step.checked;
          i := i + 1;
        }
        return None, checkedOut;
    }
  }

  // ---------------------------------------------------------------------------
  // The chain

  /** The resolvers in order with one shared checked list; the first row found wins. */
  function ChainResolution(chain: seq<ResolverClass>, s: Subject, env: Env, locale: string, withFallback: bool,
                           checked: seq<string>, attribute: Option<string>): Lookup
    decreases |chain|
  {
    if chain == [] then Lookup(None, checked)
    else
      var step := Resolution(chain[0], s, env, locale, withFallback, checked, attribute);
      if step.found.Some? then step else ChainResolution(chain[1..], s, env, locale, withFallback, step.checked, attribute)
  }

  /** One step of the chain, from resolver `i` on. */
  lemma ChainUnfold(chain: seq<ResolverClass>, i: nat, s: Subject, env: Env, locale: string, withFallback: bool,
                    checked: seq<string>, attribute: Option<string>)
    requires i < |chain|
    ensures var step := Resolution(chain[i], s, env, locale, withFallback, checked, attribute);
      ChainResolution(chain[i..], s, env, locale, withFallback, checked, attribute) ==
        if step.found.Some? then step else ChainResolution(chain[i + 1..], s, env, locale, withFallback, step.checked, attribute)
  {
    assert chain[i..][0] == chain[i];
    assert chain[i..][1..] == chain[i + 1..];
  }

  /**
   * The loop of `getTranslation` and `getAttributeOrFallback`: a fresh
   * checked list, each resolver in turn, and the first row one returns.
   */
  method RunChain(chain: seq<ResolverClass>, s: Subject, env: Env, locale: string, withFallback: bool,
                  attribute: Option<string>)
    returns (found: Option<Translation>)
    ensures found == ChainResolution(chain, s, env, locale, withFallback, [], attribute).found
  {
    var checked: seq<string> := [];
    var i := 0;
    while i < |chain|
      invariant 0 <= i <= |chain|
      invariant ChainResolution(chain[i..], s, env, locale, withFallback, checked, attribute) ==
        ChainResolution(chain, s, env, locale, withFallback, [], attribute)
    {
      ChainUnfold(chain, i, s, env, locale, withFallback, checked, attribute);
      found, checked := Resolve(chain[i], s, env, locale, withFallback, checked, attribute);
      if found.Some? {
        return;
      }
      i := i + 1;
    }
    return None;
  }

  /** The locales a resolver would look up, in order: the requested one, or the candidates when fallback is on. */
  function Proposed(r: ResolverClass, env: Env, locale: string, withFallback: bool): seq<string>
  {
    match r
    case GivenLocale => [locale]
    case Fallback(kind) => if withFallback then Candidates(kind, env, locale) else []
  }

  /**
   * A resolver that returns nothing found no proposed locale that was
   * unchecked and yields, and every locale it adds to the checked list yields nothing.
   */
  lemma ResolutionNone(r: ResolverClass, s: Subject, env: Env, locale: string, withFallback: bool,
                       checked: seq<string>, attribute: Option<string>)
    requires Resolution(r, s, env, locale, withFallback, checked, attribute).found.None?
    ensures forall l :: l in Proposed(r, env, locale, withFallback) ==> l in checked || !Yields(s, l, attribute)
    ensures forall l :: l in Resolution(r, s, env, locale, withFallback, checked, attribute).checked ==>
      l in checked || !Yields(s, l, attribute)
  {
    match r
    case GivenLocale =>
    case Fallback(kind) =>
      if withFallback {
        TryCandidatesNone(s, Candidates(kind, env, locale), checked, attribute);
      }
  }

  /**
   * When the whole chain returns nothing, no locale any resolver proposes
   * was unchecked and yields a row: the chain misses no row it could have found.
   */
  lemma {:induction false} ChainNone(chain: seq<ResolverClass>, s: Subject, env: Env, locale: string, withFallback: bool,
                                     checked: seq<string>, attribute: Option<string>)
    requires ChainResolution(chain, s, env, locale, withFallback, checked, attribute).found.None?
    ensures forall i, l :: 0 <= i < |chain| && l in Proposed(chain[i], env, locale, withFallback) ==>
      l in checked || !Yields(s, l, attribute)
    decreases |chain|
  {
    if chain != [] {
      var step := Resolution(chain[0], s, env, locale, withFallback, checked, attribute);
      ResolutionNone(chain[0], s, env, locale, withFallback, checked, attribute);
      ChainNone(chain[1..], s, env, locale, withFallback, step.checked, attribute);
      forall i, l | 0 <= i < |chain| && l in Proposed(chain[i], env, locale, withFallback)
        ensures l in checked || !Yields(s, l, attribute)
      {
        if i > 0 { assert chain[i] == chain[1..][i - 1]; }
      }
    }
  }

  /** The checked list resolver `i` of the chain is handed when every resolver before it returned nothing. */
  function CheckedBefore(chain: seq<ResolverClass>, s: Subject, env: Env, locale: string, withFallback: bool,
                         checked: seq<string>, attribute: Option<string>, i: nat): seq<string>
    requires i <= |chain|
    decreases i
  {
    if i == 0 then checked
    else
      var step := Resolution(chain[0], s, env, locale, withFallback, checked, attribute);
      CheckedBefore(chain[1..], s, env, locale, withFallback, step.checked, attribute, i - 1)
  }

  /** What resolver `i` returns on the checked list it is handed. */
  function StepAt(chain: seq<ResolverClass>, s: Subject, env: Env, locale: string, withFallback: bool,
                  checked: seq<string>, attribute: Option<string>, i: nat): Lookup
    requires i < |chain|
  {
    Resolution(chain[i], s, env, locale, withFallback, CheckedBefore(chain, s, env, locale, withFallback, checked, attribute, i), attribute)
  }

  /** Resolver `i` is the first of the chain to return a row. */
  predicate ChainWinsAt(chain: seq<ResolverClass>, s: Subject, env: Env, locale: string, withFallback: bool,
                        checked: seq<string>, attribute: Option<string>, i: int)
  {
    0 <= i < |chain| && StepAt(chain, s, env, locale, withFallback, checked, attribute, i).found.Some? &&
    forall j :: 0 <= j < i ==> StepAt(chain, s, env, locale, withFallback, checked, attribute, j).found.None?
  }

  /**
   * A row the chain returns comes from the first resolver that returns one,
   * run on the locales checked by the resolvers before it; the chain's
   * result is that resolver's result.
   */
  lemma {:induction false} ChainWinner(chain: seq<ResolverClass>, s: Subject, env: Env, locale: string, withFallback: bool,
                                       checked: seq<string>, attribute: Option<string>)
    requires ChainResolution(chain, s, env, locale, withFallback, checked, attribute).found.Some?
    ensures exists i :: (ChainWinsAt(chain, s, env, locale, withFallback, checked, attribute, i) &&
      ChainResolution(chain, s, env, locale, withFallback, checked, attribute) == StepAt(chain, s, env, locale, withFallback, checked, attribute, i))
    decreases |chain|
  {
    var step := Resolution(chain[0], s, env, locale, withFallback, checked, attribute);
    if step.found.Some? {
      assert ChainWinsAt(chain, s, env, locale, withFallback, checked, attribute, 0);
    } else {
      var rest := chain[1..];
      ChainWinner(rest, s, env, locale, withFallback, step.checked, attribute);
      var k :| ChainWinsAt(rest, s, env, locale, withFallback, step.checked, attribute, k) &&
        ChainResolution(rest, s, env, locale, withFallback, step.checked, attribute) == StepAt(rest, s, env, locale, withFallback, step.checked, attribute, k);
      ChainWinsAtShift(chain, s, env, locale, withFallback, checked, attribute, k);
    }
  }

  lemma ChainWinsAtShift(chain: seq<ResolverClass>, s: Subject, env: Env, locale: string, withFallback: bool,
                         checked: seq<string>, attribute: Option<string>, k: int)
    requires |chain| > 0
    requires Resolution(chain[0], s, env, locale, withFallback, checked, attribute).found.None?
    requires ChainWinsAt(chain[1..], s, env, locale, withFallback,
      Resolution(chain[0], s, env, locale, withFallback, checked, attribute).checked, attribute, k)
    ensures ChainWinsAt(chain, s, env, locale, withFallback, checked, attribute, k + 1)
    ensures StepAt(chain, s, env, locale, withFallback, checked, attribute, k + 1) ==
      StepAt(chain[1..], s, env, locale, withFallback, Resolution(chain[0], s, env, locale, withFallback, checked, attribute).checked, attribute, k)
  {
    var checked' := Resolution(chain[0], s, env, locale, withFallback, checked, attribute).checked;
    var rest := chain[1..];
    forall j | 0 <= j <= k
      ensures StepAt(chain, s, env, locale, withFallback, checked, attribute, j + 1) ==
        StepAt(rest, s, env, locale, withFallback, checked', attribute, j)
    {
      assert chain[j + 1] == rest[j];
    }
    forall j | 0 <= j < k + 1 ensures StepAt(chain, s, env, locale, withFallback, checked, attribute, j).found.None? {
      if j > 0 {
        assert StepAt(chain, s, env, locale, withFallback, checked, attribute, (j - 1) + 1) ==
          StepAt(rest, s, env, locale, withFallback, checked', attribute, j - 1);
      }
    }
  }

  /**
   * The resolver order of the package's default configuration, on which the
   * fallback tests rely. The configuration file itself is not part of this
   * model.
   */
  const DefaultChain: seq<ResolverClass> :=
    [GivenLocale, Fallback(CountryBasedLocale), Fallback(ConfigFallbackLocale), Fallback(FirstAvailableLocale)]

  /**
   * The default chain with fallback on, written out: the requested locale,
   * then the language of a country-based locale, then the configured
   * fallback locale, then the registry's locales in order, with one checked
   * list threaded through all four.
   */
  lemma DefaultChainUnrolled(s: Subject, env: Env, locale: string, attribute: Option<string>)
    ensures ChainResolution(DefaultChain, s, env, locale, true, [], attribute) ==
      var r0 := ByLocale(s, locale, [], attribute);
      if r0.found.Some? then r0 else
      var r1 := TryCandidates(s, Candidates(CountryBasedLocale, env, locale), r0.checked, attribute);
      if r1.found.Some? then r1 else
      var r2 := TryCandidates(s, Candidates(ConfigFallbackLocale, env, locale), r1.checked, attribute);
      if r2.found.Some? then r2 else
      TryCandidates(s, Candidates(FirstAvailableLocale, env, locale), r2.checked, attribute)
  {
    var c := DefaultChain;
    assert c[1..] == [Fallback(CountryBasedLocale), Fallback(ConfigFallbackLocale), Fallback(FirstAvailableLocale)];
    assert c[1..][1..] == [Fallback(ConfigFallbackLocale), Fallback(FirstAvailableLocale)];
    assert c[1..][1..][1..] == [Fallback(FirstAvailableLocale)];
    assert c[1..][1..][1..][1..] == [];
  }

  /** `getTranslationResolvers`: `GivenLocale` is put in front when the configured list lacks it. */
  function EffectiveChain(configured: seq<ResolverClass>): (chain: seq<ResolverClass>)
    ensures GivenLocale in chain
    ensures GivenLocale in configured ==> chain == configured
    ensures GivenLocale !in configured ==> chain[0] == GivenLocale && chain[1..] == configured
  {
    if GivenLocale in configured then configured else [GivenLocale] + configured
  }

  /** No locale is looked up twice in one resolution: the checked list stays duplicate-free. */
  lemma {:induction false} ChainChecked(chain: seq<ResolverClass>, s: Subject, env: Env, locale: string, withFallback: bool,
                                        checked: seq<string>, attribute: Option<string>)
    ensures IsPrefix(checked, ChainResolution(chain, s, env, locale, withFallback, checked, attribute).checked)
    ensures NoDuplicates(checked) ==> NoDuplicates(ChainResolution(chain, s, env, locale, withFallback, checked, attribute).checked)
    decreases |chain|
  {
    if chain != [] {
      var step := Resolution(chain[0], s, env, locale, withFallback, checked, attribute);
      ResolutionChecked(chain[0], s, env, locale, withFallback, checked, attribute);
      if step.found.None? {
        ChainChecked(chain[1..], s, env, locale, withFallback, step.checked, attribute);
        var r := ChainResolution(chain[1..], s, env, locale, withFallback, step.checked, attribute);
        assert r.checked[..|checked|] == step.checked[..|checked|];
      }
    }
  }

  /** A row the chain returns is the first row of some locale and passes the attribute test. */
  lemma {:induction false} ChainFound(chain: seq<ResolverClass>, s: Subject, env: Env, locale: string, withFallback: bool,
                                      checked: seq<string>, attribute: Option<string>)
    requires ChainResolution(chain, s, env, locale, withFallback, checked, attribute).found.Some?
    ensures exists l :: (l !in checked && Yields(s, l, attribute) &&
      ChainResolution(chain, s, env, locale, withFallback, checked, attribute).found == FirstWhere(s.translations, l))
    decreases |chain|
  {
    var step := Resolution(chain[0], s, env, locale, withFallback, checked, attribute);
    if step.found.Some? {
      ResolutionFound(chain[0], s, env, locale, withFallback, checked, attribute);
    } else {
      ChainFound(chain[1..], s, env, locale, withFallback, step.checked, attribute);
      ResolutionChecked(chain[0], s, env, locale, withFallback, checked, attribute);
      var l :| l !in step.checked && Yields(s, l, attribute) &&
        ChainResolution(chain[1..], s, env, locale, withFallback, step.checked, attribute).found == FirstWhere(s.translations, l);
      assert step.checked[..|checked|] == checked;
      assert l !in checked;
    }
  }

  /**
   * When the chain starts with `GivenLocale` and the requested locale yields
   * a row, that exact row is returned, whatever resolvers follow.
   */
  lemma ExactMatchFirst(chain: seq<ResolverClass>, s: Subject, env: Env, locale: string, withFallback: bool,
                        attribute: Option<string>)
    requires |chain| > 0 && chain[0] == GivenLocale && Yields(s, locale, attribute)
    ensures ChainResolution(chain, s, env, locale, withFallback, [], attribute).found == FirstWhere(s.translations, locale)
  {
    assert Resolution(chain[0], s, env, locale, withFallback, [], attribute).found.Some?;
  }

  /** Once the requested locale is checked and fallback is off, no resolver returns anything. */
  lemma {:induction false} ChainCheckedNoFallback(chain: seq<ResolverClass>, s: Subject, env: Env, locale: string,
                                                  checked: seq<string>, attribute: Option<string>)
    requires locale in checked
    ensures ChainResolution(chain, s, env, locale, false, checked, attribute) == Lookup(None, checked)
    decreases |chain|
  {
    if chain != [] {
      assert Resolution(chain[0], s, env, locale, false, checked, attribute) == Lookup(None, checked);
      ChainCheckedNoFallback(chain[1..], s, env, locale, checked, attribute);
    }
  }

  /**
   * With fallback off, a chain containing `GivenLocale` returns exactly the
   * first row of the requested locale when it yields, and nothing otherwise.
   */
  lemma {:induction false} ChainNoFallback(chain: seq<ResolverClass>, s: Subject, env: Env, locale: string,
                                           checked: seq<string>, attribute: Option<string>)
    requires GivenLocale in chain && locale !in checked
    ensures ChainResolution(chain, s, env, locale, false, checked, attribute).found ==
      (if Yields(s, locale, attribute) then FirstWhere(s.translations, locale) else None)
    decreases |chain|
  {
    var step := Resolution(chain[0], s, env, locale, false, checked, attribute);
    if chain[0] == GivenLocale {
      if step.found.None? {
        ChainCheckedNoFallback(chain[1..], s, env, locale, step.checked, attribute);
      }
    } else {
      assert step == Lookup(None, checked);
      assert GivenLocale in chain[1..];
      ChainNoFallback(chain[1..], s, env, locale, checked, attribute);
    }
  }

  /**
   * When no row has an attribute that is empty under the policy, the
   * attribute variant resolves to the same row and checks the same locales
   * as plain resolution.
   */
  lemma {:induction false} ChainAttributeAgrees(chain: seq<ResolverClass>, s: Subject, env: Env, locale: string,
                                                withFallback: bool, checked: seq<string>, a: string)
    requires forall t :: t in s.translations ==> !s.isEmptyAttribute(a, Attribute(t, a))
    ensures ChainResolution(chain, s, env, locale, withFallback, checked, Some(a)) ==
      ChainResolution(chain, s, env, locale, withFallback, checked, None)
    decreases |chain|
  {
    AcceptsAll(s, a);
    if chain != [] {
      ResolutionAttributeAgrees(chain[0], s, env, locale, withFallback, checked, a);
      var step := Resolution(chain[0], s, env, locale, withFallback, checked, None);
      if step.found.None? {
        ChainAttributeAgrees(chain[1..], s, env, locale, withFallback, step.checked, a);
      }
    }
  }

  lemma AcceptsAll(s: Subject, a: string)
    requires forall t :: t in s.translations ==> !s.isEmptyAttribute(a, Attribute(t, a))
    ensures forall l :: Yields(s, l, Some(a)) <==> Yields(s, l, None)
  {
    forall l | Yields(s, l, None) ensures Yields(s, l, Some(a)) {
      FirstWhereSpec(s.translations, l);
      var i :| 0 <= i < |s.translations| && s.translations[i] == FirstWhere(s.translations, l).value;
      assert FirstWhere(s.translations, l).value in s.translations;
    }
  }

  lemma ResolutionAttributeAgrees(r: ResolverClass, s: Subject, env: Env, locale: string,
                                  withFallback: bool, checked: seq<string>, a: string)
    requires forall l :: Yields(s, l, Some(a)) <==> Yields(s, l, None)
    ensures Resolution(r, s, env, locale, withFallback, checked, Some(a)) ==
      Resolution(r, s, env, locale, withFallback, checked, None)
  {
    match r
    case GivenLocale =>
    case Fallback(kind) =>
      if withFallback {
        TryCandidatesAttributeAgrees(s, Candidates(kind, env, locale), checked, a);
      }
  }

  lemma {:induction false} TryCandidatesAttributeAgrees(s: Subject, candidates: seq<string>, checked: seq<string>, a: string)
    requires forall l :: Yields(s, l, Some(a)) <==> Yields(s, l, None)
    ensures TryCandidates(s, candidates, checked, Some(a)) == TryCandidates(s, candidates, checked, None)
    decreases |candidates|
  {
    if candidates != [] {
      var step := ByLocale(s, candidates[0], checked, None);
      assert ByLocale(s, candidates[0], checked, Some(a)) == step;
      if step.found.None? {
        TryCandidatesAttributeAgrees(s, candidates[1..], step.checked, a);
      }
    }
  }
}
