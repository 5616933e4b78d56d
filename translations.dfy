/**
 * Translation rows as values, and the collection lookup the resolvers use
 * (`$translatable->translations->firstWhere(<locale column>, $locale)`).
 */
module Translations {
  import opened Common

  /**
   * One translation row. `locale` is the locale column; `attributes` are the
   * row's other columns and `original` their values when last loaded or
   * saved, from which Eloquent derives the dirty set.
   */
  datatype Translation = Translation(locale: string, attributes: map<string, Value>, original: map<string, Value>)

  /** `$translation->{$attribute}`: a column that is not set reads as null. */
  function Attribute(t: Translation, attribute: string): Value
  {
    if attribute in t.attributes then t.attributes[attribute] else Null
  }

  /** Eloquent's `getDirty()` without the locale column: the columns that differ from `original`. */
  function DirtyAttributes(t: Translation): set<string>
  {
    set k | k in t.attributes && (k !in t.original || t.original[k] != t.attributes[k])
  }

  /** A fresh, unsaved row stamped with `locale` (getNewTranslation). */
  function NewTranslation(locale: string): (t: Translation)
    ensures t.locale == locale && DirtyAttributes(t) == {}
  {
    Translation(locale, map[], map[])
  }

  /** The position of the first row whose locale column equals `locale`. */
  function FirstIndex(rows: seq<Translation>, locale: string): (r: Option<nat>)
    ensures r.Some? ==> r.value < |rows| && rows[r.value].locale == locale
    ensures r.Some? ==> forall j :: 0 <= j < r.value ==> rows[j].locale != locale
    ensures r.None? <==> forall j :: 0 <= j < |rows| ==> rows[j].locale != locale
  {
    if rows == [] then None
    else if rows[0].locale == locale then Some(0)
    else match FirstIndex(rows[1..], locale)
      case None => None
      case Some(i) => Some(i + 1)
  }

  /** `firstWhere(<locale column>, $locale)`: the first row of that locale, or null. */
  function FirstWhere(rows: seq<Translation>, locale: string): Option<Translation>
  {
    match FirstIndex(rows, locale)
    case None => None
    case Some(i) => Some(rows[i])
  }

  /** Some row of the collection has locale `locale`. */
  predicate HasLocale(rows: seq<Translation>, locale: string)
  {
    exists i :: 0 <= i < |rows| && rows[i].locale == locale
  }

  /** `t` is the earliest row of `rows` whose locale is `locale`. */
  predicate IsFirstRowOf(rows: seq<Translation>, locale: string, t: Translation)
  {
    exists i :: 0 <= i < |rows| && rows[i] == t && t.locale == locale &&
      forall j :: 0 <= j < i ==> rows[j].locale != locale
  }

  /** The lookup finds a row exactly when some row has the locale, and it is the earliest such row. */
  lemma FirstWhereSpec(rows: seq<Translation>, locale: string)
    ensures FirstWhere(rows, locale).Some? <==> HasLocale(rows, locale)
    ensures FirstWhere(rows, locale).Some? ==> IsFirstRowOf(rows, locale, FirstWhere(rows, locale).value)
  {
    var r := FirstIndex(rows, locale);
    if r.Some? {
      assert rows[r.value] == FirstWhere(rows, locale).value;
    }
  }

  /** Appending rows does not change what an existing locale resolves to. */
  lemma {:induction false} FirstWhereAppend(rows: seq<Translation>, extra: seq<Translation>, locale: string)
    requires HasLocale(rows, locale)
    ensures FirstWhere(rows + extra, locale) == FirstWhere(rows, locale)
  {
    var i := FirstIndex(rows, locale).value;
    assert forall j :: 0 <= j <= i ==> (rows + extra)[j] == rows[j];
    assert FirstIndex(rows + extra, locale) == Some(i);
  }

  /** The lookup finds row `i` when it has the locale and no earlier row has. */
  lemma FirstWhereAt(rows: seq<Translation>, locale: string, i: nat)
    requires i < |rows| && rows[i].locale == locale && forall j :: 0 <= j < i ==> rows[j].locale != locale
    ensures FirstWhere(rows, locale) == Some(rows[i])
  {
    var r := FirstIndex(rows, locale);
    assert r.Some?;
    assert !(r.value < i) && !(i < r.value);
  }

  /** The lookup finds nothing when no row has the locale. */
  lemma FirstWhereMissing(rows: seq<Translation>, locale: string)
    requires forall j :: 0 <= j < |rows| ==> rows[j].locale != locale
    ensures FirstWhere(rows, locale) == None
  {
  }
}
