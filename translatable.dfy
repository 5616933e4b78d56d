/**
 * The `Translatable` trait: a model with translated attributes whose values
 * live in translation rows, one or more per locale. Reads and writes of a
 * translated attribute (`name` or `name:locale`) are routed to the row of the
 * effective locale; rows are created on demand, flattened to a
 * `locale => attribute => value` array, deleted by locale and saved when dirty.
 */
module TranslatableTrait {
  import opened Common
  import opened Strings
  import opened Configuration
  import opened OrderedMap
  import opened Translations
  import opened LocalesRegistry
  import opened TranslationResolvers

  // ---------------------------------------------------------------------------
  // Rows as values

  /** `isTranslationDirty`: some column other than the locale differs from its original value. */
  predicate IsTranslationDirty(t: Translation)
    ensures IsTranslationDirty(t) <==>
      exists k :: k in t.attributes && (k !in t.original || t.original[k] != t.attributes[k])
  {
    assert forall k :: k in DirtyAttributes(t) <==> k in t.attributes && (k !in t.original || t.original[k] != t.attributes[k]);
    DirtyAttributes(t) != {}
  }

  /** The rows after `getTranslationOrNew(l)`: a new row of locale `l` is appended only when none exists. */
  function RowsWithLocale(rows: seq<Translation>, l: string): (r: seq<Translation>)
    ensures HasLocale(r, l) && IsPrefix(rows, r)
    ensures HasLocale(rows, l) ==> r == rows
    ensures !HasLocale(rows, l) ==> r == rows + [NewTranslation(l)]
  {
    if HasLocale(rows, l) then rows else
      assert (rows + [NewTranslation(l)])[|rows|].locale == l;
      rows + [NewTranslation(l)]
  }

  /**
   * Creating on demand is idempotent: a second `getTranslationOrNew(l)`
   * leaves the rows alone and finds the same row as the first.
   */
  lemma RowsWithLocaleIdempotent(rows: seq<Translation>, l: string)
    ensures RowsWithLocale(RowsWithLocale(rows, l), l) == RowsWithLocale(rows, l)
    ensures FirstWhere(RowsWithLocale(rows, l), l) ==
      (if HasLocale(rows, l) then FirstWhere(rows, l) else Some(NewTranslation(l)))
  {
    if !HasLocale(rows, l) {
      var r := RowsWithLocale(rows, l);
      FirstWhereSpec(r, l);
      var i :| 0 <= i < |r| && r[i] == FirstWhere(r, l).value && r[i].locale == l &&
        forall j :: 0 <= j < i ==> r[j].locale != l;
      assert i == |rows|;
    }
  }

  /** The row found for `l`, as a position; used to write through to it. */
  function FirstRowIndex(rows: seq<Translation>, l: string): (i: nat)
    requires HasLocale(rows, l)
    ensures i < |rows| && FirstWhere(rows, l) == Some(rows[i]) && rows[i].locale == l
    ensures forall j :: 0 <= j < i ==> rows[j].locale != l
  {
    FirstWhereSpec(rows, l);
    FirstIndex(rows, l).value
  }

  /** `$translation->$attribute = $value` on the first row of locale `l`. */
  function WithRowAttribute(rows: seq<Translation>, l: string, attribute: string, value: Value): (r: seq<Translation>)
    requires HasLocale(rows, l)
    ensures |r| == |rows| && forall i :: 0 <= i < |rows| ==> r[i].locale == rows[i].locale
    ensures Attribute(FirstWhere(r, l).value, attribute) == value
    ensures FirstWhere(r, l).value.original == FirstWhere(rows, l).value.original
    ensures forall k :: k != attribute ==> Attribute(FirstWhere(r, l).value, k) == Attribute(FirstWhere(rows, l).value, k)
    ensures forall i :: 0 <= i < |rows| && i != FirstRowIndex(rows, l) ==> r[i] == rows[i]
  {
    var i := FirstRowIndex(rows, l);
    var t := rows[i];
    var r := rows[i := t.(attributes := t.attributes[attribute := value])];
    assert forall j :: 0 <= j < |r| ==> r[j].locale == rows[j].locale;
    assert FirstIndex(r, l) == Some(i);
    r
  }

  /**
   * The translation model's own `fill`: each entry is written, in order, so
   * every column reads as the last value written to it, and a column no
   * entry names keeps its value.
   */
  function FillRow(t: Translation, entries: Entries<Value>): (r: Translation)
    ensures r.locale == t.locale && r.original == t.original
    ensures forall k :: Attribute(r, k) == (if LastValue(entries, k).Some? then LastValue(entries, k).value else Attribute(t, k))
    ensures forall k :: k in r.attributes <==> k in t.attributes || k in Keys(entries)
    decreases |entries|
  {
    if entries == [] then t
    else
      var init := entries[..|entries| - 1];
      var last := entries[|entries| - 1];
      KeysSnoc(init, last);
      assert entries == init + [last];
      var r := FillRow(t, init);
      r.(attributes := r.attributes[last.0 := last.1])
  }

  /** Filling with `a` and then with `b` is filling with `a + b`. */
  lemma {:induction false} FillRowAppend(t: Translation, a: Entries<Value>, b: Entries<Value>)
    ensures FillRow(FillRow(t, a), b) == FillRow(t, a + b)
    decreases |b|
  {
    if b == [] {
      assert a + b == a;
    } else {
      var init := b[..|b| - 1];
      assert (a + b)[..|a + b| - 1] == a + init;
      assert (a + b)[|a + b| - 1] == b[|b| - 1];
      FillRowAppend(t, a, init);
    }
  }

  /** `getTranslationOrNew(l)->fill($entries)` on the rows: the first row of `l` is filled, no other row changes. */
  function FillFirst(rows: seq<Translation>, l: string, entries: Entries<Value>): (r: seq<Translation>)
    requires HasLocale(rows, l)
    ensures |r| == |rows| && forall i :: 0 <= i < |rows| ==> r[i].locale == rows[i].locale
    ensures FirstWhere(r, l) == Some(FillRow(FirstWhere(rows, l).value, entries))
    ensures forall i :: 0 <= i < |rows| && i != FirstRowIndex(rows, l) ==> r[i] == rows[i]
  {
    var i := FirstRowIndex(rows, l);
    var r := rows[i := FillRow(rows[i], entries)];
    assert forall j :: 0 <= j < |r| ==> r[j].locale == rows[j].locale;
    assert FirstIndex(r, l) == Some(i);
    r
  }

  /** The foreign key written onto a row before it is saved. */
  function Stamp(t: Translation, relationKey: string, key: Value): Translation
  {
    t.(attributes := t.attributes[relationKey := key])
  }

  /** A row after `$translation->save()`: on success Eloquent syncs the original values. */
  function AfterSave(t: Translation, ok: bool): (r: Translation)
    ensures ok ==> !IsTranslationDirty(r)
    ensures !ok ==> r == t
  {
    if ok then t.(original := t.attributes) else t
  }

  /**
   * The `saveTranslations` loop from flag `saved` on: a row is saved only
   * while every save so far succeeded, and only when it is dirty.
   */
  function SaveRows(rows: seq<Translation>, save: Translation -> bool, relationKey: string, key: Value, saved: bool):
    (r: (bool, seq<Translation>))
    ensures |r.1| == |rows|
    ensures r.0 ==> saved
  {
    if rows == [] then (saved, [])
    else if saved && IsTranslationDirty(rows[0]) then
      var stamped := Stamp(rows[0], relationKey, key);
      var ok := save(stamped);
      var rest := SaveRows(rows[1..], save, relationKey, key, ok);
      (rest.0, [AfterSave(stamped, ok)] + rest.1)
    else
      var rest := SaveRows(rows[1..], save, relationKey, key, saved);
      (rest.0, [rows[0]] + rest.1)
  }

  /**
   * `isTranslationDirty` as declared: its parameter admits only rows whose
   * model implements the package's `Translatable` contract, and any other
   * row is a `TypeError` before the body runs.
   */
  function DirtyCheckAsDeclared(t: Translation, implementsContract: bool): Result<bool, Error>
  {
    if implementsContract then Success(IsTranslationDirty(t)) else Failure(TypeError)
  }

  /** The `saveTranslations` loop with the dirty check as declared; only the reported flag is kept. */
  function SaveRowsAsDeclared(rows: seq<Translation>, save: Translation -> bool, relationKey: string, key: Value,
                              saved: bool, implementsContract: bool): Result<bool, Error>
    decreases |rows|
  {
    if rows == [] then Success(saved)
    else if !saved then SaveRowsAsDeclared(rows[1..], save, relationKey, key, saved, implementsContract)
    else match DirtyCheckAsDeclared(rows[0], implementsContract)
      case Failure(e) => Failure(e)
      case Success(dirty) =>
        var next := if dirty then save(Stamp(rows[0], relationKey, key)) else saved;
        SaveRowsAsDeclared(rows[1..], save, relationKey, key, next, implementsContract)
  }

  /**
   * As declared, saving a model whose translation model does not implement
   * the contract fails with a `TypeError` as soon as one row is loaded,
   * whatever the rows hold and whatever `save()` would answer.
   */
  lemma SaveAsDeclaredRejectsPlainRows(rows: seq<Translation>, save: Translation -> bool, relationKey: string, key: Value)
    requires rows != []
    ensures SaveRowsAsDeclared(rows, save, relationKey, key, true, false) == Failure(TypeError)
  {
  }

  /** With a translation model that implements the contract, the declared loop reports what `SaveRows` reports. */
  lemma {:induction false} SaveAsDeclaredWithContract(rows: seq<Translation>, save: Translation -> bool, relationKey: string,
                                                      key: Value, saved: bool)
    ensures SaveRowsAsDeclared(rows, save, relationKey, key, saved, true) == Success(SaveRows(rows, save, relationKey, key, saved).0)
    decreases |rows|
  {
    if rows != [] {
      var next := if saved && IsTranslationDirty(rows[0]) then save(Stamp(rows[0], relationKey, key)) else saved;
      SaveAsDeclaredWithContract(rows[1..], save, relationKey, key, next);
    }
  }

  /** Every dirty row before position `i` saves successfully. */
  predicate SavedBefore(rows: seq<Translation>, save: Translation -> bool, relationKey: string, key: Value, i: int)
    requires 0 <= i <= |rows|
  {
    forall j :: 0 <= j < i && IsTranslationDirty(rows[j]) ==> save(Stamp(rows[j], relationKey, key))
  }

  /** `saveTranslations` reports success exactly when every dirty row saves. */
  lemma {:induction false} SaveRowsResult(rows: seq<Translation>, save: Translation -> bool, relationKey: string, key: Value, saved: bool)
    ensures SaveRows(rows, save, relationKey, key, saved).0 <==> saved && SavedBefore(rows, save, relationKey, key, |rows|)
    decreases |rows|
  {
    if rows != [] {
      var next := if saved && IsTranslationDirty(rows[0]) then save(Stamp(rows[0], relationKey, key)) else saved;
      SaveRowsResult(rows[1..], save, relationKey, key, next);
      SavedBeforeShift(rows, save, relationKey, key, saved, |rows|);
    }
  }

  /** The flag after the first row, together with the later rows, says what the flag says for all rows. */
  lemma SavedBeforeShift(rows: seq<Translation>, save: Translation -> bool, relationKey: string, key: Value, saved: bool, i: nat)
    requires 1 <= i <= |rows|
    ensures var next := if saved && IsTranslationDirty(rows[0]) then save(Stamp(rows[0], relationKey, key)) else saved;
      (saved && SavedBefore(rows, save, relationKey, key, i)) <==> (next && SavedBefore(rows[1..], save, relationKey, key, i - 1))
  {
    var tail := rows[1..];
    assert forall j :: 1 <= j < i ==> rows[j] == tail[j - 1];
    var next := if saved && IsTranslationDirty(rows[0]) then save(Stamp(rows[0], relationKey, key)) else saved;
    if next && SavedBefore(tail, save, relationKey, key, i - 1) {
      forall j | 0 <= j < i && IsTranslationDirty(rows[j]) ensures save(Stamp(rows[j], relationKey, key)) {
        if j > 0 { assert rows[j] == tail[j - 1]; }
      }
    }
  }

  /**
   * Row `i` is stamped and saved exactly when it is dirty and every dirty
   * row before it saved; every other row is left as it was.
   */
  lemma SaveRowsRows(rows: seq<Translation>, save: Translation -> bool, relationKey: string, key: Value, saved: bool)
    ensures forall i :: 0 <= i < |rows| ==> (SaveRows(rows, save, relationKey, key, saved).1[i] ==
      (if saved && IsTranslationDirty(rows[i]) && SavedBefore(rows, save, relationKey, key, i)
       then AfterSave(Stamp(rows[i], relationKey, key), save(Stamp(rows[i], relationKey, key)))
       else rows[i]))
  {
    forall i | 0 <= i < |rows|
      ensures SaveRows(rows, save, relationKey, key, saved).1[i] ==
        (if saved && IsTranslationDirty(rows[i]) && SavedBefore(rows, save, relationKey, key, i)
         then AfterSave(Stamp(rows[i], relationKey, key), save(Stamp(rows[i], relationKey, key))) else rows[i])
    {
      SaveRowsRow(rows, save, relationKey, key, saved, i);
    }
  }

  lemma {:induction false} SaveRowsRow(rows: seq<Translation>, save: Translation -> bool, relationKey: string, key: Value, saved: bool, i: nat)
    requires i < |rows|
    ensures SaveRows(rows, save, relationKey, key, saved).1[i] ==
      (if saved && IsTranslationDirty(rows[i]) && SavedBefore(rows, save, relationKey, key, i)
       then AfterSave(Stamp(rows[i], relationKey, key), save(Stamp(rows[i], relationKey, key)))
       else rows[i])
    decreases i
  {
    if i > 0 {
      var tail := rows[1..];
      var next := if saved && IsTranslationDirty(rows[0]) then save(Stamp(rows[0], relationKey, key)) else saved;
      SaveRowsRow(tail, save, relationKey, key, next, i - 1);
      SavedBeforeShift(rows, save, relationKey, key, saved, i);
      assert SaveRows(rows, save, relationKey, key, saved).1[i] == SaveRows(tail, save, relationKey, key, next).1[i - 1];
      assert rows[i] == tail[i - 1];
    }
  }

  /** When every save succeeds, no row is left dirty. */
  lemma SaveRowsAllSucceed(rows: seq<Translation>, save: Translation -> bool, relationKey: string, key: Value)
    requires forall t :: save(t)
    ensures SaveRows(rows, save, relationKey, key, true).0
    ensures forall i :: 0 <= i < |rows| ==> !IsTranslationDirty(SaveRows(rows, save, relationKey, key, true).1[i])
  {
    SaveRowsResult(rows, save, relationKey, key, true);
    SaveRowsRows(rows, save, relationKey, key, true);
  }

  /**
   * The `saveTranslations` loop after `i` rows: `rs` holds the rows already
   * processed and the untouched rest, and finishing from flag `saved` gives
   * the outcome `result` of the whole loop.
   */
  ghost predicate SaveLoop(rows: seq<Translation>, rs: seq<Translation>, i: nat, save: Translation -> bool,
                           relationKey: string, key: Value, saved: bool, result: (bool, seq<Translation>))
  {
    i <= |rows| && |rs| == |rows| && rs[i..] == rows[i..] &&
    SaveRows(rows[i..], save, relationKey, key, saved).0 == result.0 &&
    rs[..i] + SaveRows(rows[i..], save, relationKey, key, saved).1 == result.1
  }

  lemma SaveStart(rows: seq<Translation>, save: Translation -> bool, relationKey: string, key: Value)
    ensures SaveLoop(rows, rows, 0, save, relationKey, key, true, SaveRows(rows, save, relationKey, key, true))
  {
    assert rows[0..] == rows;
    assert rows[..0] + SaveRows(rows, save, relationKey, key, true).1 == SaveRows(rows, save, relationKey, key, true).1;
  }

  /** One pass of the loop body keeps the loop's bookkeeping, in both branches. */
  lemma SaveStep(rows: seq<Translation>, rs: seq<Translation>, i: nat, save: Translation -> bool,
                 relationKey: string, key: Value, saved: bool, result: (bool, seq<Translation>))
    requires i < |rows| && SaveLoop(rows, rs, i, save, relationKey, key, saved, result)
    ensures var stamped := Stamp(rs[i], relationKey, key);
      saved && IsTranslationDirty(rs[i]) ==>
        SaveLoop(rows, rs[i := AfterSave(stamped, save(stamped))], i + 1, save, relationKey, key, save(stamped), result)
    ensures !(saved && IsTranslationDirty(rs[i])) ==> SaveLoop(rows, rs, i + 1, save, relationKey, key, saved, result)
  {
    SaveRowsUnfold(rows, i, save, relationKey, key, saved);
    assert rs[i] == rows[i];
  }

  lemma SaveDone(rows: seq<Translation>, rs: seq<Translation>, save: Translation -> bool,
                 relationKey: string, key: Value, saved: bool, result: (bool, seq<Translation>))
    requires SaveLoop(rows, rs, |rows|, save, relationKey, key, saved, result)
    ensures saved == result.0 && rs == result.1
  {
    assert rows[|rows|..] == [];
    assert rs[..|rows|] == rs;
  }

  /** One row of the `saveTranslations` loop. */
  lemma SaveRowsUnfold(rows: seq<Translation>, i: nat, save: Translation -> bool, relationKey: string, key: Value, saved: bool)
    requires i < |rows|
    ensures SaveRows(rows[i..], save, relationKey, key, saved) ==
      if saved && IsTranslationDirty(rows[i]) then
        var ok := save(Stamp(rows[i], relationKey, key));
        var rest := SaveRows(rows[i + 1..], save, relationKey, key, ok);
        (rest.0, [AfterSave(Stamp(rows[i], relationKey, key), ok)] + rest.1)
      else
        var rest := SaveRows(rows[i + 1..], save, relationKey, key, saved);
        (rest.0, [rows[i]] + rest.1)
  {
    assert rows[i..][0] == rows[i];
    assert rows[i..][1..] == rows[i + 1..];
  }

  /** `deleteTranslations($locales)` followed by the reload: `None` removes every row. */
  function Undeleted(rows: seq<Translation>, locales: Option<seq<string>>): (r: seq<Translation>)
    ensures locales.None? ==> r == []
    ensures locales.Some? ==> forall t :: t in r <==> t in rows && t.locale !in locales.value
  {
    match locales
    case None => []
    case Some(ls) => Keep(rows, ls)
  }

  /** The rows whose locale is not listed, in order. */
  function Keep(rows: seq<Translation>, ls: seq<string>): (r: seq<Translation>)
    ensures forall t :: t in r <==> t in rows && t.locale !in ls
    ensures |r| <= |rows|
  {
    if rows == [] then []
    else (if rows[0].locale in ls then [] else [rows[0]]) + Keep(rows[1..], ls)
  }

  /** Deleting an empty list of locales keeps every row, in order. */
  lemma {:induction false} KeepNothingListed(rows: seq<Translation>)
    ensures Keep(rows, []) == rows
  {
    if rows != [] {
      KeepNothingListed(rows[1..]);
    }
  }

  // ---------------------------------------------------------------------------
  // getTranslationsArray

  /** `$m[$l] ?? []`. */
  function GetOrEmpty(m: Entries<Entries<Value>>, l: string): Entries<Value>
  {
    match Get(m, l)
    case None => []
    case Some(inner) => inner
  }

  /** `$m[$l][$a] = $v`. */
  function PutCell(m: Entries<Entries<Value>>, l: string, a: string, v: Value): (r: Entries<Entries<Value>>)
    ensures Get(GetOrEmpty(r, l), a) == Some(v)
    ensures forall b :: b != a ==> Get(GetOrEmpty(r, l), b) == Get(GetOrEmpty(m, l), b)
    ensures forall l' :: l' != l ==> Get(r, l') == Get(m, l')
    ensures forall l' :: l' in Keys(r) <==> l' in Keys(m) || l' == l
  {
    var r := Put(m, l, Put(GetOrEmpty(m, l), a, v));
    assert forall l' :: l' in Keys(r) <==> Get(r, l').Some?;
    assert forall l' :: l' in Keys(m) <==> Get(m, l').Some?;
    r
  }

  /** The inner loop for one row: one cell per translated attribute. */
  function PutRow(m: Entries<Entries<Value>>, t: Translation, attrs: seq<string>): (r: Entries<Entries<Value>>)
    ensures forall l' :: l' != t.locale ==> Get(r, l') == Get(m, l')
    ensures forall l' :: l' in Keys(r) <==> l' in Keys(m) || (l' == t.locale && attrs != [])
    ensures forall a :: a in attrs ==> Get(GetOrEmpty(r, t.locale), a) == Some(Attribute(t, a))
    ensures forall a :: a !in attrs ==> Get(GetOrEmpty(r, t.locale), a) == Get(GetOrEmpty(m, t.locale), a)
  {
    if attrs == [] then m
    else
      var init := attrs[..|attrs| - 1];
      var a := attrs[|attrs| - 1];
      assert attrs == init + [a];
      assert forall x :: x in attrs <==> x in init || x == a;
      PutCell(PutRow(m, t, init), t.locale, a, Attribute(t, a))
  }

  /** `getTranslationsArray`: rows in order, each writing its translated attributes. */
  function TranslationsArray(rows: seq<Translation>, attrs: seq<string>): Entries<Entries<Value>>
  {
    if rows == [] then [] else PutRow(TranslationsArray(rows[..|rows| - 1], attrs), rows[|rows| - 1], attrs)
  }

  /** Position of the last row of locale `l`. */
  function LastRowIndex(rows: seq<Translation>, l: string): (i: nat)
    requires HasLocale(rows, l)
    ensures i < |rows| && rows[i].locale == l && forall j :: i < j < |rows| ==> rows[j].locale != l
  {
    if rows[|rows| - 1].locale == l then |rows| - 1
    else
      assert HasLocale(rows[..|rows| - 1], l) by {
        var k :| 0 <= k < |rows| && rows[k].locale == l;
        assert rows[..|rows| - 1][k].locale == l;
      }
      LastRowIndex(rows[..|rows| - 1], l)
  }

  lemma HasLocaleSnoc(rows: seq<Translation>, l: string)
    requires rows != []
    ensures HasLocale(rows, l) <==> HasLocale(rows[..|rows| - 1], l) || rows[|rows| - 1].locale == l
  {
    var init := rows[..|rows| - 1];
    if HasLocale(rows, l) && rows[|rows| - 1].locale != l {
      var k :| 0 <= k < |rows| && rows[k].locale == l;
      assert init[k].locale == l;
    }
    if HasLocale(init, l) {
      var k :| 0 <= k < |init| && init[k].locale == l;
      assert rows[k].locale == l;
    }
  }

  /** The array has a key for exactly the locales that have a row, when there are translated attributes at all. */
  lemma {:induction false} TranslationsArrayKeys(rows: seq<Translation>, attrs: seq<string>, l: string)
    ensures l in Keys(TranslationsArray(rows, attrs)) <==> attrs != [] && HasLocale(rows, l)
    decreases |rows|
  {
    if rows != [] {
      TranslationsArrayKeys(rows[..|rows| - 1], attrs, l);
      HasLocaleSnoc(rows, l);
    }
  }

  /** For each locale with a row and each translated attribute, the array holds the last such row's value. */
  lemma {:induction false} TranslationsArrayCells(rows: seq<Translation>, attrs: seq<string>, l: string, a: string)
    requires HasLocale(rows, l) && a in attrs
    ensures Get(GetOrEmpty(TranslationsArray(rows, attrs), l), a) == Some(Attribute(rows[LastRowIndex(rows, l)], a))
    decreases |rows|
  {
    var init := rows[..|rows| - 1];
    HasLocaleSnoc(rows, l);
    if rows[|rows| - 1].locale != l {
      TranslationsArrayCells(init, attrs, l, a);
      assert LastRowIndex(rows, l) == LastRowIndex(init, l);
      assert rows[LastRowIndex(init, l)] == init[LastRowIndex(init, l)];
      assert GetOrEmpty(TranslationsArray(rows, attrs), l) == GetOrEmpty(TranslationsArray(init, attrs), l);
    }
  }

  // ---------------------------------------------------------------------------
  // The model

  class Translatable {
    /** The locale registry (`app(Locales::class)`); it also carries the configuration. */
    const registry: Locales
    /** `$translatedAttributes`. */
    const translatedAttributes: seq<string>
    /** `isEmptyTranslatableAttribute($key, $value)`, which a model may override. */
    const isEmptyTranslatableAttribute: (string, Value) -> bool
    /** `getTranslationRelationKey()`: the foreign-key column of the rows. */
    const relationKey: string
    /** `$useTranslationFallback` when the model declares it as a boolean. */
    const useTranslationFallback: Option<bool>
    /** `getKey()`. */
    var key: Value
    /** The model's own (untranslated) attributes. */
    var attributes: map<string, Value>
    /** `$this->translations`, in collection order. */
    var translations: seq<Translation>
    /** `relationLoaded('translations')`. */
    var translationsLoaded: bool
    /** `$enforcedLocale`. */
    var enforcedLocale: Option<string>

    constructor (registry: Locales, translatedAttributes: seq<string>, isEmptyTranslatableAttribute: (string, Value) -> bool,
                 relationKey: string, useTranslationFallback: Option<bool>, key: Value, attributes: map<string, Value>,
                 translations: seq<Translation>, translationsLoaded: bool)
      ensures this.registry == registry && this.translatedAttributes == translatedAttributes
      ensures this.isEmptyTranslatableAttribute == isEmptyTranslatableAttribute && this.relationKey == relationKey
      ensures this.useTranslationFallback == useTranslationFallback && this.key == key && this.attributes == attributes
      ensures this.translations == translations && this.translationsLoaded == translationsLoaded
      ensures enforcedLocale == None
    {
      this.registry := registry;
      this.translatedAttributes := translatedAttributes;
      this.isEmptyTranslatableAttribute := isEmptyTranslatableAttribute;
      this.relationKey := relationKey;
      this.useTranslationFallback := useTranslationFallback;
      this.key := key;
      this.attributes := attributes;
      this.translations := translations;
      this.translationsLoaded := translationsLoaded;
      enforcedLocale := None;
    }

    // -- locale and flags

    /** `locale()`: the enforced locale when it is truthy, else the registry's current locale. */
    function Locale(): (l: string)
      reads this`enforcedLocale, registry
      ensures Truthy(enforcedLocale) ==> l == enforcedLocale.value
      ensures !Truthy(enforcedLocale) ==> l == registry.Current()
    {
      if Truthy(enforcedLocale) then enforcedLocale.value else registry.Current()
    }

    /** `$locale ?: $this->locale()`. */
    function EffectiveLocale(locale: Option<string>): (l: string)
      reads this`enforcedLocale, registry
      ensures Truthy(locale) ==> l == locale.value
      ensures !Truthy(locale) ==> l == Locale()
    {
      OrElse(locale, Locale())
    }

    /** Resolving a locale twice changes nothing: an effective locale is falsy only when it is `locale()` itself. */
    lemma EffectiveLocaleIdempotent(locale: Option<string>)
      ensures EffectiveLocale(Some(EffectiveLocale(locale))) == EffectiveLocale(locale)
    {
    }

    /** `useFallback()`: the model's boolean when it declares one, else `translatable.use_fallback`. */
    function UseFallback(): (b: bool)
      reads registry
      ensures useTranslationFallback.Some? ==> b == useTranslationFallback.value
      ensures useTranslationFallback.None? ==> b == registry.config.useFallback
    {
      match useTranslationFallback
      case Some(flag) => flag
      case None => registry.config.useFallback
    }

    /** `usePropertyFallback()`: fallback is on and `translatable.use_property_fallback` is set. */
    function UsePropertyFallback(): (b: bool)
      reads registry
      ensures b <==> UseFallback() && registry.config.usePropertyFallback
    {
      UseFallback() && registry.config.usePropertyFallback
    }

    /** `isTranslationAttribute($key)`. */
    predicate IsTranslationAttribute(key: string)
    {
      key in translatedAttributes
    }

    /** `getAttributeAndLocale($key)` with the current `locale()`. */
    function GetAttributeAndLocale(key: string): (r: (string, string))
      reads this`enforcedLocale, registry
      ensures !Contains(key, ":") ==> r == (key, Locale())
      ensures Contains(key, ":") ==> IsPrefix(r.0, key) && OccursAt(key, ":", |r.0|) && !Contains(r.0, ":")
    {
      AttributeAndLocale(key, Locale())
    }

    /** What `fill` routes by: the registered locales, `locale()` and the translated attributes. */
    function CurrentRouting(): (c: Routing)
      reads this`enforcedLocale, registry
    {
      Routing(registry.locales, Locale(), translatedAttributes)
    }

    /** `getTranslationResolvers()`: the configured chain with `GivenLocale` in front unless it is listed. */
    function GetTranslationResolvers(): (chain: seq<ResolverClass>)
      reads registry
      ensures chain == EffectiveChain(registry.config.translationResolvers)
    {
      EffectiveChain(registry.config.translationResolvers)
    }

    /** The model as the resolvers see it. */
    function AsSubject(): Subject
      reads this`translations
    {
      Subject(translations, isEmptyTranslatableAttribute)
    }

    /** The registry and configuration as the fallback resolvers see them. */
    function ResolverEnv(): Env
      reads registry
    {
      Env(registry.locales, registry.config.localeSeparator, registry.config.fallbackLocale)
    }

    // -- resolution

    /** What `getTranslation($locale, $withFallback)` returns. */
    /** What `getTranslation($locale, $withFallback)` returns: null, or the first row of some locale. */
    function TranslationFor(locale: Option<string>, withFallback: Option<bool>): (r: Option<Translation>)
      reads this`translations, this`enforcedLocale, registry
      ensures r.Some? ==> exists l :: r == FirstWhere(translations, l)
    {
      var flag := match withFallback case Some(b) => b case None => UseFallback();
      var chain := GetTranslationResolvers();
      var found := ChainResolution(chain, AsSubject(), ResolverEnv(), EffectiveLocale(locale), flag, [], None).found;
      if found.Some? then
        ChainFound(chain, AsSubject(), ResolverEnv(), EffectiveLocale(locale), flag, [], None);
        found
      else
        found
    }

    /** What `getAttributeOrFallback($locale, $attribute)` returns: null, or a value the policy accepts. */
    function AttributeOrFallback(locale: Option<string>, attribute: string): (r: Value)
      reads this`translations, this`enforcedLocale, registry
      ensures r == Null || !isEmptyTranslatableAttribute(attribute, r)
    {
      var chain := GetTranslationResolvers();
      var found := ChainResolution(chain, AsSubject(), ResolverEnv(), EffectiveLocale(locale),
                                   UsePropertyFallback(), [], Some(attribute)).found;
      match found
      case None => Null
      case Some(t) =>
        ChainFound(chain, AsSubject(), ResolverEnv(), EffectiveLocale(locale), UsePropertyFallback(), [], Some(attribute));
        Attribute(t, attribute)
    }

    /**
     * `getAttributeOrFallback` as written: the found row must pass
     * `instanceof Translatable`, and `Translatable` names the trait itself.
     */
    function AttributeOrFallbackAsWritten(locale: Option<string>, attribute: string): Value
      reads this`translations, this`enforcedLocale, registry
    {
      var found := ChainResolution(GetTranslationResolvers(), AsSubject(), ResolverEnv(), EffectiveLocale(locale),
                                   UsePropertyFallback(), [], Some(attribute)).found;
      if found.Some? && InstanceOfTrait(found.value) then Attribute(found.value, attribute) else Null
    }

    /**
     * An exact row with a non-empty value is found, yet the read as written
     * yields null, while the read the model uses yields the row's value.
     */
    lemma AsWrittenDropsFoundValue(locale: Option<string>, attribute: string)
      requires registry.config.translationResolvers == [] || registry.config.translationResolvers[0] == GivenLocale ||
        GivenLocale !in registry.config.translationResolvers
      requires Yields(AsSubject(), EffectiveLocale(locale), Some(attribute))
      requires isEmptyTranslatableAttribute(attribute, Null)
      ensures AttributeOrFallbackAsWritten(locale, attribute) == Null
      ensures AttributeOrFallback(locale, attribute) != Null
    {
      ExactAttributeWins(locale, attribute);
    }

    /** `getTranslation`: a fresh checked list, the resolvers in order, the first row found. */
    method GetTranslation(locale: Option<string>, withFallback: Option<bool>) returns (t: Option<Translation>)
      ensures t == TranslationFor(locale, withFallback)
    {
      var l := EffectiveLocale(locale);
      var flag := match withFallback case Some(b) => b case None => UseFallback();
      var resolvers := GetTranslationResolvers();
      var s := AsSubject();
      var env := ResolverEnv();
      assert TranslationFor(locale, withFallback) == ChainResolution(resolvers, s, env, l, flag, [], None).found;
      t := RunChain(resolvers, s, env, l, flag, None);
    }

    /** `getAttributeOrFallback`: the attribute-aware chain under `usePropertyFallback()`. */
    method GetAttributeOrFallback(locale: Option<string>, attribute: string) returns (v: Value)
      ensures v == AttributeOrFallback(locale, attribute)
    {
      var l := EffectiveLocale(locale);
      var flag := UsePropertyFallback();
      var resolvers := GetTranslationResolvers();
      var s := AsSubject();
      var env := ResolverEnv();
      assert AttributeOrFallback(locale, attribute) ==
        match ChainResolution(resolvers, s, env, l, flag, [], Some(attribute)).found
        case None => Null
        case Some(t) => Attribute(t, attribute);
      var found := RunChain(resolvers, s, env, l, flag, Some(attribute));
      if found.Some? {
        return Attribute(found.value, attribute);
      }
      return Null;
    }

    /** Without fallback, `getTranslation` is the exact lookup of the effective locale. */
    lemma TranslationWithoutFallback(locale: Option<string>)
      ensures TranslationFor(locale, Some(false)) == FirstWhere(translations, EffectiveLocale(locale))
    {
      ChainNoFallback(GetTranslationResolvers(), AsSubject(), ResolverEnv(), EffectiveLocale(locale), [], None);
      FirstWhereSpec(translations, EffectiveLocale(locale));
    }

    /**
     * When `GivenLocale` leads the chain (it is not configured, or configured
     * first) an exact row wins over every fallback.
     */
    lemma ExactRowWins(locale: Option<string>, withFallback: Option<bool>)
      requires registry.config.translationResolvers == [] || registry.config.translationResolvers[0] == GivenLocale ||
        GivenLocale !in registry.config.translationResolvers
      requires HasLocale(translations, EffectiveLocale(locale))
      ensures TranslationFor(locale, withFallback) == FirstWhere(translations, EffectiveLocale(locale))
    {
      FirstWhereSpec(translations, EffectiveLocale(locale));
      var flag := match withFallback case Some(b) => b case None => UseFallback();
      ExactMatchFirst(GetTranslationResolvers(), AsSubject(), ResolverEnv(), EffectiveLocale(locale), flag, None);
    }

    /** A row `getTranslation` returns is the first row of its own locale. */
    lemma TranslationIsFirstOfItsLocale(locale: Option<string>, withFallback: Option<bool>)
      requires TranslationFor(locale, withFallback).Some?
      ensures FirstWhere(translations, TranslationFor(locale, withFallback).value.locale) == TranslationFor(locale, withFallback)
    {
      var flag := match withFallback case Some(b) => b case None => UseFallback();
      ChainFound(GetTranslationResolvers(), AsSubject(), ResolverEnv(), EffectiveLocale(locale), flag, [], None);
      var l :| Yields(AsSubject(), l, None) &&
        TranslationFor(locale, withFallback) == FirstWhere(translations, l);
      FirstWhereSpec(translations, l);
    }

    /**
     * An attribute read yields null or a value the emptiness policy accepts;
     * with property fallback off it is the exact row's value when accepted.
     */
    lemma AttributeOrFallbackSpec(locale: Option<string>, attribute: string)
      ensures AttributeOrFallback(locale, attribute) == Null ||
        !isEmptyTranslatableAttribute(attribute, AttributeOrFallback(locale, attribute))
      ensures !UsePropertyFallback() ==> (AttributeOrFallback(locale, attribute) ==
        (if Yields(AsSubject(), EffectiveLocale(locale), Some(attribute))
         then Attribute(FirstWhere(translations, EffectiveLocale(locale)).value, attribute) else Null))
    {
      var chain := GetTranslationResolvers();
      var l := EffectiveLocale(locale);
      var r := ChainResolution(chain, AsSubject(), ResolverEnv(), l, UsePropertyFallback(), [], Some(attribute));
      if r.found.Some? {
        ChainFound(chain, AsSubject(), ResolverEnv(), l, UsePropertyFallback(), [], Some(attribute));
      }
      if !UsePropertyFallback() {
        ChainNoFallback(chain, AsSubject(), ResolverEnv(), l, [], Some(attribute));
      }
    }

    /**
     * Under the default policy (PHP `empty()`), an attribute read never
     * yields an empty value: an empty cell makes the resolvers move on, and
     * the read ends in null when no row has a non-empty value.
     */
    lemma DefaultPolicyReadsNoEmptyValue(locale: Option<string>, attribute: string)
      requires forall k, v :: isEmptyTranslatableAttribute(k, v) == PhpEmpty(v)
      ensures AttributeOrFallback(locale, attribute) == Null || !PhpEmpty(AttributeOrFallback(locale, attribute))
    {
      AttributeOrFallbackSpec(locale, attribute);
    }

    /**
     * When `GivenLocale` leads the chain and the exact row's cell passes the
     * policy, an attribute read returns that cell, whatever the fallback
     * settings; with a policy that counts only null as empty, this keeps `'0'`.
     */
    lemma ExactAttributeWins(locale: Option<string>, attribute: string)
      requires registry.config.translationResolvers == [] || registry.config.translationResolvers[0] == GivenLocale ||
        GivenLocale !in registry.config.translationResolvers
      requires Yields(AsSubject(), EffectiveLocale(locale), Some(attribute))
      ensures AttributeOrFallback(locale, attribute) ==
        Attribute(FirstWhere(translations, EffectiveLocale(locale)).value, attribute)
    {
      ExactMatchFirst(GetTranslationResolvers(), AsSubject(), ResolverEnv(), EffectiveLocale(locale),
                      UsePropertyFallback(), Some(attribute));
    }

    /**
     * `getAttribute($key)`: a translated attribute (possibly `attr:locale`) is
     * read through the resolvers; any other key is the model's own attribute.
     */
    method GetAttribute(key: string) returns (v: Value)
      ensures IsTranslationAttribute(GetAttributeAndLocale(key).0) ==>
        v == AttributeOrFallback(Some(GetAttributeAndLocale(key).1), GetAttributeAndLocale(key).0)
      ensures !IsTranslationAttribute(GetAttributeAndLocale(key).0) ==>
        v == (if key in attributes then attributes[key] else Null)
    {
      var (attribute, locale) := GetAttributeAndLocale(key);
      if IsTranslationAttribute(attribute) {
        v := GetAttributeOrFallback(Some(locale), attribute);
      } else {
        v := if key in attributes then attributes[key] else Null;
      }
    }

    /** `hasTranslation`: some row's locale equals the effective locale. */
    method HasTranslation(locale: Option<string>) returns (b: bool)
      ensures b <==> HasLocale(translations, EffectiveLocale(locale))
    {
      var l := EffectiveLocale(locale);
      for i := 0 to |translations|
        invariant forall j :: 0 <= j < i ==> translations[j].locale != l
      {
        if translations[i].locale == l {
          return true;
        }
      }
      return false;
    }

    // -- creating and writing rows

    /** `getNewTranslation`: a fresh row stamped with the locale, appended to the collection. */
    method GetNewTranslation(locale: string) returns (t: Translation)
      modifies this`translations, this`translationsLoaded
      ensures t == NewTranslation(locale) && translations == old(translations) + [t]
      ensures translationsLoaded
    {
      t := NewTranslation(locale);
      translations := translations + [t];
      translationsLoaded := true;
    }

    /**
     * `getTranslationOrNew`: the exact row of the effective locale, or a new
     * one appended; `index` is where the returned row sits.
     */
    method GetTranslationOrNew(locale: Option<string>) returns (t: Translation, index: nat)
      modifies this`translations, this`translationsLoaded
      ensures translations == RowsWithLocale(old(translations), EffectiveLocale(locale))
      ensures index == FirstRowIndex(translations, EffectiveLocale(locale)) && translations[index] == t
      ensures translationsLoaded
    {
      var l := EffectiveLocale(locale);
      var found := GetTranslation(Some(l), Some(false));
      TranslationWithoutFallback(Some(l));
      FirstWhereSpec(translations, l);
      translationsLoaded := true;
      if found.None? {
        t := GetNewTranslation(l);
        assert translations[|translations| - 1].locale == l;
      } else {
        t := found.value;
      }
      assert HasLocale(translations, l);
      index := FirstRowIndex(translations, l);
    }

    /** `getTranslationOrFail`: the exact row, or `ModelNotFoundException` naming the locale. */
    method GetTranslationOrFail(locale: string) returns (r: Result<Translation, Error>)
      ensures r.Success? <==> HasLocale(translations, EffectiveLocale(Some(locale)))
      ensures r.Success? ==> FirstWhere(translations, EffectiveLocale(Some(locale))) == Some(r.value)
      ensures r.Failure? ==> r.error == ModelNotFound(locale)
    {
      var found := GetTranslation(Some(locale), Some(false));
      TranslationWithoutFallback(Some(locale));
      FirstWhereSpec(translations, EffectiveLocale(Some(locale)));
      if found.None? {
        return Failure(ModelNotFound(locale));
      }
      return Success(found.value);
    }

    /**
     * `setAttribute($key, $value)`: a translated attribute is written to the
     * row of its locale (created if needed) and never to the model itself.
     */
    method SetAttribute(key: string, value: Value)
      modifies this`translations, this`translationsLoaded, this`attributes
      ensures var (attribute, locale) := GetAttributeAndLocale(key);
        IsTranslationAttribute(attribute) ==> (attributes == old(attributes) && translationsLoaded &&
          translations == WithRowAttribute(RowsWithLocale(old(translations), EffectiveLocale(Some(locale))),
                                           EffectiveLocale(Some(locale)), attribute, value))
      ensures !IsTranslationAttribute(GetAttributeAndLocale(key).0) ==>
        attributes == old(attributes)[key := value] && translations == old(translations) &&
        translationsLoaded == old(translationsLoaded)
    {
      var (attribute, locale) := GetAttributeAndLocale(key);
      if IsTranslationAttribute(attribute) {
        ghost var l := EffectiveLocale(Some(locale));
        var t, i := GetTranslationOrNew(Some(locale));
        ghost var rows := translations;
        assert HasLocale(rows, l) && i == FirstRowIndex(rows, l) && t == rows[i];
        translations := translations[i := t.(attributes := t.attributes[attribute := value])];
        assert translations == WithRowAttribute(rows, l, attribute, value);
        assert GetAttributeAndLocale(key) == (attribute, locale) && EffectiveLocale(Some(locale)) == l;
      } else {
        attributes := attributes[key := value];
      }
    }

    /**
     * `fill($attributes)`: each entry routed to a registered locale fills that
     * locale's row; the rest are returned, as passed on to the parent model.
     */
    method Fill(entries: Entries<Value>) returns (rest: Entries<Value>)
      modifies this`translations, this`translationsLoaded
      ensures translations == FillRows(CurrentRouting(), old(translations), entries)
      ensures rest == Unrouted(CurrentRouting(), entries)
      ensures translationsLoaded == (old(translationsLoaded) || |rest| < |entries|)
    {
      ghost var rows := translations;
      ghost var c := CurrentRouting();
      rest := [];
      for i := 0 to |entries|
        invariant CurrentRouting() == c
        invariant translations == FillRows(c, rows, entries[..i])
        invariant rest == Unrouted(c, entries[..i]) && |rest| <= i
        invariant translationsLoaded == (old(translationsLoaded) || |rest| < i)
      {
        FillStep(c, rows, entries, i);
        var claimed := FillEntry(entries[i]);
        if !claimed {
          rest := rest + [entries[i]];
        }
      }
      assert entries[..|entries|] == entries;
    }

    /** One entry of `fill`: a claimed entry fills its locale's row, which is created when missing. */
    method FillEntry(entry: (string, Value)) returns (claimed: bool)
      modifies this`translations, this`translationsLoaded
      ensures claimed == RouteEntry(CurrentRouting(), entry).Some?
      ensures translations == FillOne(CurrentRouting(), old(translations), entry)
      ensures translationsLoaded == (old(translationsLoaded) || claimed)
    {
      match RouteEntry(CurrentRouting(), entry) {
        case None =>
          claimed := false;
        case Some((l, es)) =>
          var t, index := GetTranslationOrNew(Some(l));
          translations := translations[index := FillRow(t, es)];
          claimed := true;
      }
    }

    /** `deleteTranslations($locales)` and the reload of the rows. */
    method DeleteTranslations(locales: Option<seq<string>>)
      modifies this`translations, this`translationsLoaded
      ensures translations == Undeleted(old(translations), locales)
      ensures translationsLoaded
    {
      translations := Undeleted(translations, locales);
      translationsLoaded := true;
    }

    /** `getTranslationsArray`. */
    method GetTranslationsArray() returns (m: Entries<Entries<Value>>)
      ensures m == TranslationsArray(translations, translatedAttributes)
    {
      m := [];
      for i := 0 to |translations|
        invariant m == TranslationsArray(translations[..i], translatedAttributes)
      {
        assert translations[..i + 1][..i] == translations[..i];
        for j := 0 to |translatedAttributes|
          invariant m == PutRow(TranslationsArray(translations[..i], translatedAttributes), translations[i], translatedAttributes[..j])
        {
          assert translatedAttributes[..j + 1][..j] == translatedAttributes[..j];
          var attribute := translatedAttributes[j];
          m := PutCell(m, translations[i].locale, attribute, Attribute(translations[i], attribute));
        }
        assert translatedAttributes[..|translatedAttributes|] == translatedAttributes;
      }
      assert translations[..|translations|] == translations;
    }

    /** `saveTranslations`, with `save` standing for each row's `save()`. */
    method SaveTranslations(save: Translation -> bool) returns (saved: bool)
      modifies this`translations
      ensures !old(translationsLoaded) ==> saved && translations == old(translations)
      ensures old(translationsLoaded) ==> saved == SaveRows(old(translations), save, relationKey, key, true).0
      ensures old(translationsLoaded) ==> translations == SaveRows(old(translations), save, relationKey, key, true).1
    {
      saved := true;
      if !translationsLoaded {
        return;
      }
      ghost var rows := translations;
      ghost var result := SaveRows(rows, save, relationKey, key, true);
      var rs := translations;
      SaveStart(rows, save, relationKey, key);
      for i := 0 to |rs|
        invariant SaveLoop(rows, rs, i, save, relationKey, key, saved, result)
      {
        SaveStep(rows, rs, i, save, relationKey, key, saved, result);
        var translation := rs[i];
        if saved && IsTranslationDirty(translation) {
          var stamped := Stamp(translation, relationKey, key);
          saved := save(stamped);
          rs := rs[i := AfterSave(stamped, saved)];
        }
      }
      SaveDone(rows, rs, save, relationKey, key, saved, result);
      translations := rs;
    }

    /** `setEnforcedLocale`. */
    method SetEnforcedLocale(locale: Option<string>)
      modifies this`enforcedLocale
      ensures enforcedLocale == locale
    {
      enforcedLocale := locale;
    }
  }

  /**
   * `getAttributeAndLocale($key)` given `locale()` as `current`: a key with
   * `:` is split there (the part before the first `:` and the part after it
   * up to any second `:`); any other key is paired with `current`.
   */
  function AttributeAndLocale(key: string, current: string): (r: (string, string))
    ensures !Contains(key, ":") ==> r == (key, current)
    ensures Contains(key, ":") ==> IsPrefix(r.0, key) && OccursAt(key, ":", |r.0|) && !Contains(r.0, ":")
  {
    if Contains(key, ":") then
      ExplodeHead(":", key);
      var parts := Explode(":", key);
      (parts[0], parts[1])
    else (key, current)
  }

  /** `attribute:locale` splits back into the attribute and the locale. */
  lemma AttributeAndLocaleOfJoin(attribute: string, locale: string, current: string)
    requires !Contains(attribute, ":") && !Contains(locale, ":")
    ensures AttributeAndLocale(attribute + ":" + locale, current) == (attribute, locale)
  {
    ExplodeTwo(":", attribute, locale);
    ExplodeHead(":", attribute + ":" + locale);
  }

  /** What `fill` routes by: the registered locales, `locale()` and the translated attributes. */
  datatype Routing = Routing(registered: seq<string>, locale: string, translated: seq<string>)

  /**
   * Where `fill` sends an entry: a registered locale whose value is an array
   * fills that locale's row with it; `attribute:locale` with a registered
   * locale and a translated attribute fills that one cell; anything else is
   * not claimed.
   */
  function RouteEntry(c: Routing, entry: (string, Value)): (r: Option<(string, Entries<Value>)>)
    ensures r.Some? ==> r.value.0 in c.registered
    ensures entry.0 in c.registered && entry.1.Array? ==> r == Some((entry.0, entry.1.entries))
  {
    if entry.0 in c.registered && entry.1.Array? then Some((entry.0, entry.1.entries))
    else
      var (attribute, locale) := AttributeAndLocale(entry.0, c.locale);
      if locale in c.registered && attribute in c.translated then Some((locale, [(attribute, entry.1)]))
      else None
  }

  /** The locale whose row an entry fills (`OrElse` covers a routed locale PHP reads as false), if it is routed. */
  function Target(c: Routing, entry: (string, Value)): Option<string>
  {
    match RouteEntry(c, entry)
    case None => None
    case Some((l, _)) => Some(OrElse(Some(l), c.locale))
  }

  /** The attribute/value pairs an entry fills its row with (none when it is not routed). */
  function Routed(c: Routing, entry: (string, Value)): Entries<Value>
  {
    match RouteEntry(c, entry)
    case None => []
    case Some((_, es)) => es
  }

  /** The row `getTranslationOrNew(l)` hands back before it is filled: the first row of `l`, or a new one. */
  function Base(rows: seq<Translation>, l: string): Translation
  {
    match FirstWhere(rows, l)
    case Some(t) => t
    case None => NewTranslation(l)
  }

  /**
   * The rows after one entry was routed: a claimed entry fills its locale's
   * first row, created when missing; the row every other locale resolves
   * to is unchanged, and an entry that is not claimed changes nothing.
   */
  function FillOne(c: Routing, rows: seq<Translation>, entry: (string, Value)): (r: seq<Translation>)
    ensures IsPrefixOfLocales(rows, r)
    ensures RouteEntry(c, entry).None? ==> r == rows
    ensures forall l :: FirstWhere(r, l) == (if Target(c, entry) == Some(l) then Some(FillRow(Base(rows, l), Routed(c, entry))) else FirstWhere(rows, l))
  {
    match RouteEntry(c, entry)
    case None => rows
    case Some((l, es)) =>
      var l' := OrElse(Some(l), c.locale);
      var r := FillFirst(RowsWithLocale(rows, l'), l', es);
      assert IsPrefixOfLocales(rows, r);
      RowsWithLocaleIdempotent(rows, l');
      assert forall x :: x != l' ==> FirstWhere(r, x) == FirstWhere(rows, x) by {
        forall x | x != l' ensures FirstWhere(r, x) == FirstWhere(rows, x) {
          FilledOtherLocale(rows, l', es, x);
        }
      }
      r
  }

  /** Filling the row of `l` (created if needed) leaves the row another locale resolves to alone. */
  lemma FilledOtherLocale(rows: seq<Translation>, l: string, es: Entries<Value>, other: string)
    requires other != l
    ensures FirstWhere(FillFirst(RowsWithLocale(rows, l), l, es), other) == FirstWhere(rows, other)
  {
    var m := RowsWithLocale(rows, l);
    var r := FillFirst(m, l, es);
    FirstIndexSameLocales(r, m, other);
    if !HasLocale(rows, l) {
      FirstIndexSnocOther(rows, NewTranslation(l), other);
    }
  }

  /** Rows with the same locales, position by position, find the same position for every locale. */
  lemma FirstIndexSameLocales(a: seq<Translation>, b: seq<Translation>, l: string)
    requires |a| == |b| && forall i :: 0 <= i < |a| ==> a[i].locale == b[i].locale
    ensures FirstIndex(a, l) == FirstIndex(b, l)
  {
    if a != [] {
      FirstIndexSameLocales(a[1..], b[1..], l);
    }
  }

  /** Appending a row of another locale does not change where `l` is found. */
  lemma FirstIndexSnocOther(rows: seq<Translation>, t: Translation, l: string)
    requires t.locale != l
    ensures FirstIndex(rows + [t], l) == FirstIndex(rows, l)
  {
    if rows != [] {
      assert (rows + [t])[1..] == rows[1..] + [t];
      FirstIndexSnocOther(rows[1..], t, l);
    }
  }

  /** The rows after the routed entries among `entries` were filled in, in order. */
  function FillRows(c: Routing, rows: seq<Translation>, entries: Entries<Value>): (r: seq<Translation>)
    ensures IsPrefixOfLocales(rows, r)
    decreases |entries|
  {
    if entries == [] then rows
    else FillOne(c, FillRows(c, rows, entries[..|entries| - 1]), entries[|entries| - 1])
  }

  /** Some entry of `entries` is routed to the row of `l`. */
  predicate Targets(c: Routing, entries: Entries<Value>, l: string)
  {
    exists i :: 0 <= i < |entries| && Target(c, entries[i]) == Some(l)
  }

  /** The pairs the entries routed to `l` fill its row with, in the order of the entries. */
  function RoutedTo(c: Routing, entries: Entries<Value>, l: string): Entries<Value>
    decreases |entries|
  {
    if entries == [] then []
    else
      var e := entries[|entries| - 1];
      RoutedTo(c, entries[..|entries| - 1], l) + (if Target(c, e) == Some(l) then Routed(c, e) else [])
  }

  /**
   * What `fill` leaves for each locale: a row exactly when the locale had
   * one or some entry is routed to it, and that row is the locale's first
   * row (or a new one) filled with the pairs routed to it, in order.
   */
  lemma {:induction false} FillRowsFirst(c: Routing, rows: seq<Translation>, entries: Entries<Value>, l: string)
    ensures FirstWhere(FillRows(c, rows, entries), l) ==
      (if FirstWhere(rows, l).None? && !Targets(c, entries, l) then None
       else Some(FillRow(Base(rows, l), RoutedTo(c, entries, l))))
    decreases |entries|
  {
    if entries != [] {
      var init := entries[..|entries| - 1];
      var e := entries[|entries| - 1];
      assert entries == init + [e];
      FillRowsFirst(c, rows, init, l);
      FillRowsFirstStep(c, rows, init, e, FillRows(c, rows, init), l);
    }
  }

  /** One more entry: the row of `l` after it, from the row of `l` before it. */
  lemma FillRowsFirstStep(c: Routing, rows: seq<Translation>, init: Entries<Value>, e: (string, Value),
                          before: seq<Translation>, l: string)
    requires FirstWhere(before, l) ==
      (if FirstWhere(rows, l).None? && !Targets(c, init, l) then None
       else Some(FillRow(Base(rows, l), RoutedTo(c, init, l))))
    ensures FirstWhere(FillOne(c, before, e), l) ==
      (if FirstWhere(rows, l).None? && !Targets(c, init + [e], l) then None
       else Some(FillRow(Base(rows, l), RoutedTo(c, init + [e], l))))
  {
    var entries := init + [e];
    assert entries[..|entries| - 1] == init && entries[|entries| - 1] == e;
    assert Targets(c, entries, l) <==> Targets(c, init, l) || Target(c, e) == Some(l) by {
      assert forall i :: 0 <= i < |init| ==> init[i] == entries[i];
    }
    assert RoutedTo(c, entries, l) == RoutedTo(c, init, l) + (if Target(c, e) == Some(l) then Routed(c, e) else []);
    FillOneAt(c, before, e, l);
    if Target(c, e) == Some(l) {
      if FirstWhere(before, l).None? {
        RoutedToUntargeted(c, init, l);
        assert RoutedTo(c, entries, l) == Routed(c, e);
      } else {
        FillRowAppend(Base(rows, l), RoutedTo(c, init, l), Routed(c, e));
      }
    } else {
      assert RoutedTo(c, entries, l) == RoutedTo(c, init, l);
    }
  }

  lemma FillOneAt(c: Routing, rows: seq<Translation>, entry: (string, Value), l: string)
    ensures Target(c, entry) == Some(l) ==> FirstWhere(FillOne(c, rows, entry), l) == Some(FillRow(Base(rows, l), Routed(c, entry)))
    ensures Target(c, entry) != Some(l) ==> FirstWhere(FillOne(c, rows, entry), l) == FirstWhere(rows, l)
  {
  }

  /** No entry routed to `l` means nothing to fill its row with. */
  lemma {:induction false} RoutedToUntargeted(c: Routing, entries: Entries<Value>, l: string)
    requires !Targets(c, entries, l)
    ensures RoutedTo(c, entries, l) == []
    decreases |entries|
  {
    if entries != [] {
      var init := entries[..|entries| - 1];
      assert !Targets(c, init, l) by {
        assert forall i :: 0 <= i < |init| ==> init[i] == entries[i];
      }
      RoutedToUntargeted(c, init, l);
      assert Target(c, entries[|entries| - 1]) != Some(l);
    }
  }

  /** The entries `fill` hands to the parent model: those not routed to a row, in order. */
  function Unrouted(c: Routing, entries: Entries<Value>): (r: Entries<Value>)
    ensures |r| <= |entries|
    decreases |entries|
  {
    if entries == [] then []
    else
      var e := entries[|entries| - 1];
      Unrouted(c, entries[..|entries| - 1]) + (if RouteEntry(c, e).None? then [e] else [])
  }

  /** The entries passed on are exactly those no locale claims, and all of them are when none is claimed. */
  lemma {:induction false} UnroutedSpec(c: Routing, entries: Entries<Value>)
    ensures forall e :: e in Unrouted(c, entries) <==> e in entries && RouteEntry(c, e).None?
    ensures |Unrouted(c, entries)| == |entries| <==> forall i :: 0 <= i < |entries| ==> RouteEntry(c, entries[i]).None?
    decreases |entries|
  {
    if entries != [] {
      var init := entries[..|entries| - 1];
      var e := entries[|entries| - 1];
      assert entries == init + [e];
      UnroutedSpec(c, init);
      assert forall i :: 0 <= i < |init| ==> init[i] == entries[i];
    }
  }

  /** One entry of the `fill` loop. */
  lemma FillStep(c: Routing, rows: seq<Translation>, entries: Entries<Value>, i: nat)
    requires i < |entries|
    ensures FillRows(c, rows, entries[..i + 1]) == FillOne(c, FillRows(c, rows, entries[..i]), entries[i])
    ensures Unrouted(c, entries[..i + 1]) == Unrouted(c, entries[..i]) + (if RouteEntry(c, entries[i]).None? then [entries[i]] else [])
  {
    assert entries[..i + 1][..i] == entries[..i];
  }

  /**
   * `$translation instanceof Translatable` at the end of
   * `getAttributeOrFallback`: the right side is a trait, and PHP's
   * `instanceof` is false for every object when it names a trait.
   */
  predicate InstanceOfTrait(t: Translation)
  {
    false
  }

  /** `r` extends `rows` and keeps the locale of every existing row. */
  predicate IsPrefixOfLocales(rows: seq<Translation>, r: seq<Translation>)
  {
    |rows| <= |r| && forall i :: 0 <= i < |rows| ==> r[i].locale == rows[i].locale
  }
}
