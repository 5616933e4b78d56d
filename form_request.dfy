/**
 * `TranslatableFormRequest::makeRulesByLocales`: every rule of a form
 * request's `translatableRules()` becomes a `required|array` rule on its key
 * and a copy of the rule on `key.locale` for every registered locale.
 */
module FormRequest {
  import opened Common
  import opened OrderedMap
  import opened LocalesRegistry

  /** What each translatable key itself must satisfy: present, and an array. */
  const REQUIRED_ARRAY: string := "required|array"

  /** The key of a rule for one locale: `$key.'.'.$locale`. */
  function NestedKey(key: string, locale: string): string
  {
    key + "." + locale
  }

  /** The writes of the inner loop: the rule copied to `key.locale` for each locale, in order. */
  function PerLocale(key: string, rule: Value, locales: seq<string>): (es: Entries<Value>)
    ensures |es| == |locales|
  {
    if locales == [] then []
    else PerLocale(key, rule, locales[..|locales| - 1]) + [(NestedKey(key, locales[|locales| - 1]), rule)]
  }

  /** Write `j` of the inner loop is `$key.'.'.$locales[j] => $value`. */
  lemma {:induction false} PerLocaleAt(key: string, rule: Value, locales: seq<string>, j: nat)
    requires j < |locales|
    ensures PerLocale(key, rule, locales)[j] == (NestedKey(key, locales[j]), rule)
    decreases |locales|
  {
    if j < |locales| - 1 {
      PerLocaleAt(key, rule, locales[..|locales| - 1], j);
    }
  }

  /** The writes for one entry of `$rules`: the key itself first, then its per-locale keys. */
  function EntryWrites(key: string, rule: Value, locales: seq<string>): (es: Entries<Value>)
    ensures |es| == 1 + |locales|
  {
    [(key, Str(REQUIRED_ARRAY))] + PerLocale(key, rule, locales)
  }

  /** An entry writes `required|array` on its key, then its rule on each per-locale key. */
  lemma EntryWritesAt(key: string, rule: Value, locales: seq<string>, j: nat)
    requires j < 1 + |locales|
    ensures EntryWrites(key, rule, locales)[j] ==
      if j == 0 then (key, Str(REQUIRED_ARRAY)) else (NestedKey(key, locales[j - 1]), rule)
  {
    if j > 0 {
      PerLocaleAt(key, rule, locales, j - 1);
    }
  }

  /** Every write of the loops, entry after entry. */
  function Writes(rules: Entries<Value>, locales: seq<string>): (ws: Entries<Value>)
    decreases |rules|
  {
    if rules == [] then []
    else
      var last := rules[|rules| - 1];
      Writes(rules[..|rules| - 1], locales) + EntryWrites(last.0, last.1, locales)
  }

  /** The array `makeRulesByLocales($rules)` returns: the writes of each entry applied in turn to `[]`. */
  function RulesByLocales(rules: Entries<Value>, locales: seq<string>): Entries<Value>
    decreases |rules|
  {
    if rules == [] then []
    else
      var last := rules[|rules| - 1];
      PutAll(RulesByLocales(rules[..|rules| - 1], locales), EntryWrites(last.0, last.1, locales))
  }

  /** The writes of the first `i + 1` entries are those of the first `i`, then entry `i`'s. */
  lemma RulesByLocalesStep(rules: Entries<Value>, locales: seq<string>, i: nat)
    requires i < |rules|
    ensures RulesByLocales(rules[..i + 1], locales) ==
      PutAll(RulesByLocales(rules[..i], locales), EntryWrites(rules[i].0, rules[i].1, locales))
  {
    assert rules[..i + 1][..i] == rules[..i];
  }

  /** The first write of an entry is `$key => 'required|array'`. */
  lemma EntryWritesFirst(start: Entries<Value>, key: string, rule: Value, locales: seq<string>)
    ensures PutAll(start, EntryWrites(key, rule, locales)[..1]) == Put(start, key, Str(REQUIRED_ARRAY))
  {
    var es := EntryWrites(key, rule, locales);
    EntryWritesAt(key, rule, locales, 0);
    PutAllStepWith(start, es, 0, key, Str(REQUIRED_ARRAY));
    assert es[..0] == [];
  }

  /** Write `j + 1` of an entry is `$key.'.'.$locales[j] => $value`. */
  lemma EntryWritesNext(start: Entries<Value>, key: string, rule: Value, locales: seq<string>, j: nat)
    requires j < |locales|
    ensures PutAll(start, EntryWrites(key, rule, locales)[..j + 2]) ==
      Put(PutAll(start, EntryWrites(key, rule, locales)[..j + 1]), NestedKey(key, locales[j]), rule)
  {
    EntryWritesAt(key, rule, locales, j + 1);
    PutAllStepWith(start, EntryWrites(key, rule, locales), j + 1, NestedKey(key, locales[j]), rule);
  }

  /**
   * `makeRulesByLocales($rules)`: the registered locales, then for each rule
   * its `required|array` entry followed by one copy per locale.
   */
  method MakeRulesByLocales(registry: Locales, rules: Entries<Value>) returns (out: Entries<Value>)
    ensures out == RulesByLocales(rules, registry.locales)
  {
    var locales := registry.All();
    out := [];
    for i := 0 to |rules|
      invariant out == RulesByLocales(rules[..i], locales)
    {
      var key, value := rules[i].0, rules[i].1;
      RulesByLocalesStep(rules, locales, i);
      ghost var start := out;
      EntryWritesFirst(start, key, value, locales);
      out := Put(out, key, Str(REQUIRED_ARRAY));
      for j := 0 to |locales|
        invariant out == PutAll(start, EntryWrites(key, value, locales)[..j + 1])
      {
        EntryWritesNext(start, key, value, locales, j);
        out := Put(out, NestedKey(key, locales[j]), value);
      }
      assert EntryWrites(key, value, locales)[..|locales| + 1] == EntryWrites(key, value, locales);
    }
    assert rules[..|rules|] == rules;
  }

  // ---------------------------------------------------------------------------
  // What the result holds

  /** Applying all the writes at once is applying them entry by entry. */
  lemma {:induction false} RulesByLocalesIsWrites(rules: Entries<Value>, locales: seq<string>)
    ensures RulesByLocales(rules, locales) == PutAll([], Writes(rules, locales))
    decreases |rules|
  {
    if rules != [] {
      var init := rules[..|rules| - 1];
      var last := rules[|rules| - 1];
      RulesByLocalesIsWrites(init, locales);
      PutAllAppend([], Writes(init, locales), EntryWrites(last.0, last.1, locales));
    }
  }

  /** Each entry contributes `1 + |locales|` writes. */
  lemma {:induction false} WritesLength(rules: Entries<Value>, locales: seq<string>)
    ensures |Writes(rules, locales)| == |rules| * (1 + |locales|)
    decreases |rules|
  {
    if rules != [] {
      WritesLength(rules[..|rules| - 1], locales);
      assert |rules| * (1 + |locales|) == (|rules| - 1) * (1 + |locales|) + (1 + |locales|);
    }
  }

  /** The writes of `a + b` are those of `a`, then those of `b`. */
  lemma {:induction false} WritesConcat(a: Entries<Value>, b: Entries<Value>, locales: seq<string>)
    ensures Writes(a + b, locales) == Writes(a, locales) + Writes(b, locales)
    decreases |b|
  {
    if b == [] {
      assert a + b == a;
    } else {
      var init, last := b[..|b| - 1], b[|b| - 1];
      DropLastAppend(a, b);
      WritesUnfold(a + b, locales);
      WritesUnfold(b, locales);
      WritesConcat(a, init, locales);
      AppendAssoc(Writes(a, locales), Writes(init, locales), EntryWrites(last.0, last.1, locales));
    }
  }

  lemma WritesUnfold(rules: Entries<Value>, locales: seq<string>)
    requires rules != []
    ensures Writes(rules, locales) ==
      Writes(rules[..|rules| - 1], locales) + EntryWrites(rules[|rules| - 1].0, rules[|rules| - 1].1, locales)
  {
  }

  /**
   * Entry `i`'s writes form block `i`, after the `i * (1 + |locales|)` writes
   * of the entries before it: first `key => 'required|array'`, then
   * `key.locale => rule` for each locale in registry order.
   */
  lemma WritesSplit(rules: Entries<Value>, locales: seq<string>, i: nat)
    requires i < |rules|
    ensures Writes(rules, locales) ==
      Writes(rules[..i], locales) + EntryWrites(rules[i].0, rules[i].1, locales) + Writes(rules[i + 1..], locales)
    ensures |Writes(rules[..i], locales)| == i * (1 + |locales|)
  {
    var before, here, after := rules[..i], [rules[i]], rules[i + 1..];
    assert rules == before + here + after;
    WritesConcat(before + here, after, locales);
    WritesConcat(before, here, locales);
    assert here[..0] == [];
    WritesLength(before, locales);
  }

  /**
   * When no key is written twice the result is the writes themselves: each
   * key maps to `required|array`, each `key.locale` to the key's rule, in
   * block order, `|rules| * (1 + |locales|)` entries in all.
   */
  lemma RulesByLocalesFresh(rules: Entries<Value>, locales: seq<string>)
    requires NoDuplicates(Keys(Writes(rules, locales)))
    ensures RulesByLocales(rules, locales) == Writes(rules, locales)
    ensures |RulesByLocales(rules, locales)| == |rules| * (1 + |locales|)
  {
    RulesByLocalesIsWrites(rules, locales);
    assert [] + Writes(rules, locales) == Writes(rules, locales);
    PutAllFresh([], Writes(rules, locales));
    WritesLength(rules, locales);
  }

  // ---------------------------------------------------------------------------
  // When the written keys are distinct

  /** The part of a key before its first `.`. */
  function BaseKey(x: string): (b: string)
    ensures |b| <= |x|
  {
    if x == [] || x[0] == '.' then [] else [x[0]] + BaseKey(x[1..])
  }

  /** A key without a `.` is its own base, and so is the base of each of its per-locale keys. */
  lemma {:induction false} BaseKeyOf(key: string, locale: string)
    requires '.' !in key
    ensures BaseKey(key) == key && BaseKey(NestedKey(key, locale)) == key
    decreases |key|
  {
    if key == [] {
      assert NestedKey(key, locale)[0] == '.';
    } else {
      BaseKeyOf(key[1..], locale);
      assert NestedKey(key, locale)[1..] == NestedKey(key[1..], locale);
      assert key == [key[0]] + key[1..];
    }
  }

  /** Per-locale keys of one key differ exactly when their locales do, and never equal the key. */
  lemma NestedKeyDistinct(key: string, l1: string, l2: string)
    ensures NestedKey(key, l1) == NestedKey(key, l2) <==> l1 == l2
    ensures NestedKey(key, l1) != key
  {
    if NestedKey(key, l1) == NestedKey(key, l2) {
      assert l1 == NestedKey(key, l1)[|key| + 1..] && l2 == NestedKey(key, l2)[|key| + 1..];
    }
  }

  /** With keys free of `.`, every written key has the base of some key of `rules`. */
  lemma {:induction false} WritesKeysBase(rules: Entries<Value>, locales: seq<string>)
    requires forall i :: 0 <= i < |rules| ==> '.' !in rules[i].0
    ensures forall x :: x in Keys(Writes(rules, locales)) ==> BaseKey(x) in Keys(rules)
    decreases |rules|
  {
    if rules != [] {
      var init := rules[..|rules| - 1];
      var last := rules[|rules| - 1];
      WritesKeysBase(init, locales);
      var es := EntryWrites(last.0, last.1, locales);
      KeysAppend(Writes(init, locales), es);
      forall x | x in Keys(Writes(rules, locales)) ensures BaseKey(x) in Keys(rules) {
        if x in Keys(es) {
          var k :| 0 <= k < |es| && Keys(es)[k] == x;
          EntryWritesAt(last.0, last.1, locales, k);
          if k == 0 {
            BaseKeyOf(last.0, "");
          } else {
            BaseKeyOf(last.0, locales[k - 1]);
          }
          assert Keys(rules)[|rules| - 1] == last.0;
        } else {
          var k :| 0 <= k < |init| && Keys(init)[k] == BaseKey(x);
          assert Keys(rules)[k] == BaseKey(x);
        }
      }
    }
  }

  /**
   * Distinct keys without `.` and distinct locales write every key once, so
   * `RulesByLocalesFresh` applies.
   */
  lemma {:induction false} WritesDistinct(rules: Entries<Value>, locales: seq<string>)
    requires forall i :: 0 <= i < |rules| ==> '.' !in rules[i].0
    requires NoDuplicates(Keys(rules)) && NoDuplicates(locales)
    ensures NoDuplicates(Keys(Writes(rules, locales)))
    decreases |rules|
  {
    if rules != [] {
      var init := rules[..|rules| - 1];
      var last := rules[|rules| - 1];
      var ks := Keys(rules);
      assert Keys(init) == ks[..|ks| - 1];
      WritesDistinct(init, locales);
      WritesKeysBase(init, locales);
      var es := EntryWrites(last.0, last.1, locales);
      var a, b := Keys(Writes(init, locales)), Keys(es);
      KeysAppend(Writes(init, locales), es);
      assert last.0 !in Keys(init) by {
        forall k | 0 <= k < |init| ensures Keys(init)[k] != last.0 {
          assert Keys(init)[k] == ks[k] && ks[|ks| - 1] == last.0;
        }
      }
      forall y | y in b ensures BaseKey(y) == last.0 {
        var k :| 0 <= k < |b| && b[k] == y;
        EntryWritesAt(last.0, last.1, locales, k);
        if k == 0 { BaseKeyOf(last.0, ""); } else { BaseKeyOf(last.0, locales[k - 1]); }
      }
      forall p, q | 0 <= p < q < |b| ensures b[p] != b[q] {
        EntryWritesAt(last.0, last.1, locales, p);
        EntryWritesAt(last.0, last.1, locales, q);
        if p == 0 {
          NestedKeyDistinct(last.0, locales[q - 1], locales[q - 1]);
        } else {
          NestedKeyDistinct(last.0, locales[p - 1], locales[q - 1]);
        }
      }
      NoDuplicatesConcat(a, b);
    }
  }

  lemma NoDuplicatesConcat(a: seq<string>, b: seq<string>)
    requires NoDuplicates(a) && NoDuplicates(b) && forall x :: x in a ==> x !in b
    ensures NoDuplicates(a + b)
  {
    forall i, j | 0 <= i < j < |a + b| ensures (a + b)[i] != (a + b)[j] {
      if i < |a| && j >= |a| {
        assert (a + b)[i] in a && (a + b)[j] in b;
      }
    }
  }
}
