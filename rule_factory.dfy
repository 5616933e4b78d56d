/**
 * `RuleFactory`: validation rules written with a locale placeholder
 * (`%name%` with the default delimiters) become one rule per locale. The
 * placeholder is rewritten in the keys and inside rule strings, either to
 * `locale.name` (array format) or to `name:locale` (key format).
 */
module Validation {
  import opened Common
  import opened Strings
  import opened OrderedMap
  import opened Configuration
  import opened LocalesRegistry

  const FORMAT_ARRAY: int := 1
  const FORMAT_KEY: int := 2

  /** What a factory rewrites with: the format and the two placeholder delimiters. */
  datatype Settings = Settings(format: Option<int>, prefix: string, suffix: string)

  /** `$given ?? $configured`, where a string property left null reads as `''`. */
  function Coalesce(given: Option<string>, configured: Option<string>): (r: string)
    ensures given.Some? ==> r == given.value
    ensures given.None? && configured.Some? ==> r == configured.value
    ensures given.None? && configured.None? ==> r == ""
  {
    if given.Some? then given.value else if configured.Some? then configured.value else ""
  }

  /** The settings of a factory built from `config` and the given overrides (the constructor). */
  function FactorySettings(config: Config, format: Option<int>, prefix: Option<string>, suffix: Option<string>): Settings
  {
    Settings(if format.Some? then format else config.ruleFormat,
             Coalesce(prefix, config.rulePrefix), Coalesce(suffix, config.ruleSuffix))
  }

  // ---------------------------------------------------------------------------
  // The placeholder pattern `/prefix([^\.prefix suffix]+)suffix/` and its replacement
  // ---------------------------------------------------------------------------

  /** A character the placeholder name may hold: anything but `.` and the delimiters' characters. */
  predicate NameChar(st: Settings, c: char)
  {
    c != '.' && c !in st.prefix && c !in st.suffix
  }

  /** The length of the longest run of name characters at the start of `s`. */
  function NameRun(st: Settings, s: string): (n: nat)
    ensures n <= |s|
  {
    if |s| > 0 && NameChar(st, s[0]) then 1 + NameRun(st, s[1..]) else 0
  }

  /** A run of name characters followed by the end or by another character is measured exactly. */
  lemma {:induction false} NameRunOf(st: Settings, name: string, rest: string)
    requires forall j :: 0 <= j < |name| ==> NameChar(st, name[j])
    requires rest == [] || !NameChar(st, rest[0])
    ensures NameRun(st, name + rest) == |name|
  {
    if name == [] {
      assert name + rest == rest;
    } else {
      assert (name + rest)[1..] == name[1..] + rest;
      NameRunOf(st, name[1..], rest);
    }
  }

  /** The run holds name characters only. */
  lemma {:induction false} NameRunChars(st: Settings, s: string)
    ensures forall j :: 0 <= j < NameRun(st, s) ==> NameChar(st, s[j])
  {
    if |s| > 0 && NameChar(st, s[0]) {
      NameRunChars(st, s[1..]);
    }
  }

  /**
   * The placeholder name the pattern matches at the very start of `s`, if it
   * matches there: the prefix, the greedy run of name characters (at least
   * one), then the suffix. A pattern without look-behind matches at
   * position `i` of a subject exactly when it matches at the start of what
   * follows `i`, so the scan works on suffixes.
   */
  function MatchHere(st: Settings, s: string): (r: Option<string>)
    ensures r.Some? ==> |r.value| > 0 && |st.prefix| + |r.value| + |st.suffix| <= |s|
  {
    if !StartsWith(s, st.prefix) then None
    else
      var t := s[|st.prefix|..];
      var n := NameRun(st, t);
      if n > 0 && StartsWith(t[n..], st.suffix) then Some(t[..n]) else None
  }

  /** A match is the prefix, a non-empty name of name characters, the suffix, and whatever follows. */
  lemma MatchHereSound(st: Settings, s: string)
    requires MatchHere(st, s).Some?
    ensures var name := MatchHere(st, s).value;
      s == st.prefix + name + st.suffix + s[|st.prefix| + |name| + |st.suffix|..] &&
      forall j :: 0 <= j < |name| ==> NameChar(st, name[j])
  {
    var p, q := |st.prefix|, |st.suffix|;
    var t := s[p..];
    NameRunChars(st, t);
    var name := MatchHere(st, s).value;
    var n := |name|;
    var u := t[n..];
    var rest := s[p + n + q..];
    assert u[q..] == rest;
    assert u == st.suffix + rest by { assert u == u[..q] + u[q..]; }
    assert t == name + u by { assert t == t[..n] + t[n..]; }
    assert s == st.prefix + t by { assert s == s[..p] + s[p..]; }
    ConcatAssoc4(st.prefix, name, st.suffix, rest);
  }

  /** The delimiters of a match sit at the start and right after the name. */
  lemma MatchHereDelimiters(st: Settings, s: string)
    requires MatchHere(st, s).Some?
    ensures OccursAt(s, st.prefix, 0) && OccursAt(s, st.suffix, |st.prefix| + |MatchHere(st, s).value|)
  {
    var p, q := |st.prefix|, |st.suffix|;
    var n := |MatchHere(st, s).value|;
    assert s[..p] == s[0..p];
    assert s[p..][n..][..q] == s[p + n..p + n + q];
  }

  /**
   * With a non-empty suffix the pattern matches `prefix + name + suffix`
   * at the start of a string, whatever follows: the greedy run stops at
   * the suffix, so backtracking finds no other match.
   */
  lemma TokenMatches(st: Settings, name: string, rest: string)
    requires |st.suffix| > 0
    requires |name| > 0 && forall j :: 0 <= j < |name| ==> NameChar(st, name[j])
    ensures MatchHere(st, st.prefix + name + st.suffix + rest) == Some(name)
  {
    var s := st.prefix + name + st.suffix + rest;
    var t := s[|st.prefix|..];
    assert s[..|st.prefix|] == st.prefix;
    assert t == name + (st.suffix + rest);
    assert (st.suffix + rest)[0] == st.suffix[0];
    NameRunOf(st, name, st.suffix + rest);
    assert t[|name|..] == st.suffix + rest;
    assert (st.suffix + rest)[..|st.suffix|] == st.suffix;
    assert t[..|name|] == name;
  }

  /** `getReplacement($locale)` applied to a matched name: `name:locale` for the key format, `locale.name` otherwise. */
  function Substitute(st: Settings, locale: string, name: string): string
  {
    if st.format == Some(FORMAT_KEY) then name + ":" + locale else locale + "." + name
  }

  /** Different locales give different replacements, in both formats. */
  lemma SubstituteInjective(st: Settings, l1: string, l2: string, name: string)
    ensures Substitute(st, l1, name) == Substitute(st, l2, name) <==> l1 == l2
  {
    var r1 := Substitute(st, l1, name);
    var r2 := Substitute(st, l2, name);
    if r1 == r2 {
      if st.format == Some(FORMAT_KEY) {
        assert l1 == r1[|name| + 1..] && l2 == r2[|name| + 1..];
      } else {
        assert |l1| == |l2|;
        assert l1 == r1[..|l1|] && l2 == r2[..|l2|];
      }
    }
  }

  /** What one step of the scan emits at the start of `s`: the substitute of a match, or the first character. */
  function Piece(st: Settings, locale: string, s: string, m: Option<string>): string
    requires s != []
  {
    if m.Some? then Substitute(st, locale, m.value) else [s[0]]
  }

  /** How far one step of the scan moves: past the whole match, or by one character. */
  function Advance(st: Settings, s: string, m: Option<string>): (n: nat)
    requires m == MatchHere(st, s) && s != []
    ensures 0 < n <= |s|
  {
    if m.Some? then |st.prefix| + |m.value| + |st.suffix| else 1
  }

  /**
   * `replacePlaceholder($locale, $value)`, the `preg_replace` of the
   * pattern: scanning left to right, each match is replaced by its
   * substitute and the scan resumes after it; elsewhere one character is
   * copied and the scan moves on by one.
   */
  function ReplacePlaceholder(st: Settings, locale: string, s: string): string
    decreases |s|
  {
    if s == [] then []
    else
      var m := MatchHere(st, s);
      Piece(st, locale, s, m) + ReplacePlaceholder(st, locale, s[Advance(st, s, m)..])
  }

  /** A string without the prefix is left unchanged. */
  lemma {:induction false} ReplaceWithoutPrefix(st: Settings, locale: string, s: string)
    requires |st.prefix| > 0 && !Contains(s, st.prefix)
    ensures ReplacePlaceholder(st, locale, s) == s
    decreases |s|
  {
    if s != [] {
      assert !OccursAt(s, st.prefix, 0);
      if |st.prefix| <= |s| { assert s[..|st.prefix|] == s[0..|st.prefix|]; }
      assert MatchHere(st, s).None?;
      NotContainsSlice(s, st.prefix, 1, |s|);
      assert s[1..|s|] == s[1..];
      ReplaceWithoutPrefix(st, locale, s[1..]);
      assert s == [s[0]] + s[1..];
    }
  }

  /** With a one-character prefix, text that does not contain it is copied and the rewrite goes on after it. */
  lemma {:induction false} ReplaceAfterPlain(st: Settings, locale: string, before: string, rest: string)
    requires |st.prefix| == 1 && !Contains(before, st.prefix)
    ensures ReplacePlaceholder(st, locale, before + rest) == before + ReplacePlaceholder(st, locale, rest)
    decreases |before|
  {
    if before == [] {
      assert before + rest == rest;
    } else {
      var s := before + rest;
      PlainHead(st, before, rest);
      ReplaceCopies(st, locale, s);
      ReplaceAfterPlain(st, locale, before[1..], rest);
      ConsConcat(before, ReplacePlaceholder(st, locale, rest));
    }
  }

  /** Where no match starts, the first character is copied and the scan moves on by one. */
  lemma ReplaceCopies(st: Settings, locale: string, s: string)
    requires s != [] && MatchHere(st, s).None?
    ensures ReplacePlaceholder(st, locale, s) == [s[0]] + ReplacePlaceholder(st, locale, s[1..])
  {
  }

  /** Where a match starts, it gives way to its substitute and the scan resumes after it. */
  lemma ReplaceSubstitutes(st: Settings, locale: string, s: string, name: string, rest: string)
    requires MatchHere(st, s) == Some(name) && rest == s[|st.prefix| + |name| + |st.suffix|..]
    ensures ReplacePlaceholder(st, locale, s) == Substitute(st, locale, name) + ReplacePlaceholder(st, locale, rest)
  {
    var m := MatchHere(st, s);
    assert Piece(st, locale, s, m) == Substitute(st, locale, name);
    assert s[Advance(st, s, m)..] == rest;
  }

  /** Text starting with a character that is not the one-character prefix has no match at its start. */
  lemma PlainHead(st: Settings, before: string, rest: string)
    requires |st.prefix| == 1 && !Contains(before, st.prefix) && before != []
    ensures MatchHere(st, before + rest).None?
    ensures (before + rest)[0] == before[0] && (before + rest)[1..] == before[1..] + rest
    ensures !Contains(before[1..], st.prefix)
  {
    var s := before + rest;
    NotOccursAt(before, st.prefix, 0);
    assert before[0..1] == [before[0]] && st.prefix == [st.prefix[0]];
    assert s[..1] == [s[0]] && s[0] == before[0];
    NotContainsSlice(before, st.prefix, 1, |before|);
    assert before[1..|before|] == before[1..];
  }

  /**
   * With a one-character prefix and a non-empty suffix, `before + prefix +
   * name + suffix + after` has its placeholder replaced and the rest
   * rewritten on its own, when `before` holds no prefix character.
   */
  lemma ReplaceToken(st: Settings, locale: string, before: string, name: string, after: string)
    requires |st.prefix| == 1 && |st.suffix| > 0 && !Contains(before, st.prefix)
    requires |name| > 0 && forall j :: 0 <= j < |name| ==> NameChar(st, name[j])
    ensures ReplacePlaceholder(st, locale, before + st.prefix + name + st.suffix + after) ==
      before + Substitute(st, locale, name) + ReplacePlaceholder(st, locale, after)
  {
    var token := st.prefix + name + st.suffix;
    var t := token + after;
    AppendAssoc(before + st.prefix, name, st.suffix);
    AppendAssoc(before, st.prefix, name + st.suffix);
    AppendAssoc(st.prefix, name, st.suffix);
    AppendAssoc(before, token, after);
    ReplaceAfterPlain(st, locale, before, t);
    TokenMatches(st, name, after);
    assert t[|token|..] == after;
    ReplaceSubstitutes(st, locale, t, name, after);
    AppendAssoc(before, Substitute(st, locale, name), ReplacePlaceholder(st, locale, after));
  }

  // ---------------------------------------------------------------------------
  // formatRule
  // ---------------------------------------------------------------------------

  /** The replacement applied to each piece of a split rule string. */
  function ReplaceEach(st: Settings, locale: string, parts: seq<string>): (r: seq<string>)
    ensures |r| == |parts| && forall k :: 0 <= k < |parts| ==> r[k] == ReplacePlaceholder(st, locale, parts[k])
  {
    if parts == [] then [] else [ReplacePlaceholder(st, locale, parts[0])] + ReplaceEach(st, locale, parts[1..])
  }

  /**
   * `formatRule` on a string: when `strpos($rule, '|')` is truthy, which is
   * when the first `|` sits past index 0, the pieces are rewritten one by
   * one and joined again; otherwise the whole string is rewritten.
   */
  function FormatString(st: Settings, locale: string, rule: string): string
  {
    match IndexOf(rule, "|")
    case Some(i) =>
      if i > 0 then Implode("|", ReplaceEach(st, locale, Explode("|", rule)))
      else ReplacePlaceholder(st, locale, rule)
    case None => ReplacePlaceholder(st, locale, rule)
  }

  /** `formatRule`: strings are rewritten, arrays element by element keeping their keys, other rules left alone. */
  function FormatRule(st: Settings, locale: string, rule: Value): (r: Value)
    ensures rule.Str? ==> r == Str(FormatString(st, locale, rule.s))
    ensures rule.Array? ==> r.Array? && Keys(r.entries) == Keys(rule.entries)
    ensures !rule.Str? && !rule.Array? ==> r == rule
    decreases rule
  {
    match rule
    case Str(s) => Str(FormatString(st, locale, s))
    case Array(entries) => Array(FormatEntries(st, locale, rule, entries))
    case _ => rule
  }

  /** The `array_map` of `formatRule` over an array of rules. */
  function FormatEntries(st: Settings, locale: string, ghost parent: Value, entries: seq<(string, Value)>): (r: seq<(string, Value)>)
    requires forall e :: e in entries ==> e.1 < parent
    ensures |r| == |entries| && Keys(r) == Keys(entries)
    decreases parent, |entries|
  {
    if entries == [] then []
    else [(entries[0].0, FormatRule(st, locale, entries[0].1))] + FormatEntries(st, locale, parent, entries[1..])
  }

  /** Two rules joined by `|` are rewritten piece by piece. */
  lemma FormatStringSplit(st: Settings, locale: string, a: string, b: string)
    requires a != "" && !Contains(a, "|") && !Contains(b, "|")
    ensures FormatString(st, locale, a + "|" + b) ==
      ReplacePlaceholder(st, locale, a) + "|" + ReplacePlaceholder(st, locale, b)
  {
    var w := a + "|" + b;
    ExplodeTwo("|", a, b);
    FirstPieceOfJoin("|", a, b);
    ExplodeHead("|", w);
    assert Contains(w, "|");
    assert IndexOf(w, "|") == Some(|a|) by {
      ExplodeHead("|", w);
    }
    assert ReplaceEach(st, locale, [a, b]) == [ReplacePlaceholder(st, locale, a), ReplacePlaceholder(st, locale, b)];
    ImplodeCons("|", ReplacePlaceholder(st, locale, a), [ReplacePlaceholder(st, locale, b)]);
  }

  /** A rule string without the prefix is left unchanged, whether or not it is split. */
  lemma FormatStringWithoutPrefix(st: Settings, locale: string, rule: string)
    requires |st.prefix| > 0 && !Contains(rule, st.prefix)
    ensures FormatString(st, locale, rule) == rule
  {
    ReplaceWithoutPrefix(st, locale, rule);
    var parts := Explode("|", rule);
    ExplodeKeepsAbsence("|", rule, st.prefix);
    forall k | 0 <= k < |parts| ensures ReplacePlaceholder(st, locale, parts[k]) == parts[k] {
      ReplaceWithoutPrefix(st, locale, parts[k]);
    }
    assert ReplaceEach(st, locale, parts) == parts;
    ImplodeExplode("|", rule);
  }

  /** No string anywhere inside the rule contains the prefix. */
  predicate FreeOfPrefix(st: Settings, rule: Value)
    decreases rule
  {
    match rule
    case Str(s) => !Contains(s, st.prefix)
    case Array(entries) => EntriesFreeOfPrefix(st, rule, entries)
    case _ => true
  }

  predicate EntriesFreeOfPrefix(st: Settings, ghost parent: Value, entries: seq<(string, Value)>)
    requires forall e :: e in entries ==> e.1 < parent
    decreases parent, |entries|
  {
    entries == [] || (FreeOfPrefix(st, entries[0].1) && EntriesFreeOfPrefix(st, parent, entries[1..]))
  }

  /** A rule that does not mention the prefix anywhere is returned unchanged, however deeply nested. */
  lemma {:induction false} FormatRuleWithoutPrefix(st: Settings, locale: string, rule: Value)
    requires |st.prefix| > 0 && FreeOfPrefix(st, rule)
    ensures FormatRule(st, locale, rule) == rule
    decreases rule
  {
    match rule
    case Str(s) => FormatStringWithoutPrefix(st, locale, s);
    case Array(entries) => FormatEntriesWithoutPrefix(st, locale, rule, entries);
    case _ =>
  }

  lemma {:induction false} FormatEntriesWithoutPrefix(st: Settings, locale: string, parent: Value, entries: seq<(string, Value)>)
    requires forall e :: e in entries ==> e.1 < parent
    requires |st.prefix| > 0 && EntriesFreeOfPrefix(st, parent, entries)
    ensures FormatEntries(st, locale, parent, entries) == entries
    decreases parent, |entries|
  {
    if entries != [] {
      FormatRuleWithoutPrefix(st, locale, entries[0].1);
      FormatEntriesWithoutPrefix(st, locale, parent, entries[1..]);
    }
  }

  // ---------------------------------------------------------------------------
  // parse
  // ---------------------------------------------------------------------------

  /** `isTranslatable($key)`: the key contains both the prefix and the suffix. */
  predicate IsTranslatable(st: Settings, key: string)
  {
    Contains(key, st.prefix) && Contains(key, st.suffix)
  }

  /** A key in which the pattern matches somewhere is translatable; the converse fails for a lone delimiter. */
  lemma MatchedIsTranslatable(st: Settings, key: string, i: nat)
    requires i <= |key| && MatchHere(st, key[i..]).Some?
    ensures IsTranslatable(st, key)
  {
    MatchHereDelimiters(st, key[i..]);
    var name := MatchHere(st, key[i..]).value;
    OccursInSuffix(key, st.prefix, i, 0);
    OccursInSuffix(key, st.suffix, i, |st.prefix| + |name|);
    ContainsAt(key, st.prefix, i);
    ContainsAt(key, st.suffix, i + |st.prefix| + |name|);
  }

  /** `title%` holds the default delimiters and is translatable, yet the pattern matches nowhere in it. */
  lemma LoneDelimiterIsTranslatable()
    ensures var st := Settings(Some(FORMAT_ARRAY), "%", "%");
      IsTranslatable(st, "title%") && forall j :: 0 <= j <= 6 ==> MatchHere(st, "title%"[j..]).None?
  {
    var st := Settings(Some(FORMAT_ARRAY), "%", "%");
    var key := "title%";
    assert OccursAt(key, "%", 5) by { assert key[5..6] == "%"; }
    forall j | 0 <= j <= 6 ensures MatchHere(st, key[j..]).None? {
      if j < 5 { assert key[j..][..1] != "%" by { assert key[j..][..1][0] == key[j]; } }
      if j == 5 { assert key[j..][1..] == ""; }
    }
  }

  /** The entries the inner loop of `parse` writes for a translatable key: one per locale, in locale order. */
  function Expansion(st: Settings, locales: seq<string>, key: string, rule: Value): (es: Entries<Value>)
    ensures |es| == |locales|
    ensures forall j :: 0 <= j < |locales| ==>
      es[j] == (ReplacePlaceholder(st, locales[j], key), FormatRule(st, locales[j], rule))
  {
    if locales == [] then []
    else
      var l := locales[|locales| - 1];
      Expansion(st, locales[..|locales| - 1], key, rule) + [(ReplacePlaceholder(st, l, key), FormatRule(st, l, rule))]
  }

  /** `k` is a key `parse` writes for input key `key`: the key itself, or one of its per-locale rewrites. */
  predicate ProducesKey(st: Settings, locales: seq<string>, key: string, k: string)
  {
    if IsTranslatable(st, key) then exists j :: 0 <= j < |locales| && k == ReplacePlaceholder(st, locales[j], key)
    else k == key
  }

  /**
   * One entry of `parse`: copied as it is, or expanded once per locale. The
   * keys afterwards are the earlier ones and those the entry produces.
   */
  function ParseEntry(st: Settings, locales: seq<string>, rules: Entries<Value>, entry: (string, Value)): (r: Entries<Value>)
    ensures forall k :: k in Keys(r) <==> k in Keys(rules) || ProducesKey(st, locales, entry.0, k)
  {
    if !IsTranslatable(st, entry.0) then
      var r := Put(rules, entry.0, entry.1);
      assert forall k :: k in Keys(r) <==> Get(r, k).Some?;
      assert forall k :: k in Keys(rules) <==> Get(rules, k).Some?;
      r
    else
      var es := Expansion(st, locales, entry.0, entry.1);
      var r := PutAll(rules, es);
      assert forall k :: k in Keys(r) <==> k in Keys(rules) || ProducesKey(st, locales, entry.0, k) by {
        forall k ensures k in Keys(r) <==> k in Keys(rules) || ProducesKey(st, locales, entry.0, k) {
          PutAllGet(rules, es, k);
          if k in Keys(es) {
            var j :| 0 <= j < |es| && Keys(es)[j] == k;
            assert k == ReplacePlaceholder(st, locales[j], entry.0);
          }
          if ProducesKey(st, locales, entry.0, k) {
            var j :| 0 <= j < |locales| && k == ReplacePlaceholder(st, locales[j], entry.0);
            assert Keys(es)[j] == k;
          }
        }
      }
      r
  }

  /** `parse($input)`: the entries of `input` processed in order into a fresh array. */
  function ParseRules(st: Settings, locales: seq<string>, input: Entries<Value>): Entries<Value>
    decreases |input|
  {
    if input == [] then []
    else ParseEntry(st, locales, ParseRules(st, locales, input[..|input| - 1]), input[|input| - 1])
  }

  /** The keys of the parsed rules are exactly those the input's entries produce. */
  lemma {:induction false} ParseRulesKeys(st: Settings, locales: seq<string>, input: Entries<Value>, k: string)
    ensures k in Keys(ParseRules(st, locales, input)) <==>
      exists i :: 0 <= i < |input| && ProducesKey(st, locales, input[i].0, k)
    decreases |input|
  {
    if input != [] {
      var n := |input| - 1;
      var init := input[..n];
      assert input == init + [input[n]];
      ParseRulesKeys(st, locales, init, k);
      ParseRulesKeysStep(st, locales, init, input[n], ParseRules(st, locales, init), k);
    }
  }

  lemma ParseRulesKeysStep(st: Settings, locales: seq<string>, init: Entries<Value>, last: (string, Value),
                           before: Entries<Value>, k: string)
    requires k in Keys(before) <==> exists i :: 0 <= i < |init| && ProducesKey(st, locales, init[i].0, k)
    ensures k in Keys(ParseEntry(st, locales, before, last)) <==>
      exists i :: 0 <= i < |init + [last]| && ProducesKey(st, locales, (init + [last])[i].0, k)
  {
    var input := init + [last];
    if k in Keys(before) {
      var i :| 0 <= i < |init| && ProducesKey(st, locales, init[i].0, k);
      assert input[i] == init[i];
    } else if !ProducesKey(st, locales, last.0, k) {
      forall i | 0 <= i < |input| ensures !ProducesKey(st, locales, input[i].0, k) {
        if i < |init| { assert input[i] == init[i]; }
      }
    } else {
      assert input[|init|] == last;
    }
  }

  /** Input without any translatable key comes back as it is. */
  lemma {:induction false} ParseUntranslated(st: Settings, locales: seq<string>, input: Entries<Value>)
    requires NoDuplicates(Keys(input))
    requires forall i :: 0 <= i < |input| ==> !IsTranslatable(st, input[i].0)
    ensures ParseRules(st, locales, input) == input
    decreases |input|
  {
    if input != [] {
      var init := input[..|input| - 1];
      var last := input[|input| - 1];
      assert input == init + [last];
      KeysAppend(init, [last]);
      var ks := Keys(input);
      assert Keys(init) == ks[..|ks| - 1];
      assert NoDuplicates(Keys(init));
      ParseUntranslated(st, locales, init);
      forall i | 0 <= i < |init| ensures ks[i] != last.0 { }
      assert last.0 !in Keys(init);
    }
  }

  /**
   * A translatable key whose per-locale keys are new and pairwise distinct
   * adds exactly its expansion, at the end and in locale order.
   */
  lemma ParseEntryExpands(st: Settings, locales: seq<string>, rules: Entries<Value>, key: string, rule: Value)
    requires IsTranslatable(st, key)
    requires NoDuplicates(Keys(rules + Expansion(st, locales, key, rule)))
    ensures ParseEntry(st, locales, rules, (key, rule)) == rules + Expansion(st, locales, key, rule)
  {
    PutAllFresh(rules, Expansion(st, locales, key, rule));
  }

  /**
   * A key holding one placeholder gets one distinct key per locale: in the
   * array format `before + locale.name + after`, in the key format
   * `before + name:locale + after`.
   */
  lemma ExpansionKeysDistinct(st: Settings, locales: seq<string>, before: string, name: string, after: string, rule: Value)
    requires |st.prefix| == 1 && |st.suffix| > 0 && !Contains(before, st.prefix) && !Contains(after, st.prefix)
    requires |name| > 0 && forall j :: 0 <= j < |name| ==> NameChar(st, name[j])
    requires NoDuplicates(locales)
    ensures var es := Expansion(st, locales, before + st.prefix + name + st.suffix + after, rule);
      NoDuplicates(Keys(es)) &&
      forall j :: 0 <= j < |locales| ==> es[j].0 == before + Substitute(st, locales[j], name) + after
  {
    var key := before + st.prefix + name + st.suffix + after;
    var es := Expansion(st, locales, key, rule);
    forall j | 0 <= j < |locales| ensures es[j].0 == before + Substitute(st, locales[j], name) + after {
      ReplaceToken(st, locales[j], before, name, after);
      ReplaceWithoutPrefix(st, locales[j], after);
    }
    var ks := Keys(es);
    forall i, j | 0 <= i < j < |ks| ensures ks[i] != ks[j] {
      SubstituteInjective(st, locales[i], locales[j], name);
      DistinctMiddle(before, Substitute(st, locales[i], name), Substitute(st, locales[j], name), after);
    }
  }

  lemma DistinctMiddle(before: string, x: string, y: string, after: string)
    requires x != y
    ensures before + x + after != before + y + after
  {
    if |x| == |y| {
      assert (before + x + after)[|before|..|before| + |x|] == x;
      assert (before + y + after)[|before|..|before| + |y|] == y;
    }
  }

  // ---------------------------------------------------------------------------
  // setLocales
  // ---------------------------------------------------------------------------

  /** The check of an explicit locale list: the first locale the registry lacks is rejected. */
  function CheckLocales(locales: seq<string>, registered: seq<string>): (r: Outcome<Error>)
    ensures r.Pass? <==> forall i :: 0 <= i < |locales| ==> locales[i] in registered
    ensures r.Fail? ==> exists i :: (0 <= i < |locales| && r.error == InvalidLocale(locales[i]) &&
      locales[i] !in registered && forall j :: 0 <= j < i ==> locales[j] in registered)
  {
    if locales == [] then Pass
    else if locales[0] !in registered then Fail(InvalidLocale(locales[0]))
    else
      var r := CheckLocales(locales[1..], registered);
      if r.Fail? then
        var i :| 0 <= i < |locales| - 1 && r.error == InvalidLocale(locales[1..][i]) &&
          locales[1..][i] !in registered && forall j :: 0 <= j < i ==> locales[1..][j] in registered;
        assert locales[i + 1] == locales[1..][i];
        r
      else r
  }

  /** The rule factory of one `make` call, or one built by hand. */
  class RuleFactory {
    var format: Option<int>
    var prefix: string
    var suffix: string
    var locales: Option<seq<string>>

    /** `__construct`: each argument left null falls back to `translatable.rule_factory.*`. */
    constructor (config: Config, format: Option<int>, prefix: Option<string>, suffix: Option<string>)
      ensures Current() == FactorySettings(config, format, prefix, suffix)
      ensures locales.None?
    {
      var st := FactorySettings(config, format, prefix, suffix);
      this.format := st.format;
      this.prefix := st.prefix;
      this.suffix := st.suffix;
      this.locales := None;
    }

    function Current(): Settings
      reads this`format, this`prefix, this`suffix
    {
      Settings(format, prefix, suffix)
    }

    /** The locales `parse` iterates; before `setLocales` there are none. */
    function Locales(): seq<string>
      reads this`locales
    {
      if locales.Some? then locales.value else []
    }

    /**
     * `setLocales($locales)`: null selects every registered locale; an
     * explicit list is kept only when the registry has each of its locales,
     * and the first it lacks is reported as `InvalidArgumentException`.
     */
    method SetLocales(registry: Locales, given: Option<seq<string>>) returns (r: Outcome<Error>)
      modifies this`locales
      ensures given.None? ==> r == Pass && locales == Some(registry.locales)
      ensures given.Some? ==> r == CheckLocales(given.value, registry.locales)
      ensures given.Some? && r.Pass? ==> locales == given
      ensures r.Fail? ==> locales == old(locales)
    {
      if given.None? {
        locales := Some(registry.All());
        return Pass;
      }
      var ls := given.value;
      for i := 0 to |ls|
        invariant CheckLocales(ls, registry.locales) == CheckLocales(ls[i..], registry.locales)
        invariant forall j :: 0 <= j < i ==> ls[j] in registry.locales
      {
        assert ls[i..][1..] == ls[i + 1..];
        if !registry.Has(ls[i]) {
          return Fail(InvalidLocale(ls[i]));
        }
      }
      locales := given;
      r := Pass;
    }

    /** `parse($input)`: the nested loops writing each expanded or copied rule. */
    method Parse(input: Entries<Value>) returns (rules: Entries<Value>)
      ensures rules == ParseRules(Current(), Locales(), input)
    {
      var st := Current();
      var ls := Locales();
      rules := [];
      for i := 0 to |input|
        invariant rules == ParseRules(st, ls, input[..i])
      {
        var (key, value) := input[i];
        ParseRulesStep(st, ls, input, i);
        if !IsTranslatable(st, key) {
          rules := Put(rules, key, value);
        } else {
          ghost var start := rules;
          ghost var es := Expansion(st, ls, key, value);
          for j := 0 to |ls|
            invariant rules == PutAll(start, es[..j])
          {
            PutAllStep(start, es, j);
            rules := Put(rules, ReplacePlaceholder(st, ls[j], key), FormatRule(st, ls[j], value));
          }
          assert es[..|ls|] == es;
        }
      }
      assert input[..|input|] == input;
    }

    /** `RuleFactory::make`: a fresh factory, `setLocales`, then `parse`. */
    static method Make(config: Config, registry: Locales, input: Entries<Value>,
                       format: Option<int>, prefix: Option<string>, suffix: Option<string>,
                       locales: Option<seq<string>>)
      returns (r: Result<Entries<Value>, Error>)
      ensures locales.Some? && CheckLocales(locales.value, registry.locales).Fail? ==>
        r == Failure(CheckLocales(locales.value, registry.locales).error)
      ensures locales.None? || CheckLocales(locales.value, registry.locales).Pass? ==>
        r == Success(ParseRules(FactorySettings(config, format, prefix, suffix),
                                if locales.Some? then locales.value else registry.locales, input))
    {
      var factory := new RuleFactory(config, format, prefix, suffix);
      var outcome := factory.SetLocales(registry, locales);
      if outcome.Fail? {
        return Failure(outcome.error);
      }
      var rules := factory.Parse(input);
      r := Success(rules);
    }
  }

  /** The entries up to `i`, and then entry `i`. */
  lemma ParseRulesStep(st: Settings, locales: seq<string>, input: Entries<Value>, i: nat)
    requires i < |input|
    ensures ParseRules(st, locales, input[..i + 1]) == ParseEntry(st, locales, ParseRules(st, locales, input[..i]), input[i])
  {
    assert input[..i + 1][..i] == input[..i];
  }
}
