/**
 * The PHP string primitives the package relies on: `strpos` (first
 * occurrence of a substring), `explode` and `implode`. Strings are sequences
 * of characters; no encoding or normalisation is involved.
 */
module Strings {
  import opened Common

  /** `sub` occurs in `s` starting at index `i`. */
  predicate OccursAt(s: string, sub: string, i: nat)
  {
    i + |sub| <= |s| && s[i..i + |sub|] == sub
  }

  /** `strpos($s, $sub)`, searching from index `k`: the first occurrence at or after `k`. */
  function IndexFrom(s: string, sub: string, k: nat): (r: Option<nat>)
    requires k <= |s|
    ensures r.Some? ==> k <= r.value && OccursAt(s, sub, r.value)
    decreases |s| - k
  {
    if k + |sub| > |s| then None
    else if s[k..k + |sub|] == sub then Some(k)
    else IndexFrom(s, sub, k + 1)
  }

  /** The search finds the first occurrence at or after `k`, and finds nothing only when there is none. */
  lemma {:induction false} IndexFromSpec(s: string, sub: string, k: nat)
    requires k <= |s|
    ensures IndexFrom(s, sub, k).Some? ==> forall j :: k <= j < IndexFrom(s, sub, k).value ==> !OccursAt(s, sub, j)
    ensures IndexFrom(s, sub, k).None? ==> forall j :: k <= j ==> !OccursAt(s, sub, j)
    decreases |s| - k
  {
    if k + |sub| <= |s| && s[k..k + |sub|] != sub {
      IndexFromSpec(s, sub, k + 1);
    }
  }

  /** `strpos($s, $sub)`: the index of the first occurrence of `sub` in `s`, if any. */
  function IndexOf(s: string, sub: string): (r: Option<nat>)
    ensures r.Some? ==> OccursAt(s, sub, r.value)
  {
    IndexFrom(s, sub, 0)
  }

  /** `strpos` gives the first occurrence, and `false` exactly when there is none. */
  lemma IndexOfSpec(s: string, sub: string)
    ensures IndexOf(s, sub).Some? ==> forall j :: 0 <= j < IndexOf(s, sub).value ==> !OccursAt(s, sub, j)
    ensures IndexOf(s, sub).None? <==> forall j :: 0 <= j ==> !OccursAt(s, sub, j)
  {
    IndexFromSpec(s, sub, 0);
  }

  /** `strpos($s, $sub) !== false` (with PHP 8's answer 0 for an empty `$sub`). */
  predicate Contains(s: string, sub: string)
  {
    IndexOf(s, sub).Some?
  }

  /** A string that does not contain `sub` has it nowhere. */
  lemma NotOccursAt(s: string, sub: string, j: nat)
    requires !Contains(s, sub)
    ensures !OccursAt(s, sub, j)
  {
    IndexOfSpec(s, sub);
  }

  /** A string where `sub` occurs somewhere contains it. */
  lemma ContainsAt(s: string, sub: string, j: nat)
    requires OccursAt(s, sub, j)
    ensures Contains(s, sub)
  {
    IndexOfSpec(s, sub);
  }

  lemma ConsConcat(s: string, t: string)
    requires s != []
    ensures [s[0]] + (s[1..] + t) == s + t
  {
    assert s == [s[0]] + s[1..];
  }

  lemma ConcatAssoc4(a: string, b: string, c: string, d: string)
    ensures a + (b + (c + d)) == a + b + c + d
  {
    assert b + (c + d) == b + c + d;
  }

  /** An occurrence in a suffix of `s` is an occurrence in `s`, shifted by where the suffix starts. */
  lemma OccursInSuffix(s: string, sub: string, i: nat, j: nat)
    requires i <= |s| && OccursAt(s[i..], sub, j)
    ensures OccursAt(s, sub, i + j)
  {
    assert s[i..][j..j + |sub|] == s[i + j..i + j + |sub|];
  }

  /** A string where `sub` occurs nowhere does not contain it. */
  lemma NotContainsAny(s: string, sub: string)
    requires forall j: nat :: !OccursAt(s, sub, j)
    ensures !Contains(s, sub)
  {
    IndexOfSpec(s, sub);
  }

  /** A string without the character `c` does not contain `[c]`. */
  lemma CharAbsent(s: string, c: char)
    requires c !in s
    ensures !Contains(s, [c])
  {
    forall j: nat ensures !OccursAt(s, [c], j) {
      if j + 1 <= |s| { assert s[j..j + 1][0] == s[j] && s[j] in s; }
    }
    NotContainsAny(s, [c]);
  }

  predicate StartsWith(s: string, p: string)
  {
    |p| <= |s| && s[..|p|] == p
  }

  /** No occurrence of `sub` lies entirely inside the part of `s` before the first one. */
  lemma BeforeFirstOccurrence(s: string, sub: string, i: nat)
    requires |sub| > 0 && IndexOf(s, sub) == Some(i)
    ensures !Contains(s[..i], sub)
  {
    IndexOfSpec(s, sub);
    forall j: nat ensures !OccursAt(s[..i], sub, j) {
      if j + |sub| <= i {
        assert s[..i][j..j + |sub|] == s[j..j + |sub|];
        assert !OccursAt(s, sub, j);
      }
    }
    NotContainsAny(s[..i], sub);
  }

  /** `explode($sep, $s)`; PHP rejects an empty separator. */
  function Explode(sep: string, s: string): (parts: seq<string>)
    requires |sep| > 0
    ensures |parts| >= 1
    decreases |s|
  {
    match IndexOf(s, sep)
    case None => [s]
    case Some(i) => [s[..i]] + Explode(sep, s[i + |sep|..])
  }

  /**
   * The first piece of `explode` is the part of `s` before the first
   * separator, or all of `s` when there is none.
   */
  lemma ExplodeHead(sep: string, s: string)
    requires |sep| > 0
    ensures IsPrefix(Explode(sep, s)[0], s) && !Contains(Explode(sep, s)[0], sep)
    ensures !Contains(s, sep) ==> Explode(sep, s) == [s]
    ensures Contains(s, sep) ==> |Explode(sep, s)| >= 2 && OccursAt(s, sep, |Explode(sep, s)[0]|)
  {
    match IndexOf(s, sep)
    case None =>
    case Some(i) =>
      BeforeFirstOccurrence(s, sep, i);
      ExplodeAt(sep, s, i);
  }

  /** A string that does not contain `sub` has no slice that does. */
  lemma NotContainsSlice(s: string, sub: string, a: nat, b: nat)
    requires a <= b <= |s| && !Contains(s, sub)
    ensures !Contains(s[a..b], sub)
  {
    forall j: nat ensures !OccursAt(s[a..b], sub, j) {
      if j + |sub| <= b - a {
        var t := s[a..b];
        var u := t[j..j + |sub|];
        assert forall k :: 0 <= k < |sub| ==> u[k] == s[a + j + k];
        assert u == s[a + j..a + j + |sub|];
        NotOccursAt(s, sub, a + j);
      }
    }
    NotContainsAny(s[a..b], sub);
  }

  /** Every piece of `explode` avoids whatever `s` avoids. */
  lemma {:induction false} ExplodeKeepsAbsence(sep: string, s: string, sub: string)
    requires |sep| > 0 && !Contains(s, sub)
    ensures forall k :: 0 <= k < |Explode(sep, s)| ==> !Contains(Explode(sep, s)[k], sub)
    decreases |s|
  {
    match IndexOf(s, sep)
    case None =>
    case Some(i) =>
      NotContainsSlice(s, sub, 0, i);
      NotContainsSlice(s, sub, i + |sep|, |s|);
      assert s[i + |sep|..|s|] == s[i + |sep|..];
      ExplodeKeepsAbsence(sep, s[i + |sep|..], sub);
  }

  /** `implode($sep, $parts)`. */
  function Implode(sep: string, parts: seq<string>): string
  {
    if |parts| == 0 then ""
    else if |parts| == 1 then parts[0]
    else parts[0] + sep + Implode(sep, parts[1..])
  }

  /** Joining the pieces of `explode` with the same separator gives the string back. */
  lemma {:induction false} ImplodeExplode(sep: string, s: string)
    requires |sep| > 0
    ensures Implode(sep, Explode(sep, s)) == s
    decreases |s|
  {
    var r := IndexOf(s, sep);
    if r.Some? {
      var i := r.value;
      var head, rest := s[..i], s[i + |sep|..];
      ImplodeExplode(sep, rest);
      ExplodeAt(sep, s, i);
      ImplodeCons(sep, head, Explode(sep, rest));
      SplitAround(s, sep, i);
    }
  }

  /** An occurrence of `sub` at `i` splits `s` into what precedes it, `sub` and what follows. */
  lemma SplitAround(s: string, sub: string, i: nat)
    requires OccursAt(s, sub, i)
    ensures s == s[..i] + sub + s[i + |sub|..]
  {
    assert s == s[..i] + s[i..i + |sub|] + s[i + |sub|..];
  }

  /** One unfolding of `explode` at the first separator. */
  lemma ExplodeAt(sep: string, s: string, i: nat)
    requires |sep| > 0 && IndexOf(s, sep) == Some(i)
    ensures Explode(sep, s) == [s[..i]] + Explode(sep, s[i + |sep|..])
  {
  }

  lemma ImplodeCons(sep: string, head: string, tail: seq<string>)
    requires |tail| >= 1
    ensures Implode(sep, [head] + tail) == head + sep + Implode(sep, tail)
  {
    assert ([head] + tail)[1..] == tail;
  }

  /**
   * With a one-character separator, `explode` splits `a + sep + b` into `a`
   * and `b` when neither contains the separator.
   */
  lemma ExplodeTwo(sep: string, a: string, b: string)
    requires |sep| == 1 && !Contains(a, sep) && !Contains(b, sep)
    ensures Explode(sep, a + sep + b) == [a, b]
  {
    var w := a + sep + b;
    FirstPieceOfJoin(sep, a, b);
    assert IndexOf(w, sep) == Some(|a|);
    assert w[|a| + |sep|..] == b;
    ExplodeAt(sep, w, |a|);
    ExplodeHead(sep, b);
  }

  /**
   * With a one-character separator, the first piece of `explode` applied to
   * `a + sep + b` is `a` whenever `a` does not contain the separator.
   */
  lemma FirstPieceOfJoin(sep: string, a: string, b: string)
    requires |sep| == 1 && !Contains(a, sep)
    ensures Explode(sep, a + sep + b)[0] == a
  {
    var w := a + sep + b;
    assert OccursAt(w, sep, |a|) by { assert w[|a|..|a| + 1] == sep; }
    forall j | 0 <= j < |a| ensures !OccursAt(w, sep, j) {
      NotOccursAt(a, sep, j);
      assert w[j..j + 1] == a[j..j + 1];
    }
    IndexOfSpec(w, sep);
    var r := IndexOf(w, sep);
    assert r.Some?;
    assert r.value == |a|;
    assert w[..|a|] == a;
  }
}
