/**
 * PHP's ordered arrays with string keys, as lists of key/value entries.
 * Writing `$a[$k] = $v` replaces the value of an existing key in place and
 * appends a new key at the end; reading `$a[$k]` finds the key's entry.
 */
module OrderedMap {
  import opened Common

  type Entries<V> = seq<(string, V)>

  function Keys<V>(m: Entries<V>): (ks: seq<string>)
    ensures |ks| == |m| && forall i :: 0 <= i < |m| ==> ks[i] == m[i].0
  {
    if m == [] then [] else [m[0].0] + Keys(m[1..])
  }

  /** `$m[$k] ?? null`. */
  function Get<V>(m: Entries<V>, k: string): (r: Option<V>)
    ensures r.None? <==> k !in Keys(m)
  {
    if m == [] then None
    else if m[0].0 == k then Some(m[0].1)
    else Get(m[1..], k)
  }

  /** `$m[$k] = $v`. */
  function Put<V>(m: Entries<V>, k: string, v: V): (r: Entries<V>)
    ensures k in Keys(m) ==> Keys(r) == Keys(m)
    ensures k !in Keys(m) ==> r == m + [(k, v)]
    ensures Get(r, k) == Some(v)
    ensures forall k' :: k' != k ==> Get(r, k') == Get(m, k')
  {
    if m == [] then [(k, v)]
    else if m[0].0 == k then [(k, v)] + m[1..]
    else [m[0]] + Put(m[1..], k, v)
  }

  /** The writes `$m[$k] = $v` for every entry of `es`, in order. */
  function PutAll<V>(m: Entries<V>, es: Entries<V>): Entries<V>
  {
    if es == [] then m
    else var last := es[|es| - 1]; Put(PutAll(m, es[..|es| - 1]), last.0, last.1)
  }

  /** The writes of the first `j + 1` entries are those of the first `j`, then entry `j`. */
  lemma PutAllStep<V>(m: Entries<V>, es: Entries<V>, j: nat)
    requires j < |es|
    ensures PutAll(m, es[..j + 1]) == Put(PutAll(m, es[..j]), es[j].0, es[j].1)
  {
    assert es[..j + 1][..j] == es[..j];
  }

  /** The same step, with entry `j` given as `(k, v)`. */
  lemma PutAllStepWith<V>(m: Entries<V>, es: Entries<V>, j: nat, k: string, v: V)
    requires j < |es| && es[j] == (k, v)
    ensures PutAll(m, es[..j + 1]) == Put(PutAll(m, es[..j]), k, v)
  {
    PutAllStep(m, es, j);
  }

  /** Writing `a` then `b` is writing `a + b`. */
  lemma {:induction false} PutAllAppend<V>(m: Entries<V>, a: Entries<V>, b: Entries<V>)
    ensures PutAll(m, a + b) == PutAll(PutAll(m, a), b)
    decreases |b|
  {
    if b == [] {
      assert a + b == a;
    } else {
      var init := b[..|b| - 1];
      assert (a + b)[..|a + b| - 1] == a + init;
      PutAllAppend(m, a, init);
    }
  }

  lemma KeysAppend<V>(a: Entries<V>, b: Entries<V>)
    ensures Keys(a + b) == Keys(a) + Keys(b)
  {
  }

  /** When no key is written twice and none is already present, the writes simply append. */
  lemma {:induction false} PutAllFresh<V>(m: Entries<V>, es: Entries<V>)
    requires NoDuplicates(Keys(m + es))
    ensures PutAll(m, es) == m + es
    decreases |es|
  {
    if es != [] {
      var init := es[..|es| - 1];
      var last := es[|es| - 1];
      assert es == init + [last];
      assert m + es == (m + init) + [last];
      KeysAppend(m + init, [last]);
      var ks := Keys(m + es);
      assert Keys(m + init) == ks[..|ks| - 1];
      assert ks[|ks| - 1] == last.0;
      assert NoDuplicates(Keys(m + init));
      PutAllFresh(m, init);
      forall i | 0 <= i < |ks| - 1 ensures ks[i] != last.0 { }
      assert last.0 !in Keys(m + init);
    }
  }

  /** The value the last entry with key `k` carries, or none when no entry has that key. */
  function LastValue<V(==)>(es: Entries<V>, k: string): (r: Option<V>)
    ensures r.None? <==> k !in Keys(es)
    ensures r.Some? ==> exists i :: 0 <= i < |es| && es[i] == (k, r.value) && LaterKeysDiffer(es, i, k)
    decreases |es|
  {
    if es == [] then None
    else
      var init := es[..|es| - 1];
      var last := es[|es| - 1];
      KeysSnoc(init, last);
      assert es == init + [last];
      if last.0 == k then
        assert LaterKeysDiffer(es, |es| - 1, k);
        Some(last.1)
      else
        var r := LastValue(init, k);
        if r.None? then r
        else
          var i :| 0 <= i < |init| && init[i] == (k, r.value) && LaterKeysDiffer(init, i, k);
          assert es[i] == init[i] && LaterKeysDiffer(es, i, k);
          r
  }

  lemma KeysSnoc<V>(init: Entries<V>, last: (string, V))
    ensures Keys(init + [last]) == Keys(init) + [last.0]
  {
    KeysAppend(init, [last]);
  }

  /** No entry after position `i` has key `k`. */
  predicate LaterKeysDiffer<V>(es: Entries<V>, i: int, k: string)
  {
    forall j :: 0 <= i < j < |es| ==> es[j].0 != k
  }

  /** After the writes of `es`, a key reads as the last value written to it, or as before when none was. */
  lemma {:induction false} PutAllGet<V>(m: Entries<V>, es: Entries<V>, k: string)
    ensures Get(PutAll(m, es), k) == (if LastValue(es, k).Some? then LastValue(es, k) else Get(m, k))
    ensures k in Keys(PutAll(m, es)) <==> k in Keys(m) || k in Keys(es)
    decreases |es|
  {
    if es != [] {
      PutAllGet(m, es[..|es| - 1], k);
    }
  }
}
