/**
 * A JavaScript object used as a dictionary, kept as its sequence of
 * `[key, value]` entries in insertion order (what `Object.entries` returns).
 * `Put` is `{ ...m, [k]: v }`: an existing key keeps its position and takes
 * the new value, a new key is appended.  `Spread` is `{ ...base, ...patch }`.
 */
module OrderedMaps {
  import opened JsValues

  type Entries<V> = seq<(string, V)>

  function Keys<V>(m: Entries<V>): seq<string> {
    seq(|m|, i requires 0 <= i < |m| => m[i].0)
  }

  /** No key occurs twice: true of every JavaScript object. */
  predicate DistinctKeys<V>(m: Entries<V>) {
    forall i, j :: 0 <= i < j < |m| ==> m[i].0 != m[j].0
  }

  /** `m[k]`, with `None` for a key the object does not have. */
  function Lookup<V>(m: Entries<V>, k: string): Option<V> {
    if m == [] then None
    else if m[0].0 == k then Some(m[0].1)
    else Lookup(m[1..], k)
  }

  function Put<V>(m: Entries<V>, k: string, v: V): Entries<V> {
    if m == [] then [(k, v)]
    else if m[0].0 == k then [(k, v)] + m[1..]
    else [m[0]] + Put(m[1..], k, v)
  }

  function Spread<V>(base: Entries<V>, patch: Entries<V>): Entries<V>
    decreases |patch|
  {
    if patch == [] then base
    else Spread(Put(base, patch[0].0, patch[0].1), patch[1..])
  }

  /** A key is found exactly when it is one of the keys, and then with the value of its first entry. */
  lemma {:induction false} LookupFound<V>(m: Entries<V>, k: string)
    ensures Lookup(m, k).Some? <==> k in Keys(m)
    ensures forall i :: 0 <= i < |m| && m[i].0 == k && k !in Keys(m[..i]) ==> Lookup(m, k) == Some(m[i].1)
  {
    if m != [] {
      LookupFound(m[1..], k);
      assert Keys(m) == [m[0].0] + Keys(m[1..]);
      forall i | 0 <= i < |m| && m[i].0 == k && k !in Keys(m[..i])
        ensures Lookup(m, k) == Some(m[i].1)
      {
        if i > 0 {
          assert m[0].0 == Keys(m[..i])[0];
          assert Keys(m[..i]) == [m[0].0] + Keys(m[1..][..i - 1]);
        }
      }
    }
  }

  /** With distinct keys, the value stored under the key at position `i` is the value at position `i`. */
  lemma LookupDistinct<V>(m: Entries<V>, i: int)
    requires DistinctKeys(m)
    requires 0 <= i < |m|
    ensures Lookup(m, m[i].0) == Some(m[i].1)
  {
    LookupFound(m, m[i].0);
  }

  /** `Put` sets one key and leaves every other key as it was. */
  lemma {:induction false} PutLookup<V>(m: Entries<V>, k: string, v: V, k': string)
    ensures Lookup(Put(m, k, v), k') == if k' == k then Some(v) else Lookup(m, k')
  {
    if m != [] && m[0].0 != k {
      PutLookup(m[1..], k, v, k');
    }
  }

  lemma KeysCons<V>(e: (string, V), m: Entries<V>)
    ensures Keys([e] + m) == [e.0] + Keys(m)
  {
  }

  /** `Put` keeps the key order: an existing key stays in place, a new key goes last. */
  lemma {:induction false} PutKeys<V>(m: Entries<V>, k: string, v: V)
    ensures Keys(Put(m, k, v)) == if k in Keys(m) then Keys(m) else Keys(m) + [k]
  {
    if m != [] {
      KeysCons(m[0], m[1..]);
      assert [m[0]] + m[1..] == m;
      if m[0].0 == k {
        KeysCons((k, v), m[1..]);
      } else {
        PutKeys(m[1..], k, v);
        KeysCons(m[0], Put(m[1..], k, v));
      }
    }
  }

  /** `Put` on a new key appends one entry. */
  lemma {:induction false} PutNew<V>(m: Entries<V>, k: string, v: V)
    requires k !in Keys(m)
    ensures Put(m, k, v) == m + [(k, v)]
  {
    if m != [] {
      assert Keys(m) == [m[0].0] + Keys(m[1..]);
      PutNew(m[1..], k, v);
      assert [m[0]] + (m[1..] + [(k, v)]) == m + [(k, v)];
    }
  }

  /** `Put` on the key held at position `i` replaces that one entry's value. */
  lemma {:induction false} PutExisting<V>(m: Entries<V>, k: string, v: V, i: int)
    requires DistinctKeys(m)
    requires 0 <= i < |m| && m[i].0 == k
    ensures Put(m, k, v) == m[i := (k, v)]
  {
    if i > 0 {
      assert m[0].0 != k;
      PutExisting(m[1..], k, v, i - 1);
      assert [m[0]] + m[1..][i - 1 := (k, v)] == m[i := (k, v)];
    }
  }

  lemma PutDistinct<V>(m: Entries<V>, k: string, v: V)
    requires DistinctKeys(m)
    ensures DistinctKeys(Put(m, k, v))
  {
    var r := Put(m, k, v);
    PutKeys(m, k, v);
    assert forall i :: 0 <= i < |r| ==> r[i].0 == Keys(r)[i];
  }

  /**
   * After `{ ...base, ...patch }` a key of `patch` has the patch's value and
   * any other key has the base's value.
   */
  lemma {:induction false} SpreadLookup<V>(base: Entries<V>, patch: Entries<V>, k: string)
    requires DistinctKeys(patch)
    ensures Lookup(Spread(base, patch), k) == if k in Keys(patch) then Lookup(patch, k) else Lookup(base, k)
    decreases |patch|
  {
    if patch != [] {
      assert Keys(patch) == [patch[0].0] + Keys(patch[1..]);
      assert DistinctKeys(patch[1..]);
      SpreadLookup(Put(base, patch[0].0, patch[0].1), patch[1..], k);
      PutLookup(base, patch[0].0, patch[0].1, k);
    }
  }

  lemma {:induction false} SpreadDistinct<V>(base: Entries<V>, patch: Entries<V>)
    requires DistinctKeys(base)
    ensures DistinctKeys(Spread(base, patch))
    decreases |patch|
  {
    if patch != [] {
      PutDistinct(base, patch[0].0, patch[0].1);
      SpreadDistinct(Put(base, patch[0].0, patch[0].1), patch[1..]);
    }
  }
}
