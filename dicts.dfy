/**
 * A Python `dict`: its entries in insertion order. Assigning to an existing key
 * keeps the key's position; assigning to a new key appends it. Iterating over
 * `.items()` or `.values()` visits the entries in this order.
 */
module Dicts {
  import opened Wrappers

  type Dict<K, V> = seq<(K, V)>

  predicate Distinct<T(==)>(s: seq<T>) {
    forall i, j :: 0 <= i < j < |s| ==> s[i] != s[j]
  }

  function Keys<K, V>(d: Dict<K, V>): seq<K> {
    seq(|d|, i requires 0 <= i < |d| => d[i].0)
  }

  function Values<K, V>(d: Dict<K, V>): seq<V> {
    seq(|d|, i requires 0 <= i < |d| => d[i].1)
  }

  /** The first occurrence of each element of `s`, in order: the key order of a dict filled with the keys `s`. */
  function Dedup<T(==)>(s: seq<T>): seq<T> {
    if s == [] then []
    else
      var d := Dedup(s[..|s| - 1]);
      if s[|s| - 1] in d then d else d + [s[|s| - 1]]
  }

  /** `Dedup(s)` holds every element of `s` exactly once. */
  lemma {:induction false} DedupMembers<T>(s: seq<T>)
    ensures Distinct(Dedup(s))
    ensures forall x :: x in Dedup(s) <==> x in s
  {
    if s != [] {
      DedupMembers(s[..|s| - 1]);
      assert s == s[..|s| - 1] + [s[|s| - 1]];
    }
  }

  lemma DedupSnoc<T>(s: seq<T>, x: T)
    ensures Dedup(s + [x]) == if x in Dedup(s) then Dedup(s) else Dedup(s) + [x]
  {
    assert (s + [x])[..|s|] == s;
  }

  lemma TakeAll<T>(s: seq<T>)
    ensures s[..|s|] == s
  {
  }

  /** A dict whose keys are the first occurrences of some sequence holds no key twice. */
  lemma DedupKeysDistinct<K, V>(d: Dict<K, V>, ids: seq<K>)
    requires Keys(d) == Dedup(ids)
    ensures Distinct(Keys(d))
  {
    DedupMembers(ids);
  }

  /** `d.get(k)`: the value stored under the first entry with key `k`. */
  function Get<K(==), V>(d: Dict<K, V>, k: K): Option<V> {
    if d == [] then None
    else if d[0].0 == k then Some(d[0].1) else Get(d[1..], k)
  }

  /** `d.get(k)` finds something exactly when `k` is a key of `d`. */
  lemma {:induction false} GetSome<K, V>(d: Dict<K, V>, k: K)
    ensures Get(d, k).Some? <==> k in Keys(d)
  {
    if d != [] {
      assert Keys(d) == [d[0].0] + Keys(d[1..]);
      GetSome(d[1..], k);
    }
  }

  /** What `Get` finds is an entry of the dict. */
  lemma {:induction false} GetFound<K, V>(d: Dict<K, V>, k: K)
    requires k in Keys(d)
    ensures Get(d, k).Some? && (k, Get(d, k).value) in d
  {
    if d[0].0 != k {
      assert Keys(d) == [d[0].0] + Keys(d[1..]);
      GetFound(d[1..], k);
    }
  }

  /** With distinct keys, `Get` finds exactly the stored entry. */
  lemma {:induction false} GetEntry<K, V>(d: Dict<K, V>, i: nat)
    requires Distinct(Keys(d)) && i < |d|
    ensures Get(d, d[i].0) == Some(d[i].1)
  {
    if i > 0 {
      assert Keys(d)[0] == d[0].0 && Keys(d)[i] == d[i].0;
      assert Keys(d[1..]) == Keys(d)[1..];
      GetEntry(d[1..], i - 1);
    }
  }

  /** `d[k] = v`: overwrites the entry of `k` in place, or appends one. */
  function Set<K(==), V>(d: Dict<K, V>, k: K, v: V): Dict<K, V> {
    if d == [] then [(k, v)]
    else if d[0].0 == k then [(k, v)] + d[1..]
    else [d[0]] + Set(d[1..], k, v)
  }

  /** Assigning keeps the key order, adding a new key at the end. */
  lemma {:induction false} SetKeys<K, V>(d: Dict<K, V>, k: K, v: V)
    ensures Keys(Set(d, k, v)) == if k in Keys(d) then Keys(d) else Keys(d) + [k]
  {
    if d == [] {
      assert Keys([(k, v)]) == [k];
    } else {
      var rest := Keys(d[1..]);
      assert Keys(d) == [d[0].0] + rest;
      if d[0].0 == k {
        assert Keys(d)[0] == k;
        assert Keys(Set(d, k, v)) == [k] + rest;
      } else {
        SetKeys(d[1..], k, v);
        assert Keys(Set(d, k, v)) == [d[0].0] + Keys(Set(d[1..], k, v));
        if k in rest {
          assert k in Keys(d);
        } else {
          assert k !in Keys(d);
          assert Keys(d) + [k] == [d[0].0] + (rest + [k]);
        }
      }
    }
  }

  /** After `d[k] = v`, `d.get(k)` is `v`. */
  lemma {:induction false} SetSame<K, V>(d: Dict<K, V>, k: K, v: V)
    ensures Get(Set(d, k, v), k) == Some(v)
  {
    if d != [] && d[0].0 != k {
      SetSame(d[1..], k, v);
      assert Set(d, k, v)[1..] == Set(d[1..], k, v);
    }
  }

  /** Assigning never repeats a key. */
  lemma SetDistinct<K, V>(d: Dict<K, V>, k: K, v: V)
    requires Distinct(Keys(d))
    ensures Distinct(Keys(Set(d, k, v)))
  {
    SetKeys(d, k, v);
  }

  /** Assigning to one key leaves every other key's value as it was. */
  lemma {:induction false} SetOther<K, V>(d: Dict<K, V>, k: K, v: V, k': K)
    requires k' != k
    ensures Get(Set(d, k, v), k') == Get(d, k')
  {
    if d != [] && d[0].0 != k {
      SetOther(d[1..], k, v, k');
      assert Set(d, k, v)[1..] == Set(d[1..], k, v);
    }
  }
}
