/**
 * Ranked lists of (item, score) pairs: Python's stable descending sort
 * (`sorted(xs, key=score, reverse=True)` and `xs.sort(key=score, reverse=True)`)
 * and the `[:top_k]` cut.
 */
module Ranking {

  /** Scores never increase along the list. */
  predicate NonIncreasing<T>(s: seq<(T, real)>) {
    forall i, j :: 0 <= i < j < |s| ==> s[i].1 >= s[j].1
  }

  /** No two entries share a key. */
  predicate DistinctBy<T, K(==)>(s: seq<(T, real)>, key: T -> K) {
    forall i, j :: 0 <= i < j < |s| ==> key(s[i].0) != key(s[j].0)
  }

  /** The entries of `s` whose score is `v`, in their order in `s`. */
  function WithScore<T>(s: seq<(T, real)>, v: real): seq<(T, real)> {
    if s == [] then []
    else (if s[0].1 == v then [s[0]] else []) + WithScore(s[1..], v)
  }

  /**
   * Places `x` in front of the first entry of `t` that does not score higher,
   * so that `x` stays ahead of the entries it ties with.
   */
  function Insert<T(==)>(x: (T, real), t: seq<(T, real)>): (r: seq<(T, real)>)
    ensures |r| == |t| + 1
    ensures multiset(r) == multiset(t) + multiset{x}
  {
    if t == [] || t[0].1 <= x.1 then [x] + t
    else
      assert t == [t[0]] + t[1..];
      [t[0]] + Insert(x, t[1..])
  }

  /**
   * Where an entry of an insertion comes from: it is the inserted entry
   * (`k == -1`) or the old entry at position `k`.
   */
  lemma {:induction false} InsertSource<T>(x: (T, real), t: seq<(T, real)>, j: nat) returns (k: int)
    requires j < |Insert(x, t)|
    ensures k == -1 ==> Insert(x, t)[j] == x
    ensures k != -1 ==> 0 <= k < |t| && Insert(x, t)[j] == t[k]
  {
    if t == [] || t[0].1 <= x.1 {
      k := j - 1;
    } else if j == 0 {
      k := 0;
    } else {
      k := InsertSource(x, t[1..], j - 1);
      if k != -1 {
        k := k + 1;
      }
    }
  }

  lemma {:induction false} InsertNonIncreasing<T>(x: (T, real), t: seq<(T, real)>)
    requires NonIncreasing(t)
    ensures NonIncreasing(Insert(x, t))
  {
    if !(t == [] || t[0].1 <= x.1) {
      var rest := Insert(x, t[1..]);
      InsertNonIncreasing(x, t[1..]);
      forall j | 0 <= j < |rest| ensures rest[j].1 <= t[0].1 {
        var k := InsertSource(x, t[1..], j);
        if k != -1 {
          assert t[k + 1] == rest[j];
        }
      }
      var r := [t[0]] + rest;
      forall i, j | 0 <= i < j < |r| ensures r[i].1 >= r[j].1 {
        if i == 0 { assert r[j] == rest[j - 1]; } else { assert r[i] == rest[i - 1] && r[j] == rest[j - 1]; }
      }
    }
  }

  /** Stable sort by score, highest first. */
  function SortDesc<T(==)>(s: seq<(T, real)>): (r: seq<(T, real)>)
    ensures |r| == |s|
    ensures multiset(r) == multiset(s)
    ensures NonIncreasing(r)
  {
    if s == [] then []
    else
      assert s == [s[0]] + s[1..];
      InsertNonIncreasing(s[0], SortDesc(s[1..]));
      Insert(s[0], SortDesc(s[1..]))
  }

  lemma {:induction false} InsertWithScore<T>(x: (T, real), t: seq<(T, real)>, v: real)
    ensures WithScore(Insert(x, t), v) == (if x.1 == v then [x] else []) + WithScore(t, v)
  {
    if t == [] || t[0].1 <= x.1 {
      assert ([x] + t)[1..] == t;
    } else {
      var rest := Insert(x, t[1..]);
      InsertWithScore(x, t[1..], v);
      var hx := if x.1 == v then [x] else [];
      var h0 := if t[0].1 == v then [t[0]] else [];
      assert hx == [] || h0 == [];
      assert ([t[0]] + rest)[1..] == rest;
      assert WithScore(Insert(x, t), v) == h0 + (hx + WithScore(t[1..], v));
      assert WithScore(t, v) == h0 + WithScore(t[1..], v);
    }
  }

  /** Stability: sorting keeps the relative order of entries with equal scores. */
  lemma {:induction false} SortDescStable<T>(s: seq<(T, real)>, v: real)
    ensures WithScore(SortDesc(s), v) == WithScore(s, v)
  {
    if s != [] {
      SortDescStable(s[1..], v);
      InsertWithScore(s[0], SortDesc(s[1..]), v);
    }
  }

  lemma {:induction false} InsertDistinctBy<T, K>(x: (T, real), t: seq<(T, real)>, key: T -> K)
    requires DistinctBy(t, key)
    requires forall y :: y in t ==> key(y.0) != key(x.0)
    ensures DistinctBy(Insert(x, t), key)
  {
    if !(t == [] || t[0].1 <= x.1) {
      var rest := Insert(x, t[1..]);
      InsertDistinctBy(x, t[1..], key);
      forall j | 0 <= j < |rest| ensures key(rest[j].0) != key(t[0].0) {
        var k := InsertSource(x, t[1..], j);
        if k != -1 {
          assert t[k + 1] == rest[j];
        }
      }
      var r := [t[0]] + rest;
      forall i, j | 0 <= i < j < |r| ensures key(r[i].0) != key(r[j].0) {
        if i == 0 { assert r[j] == rest[j - 1]; } else { assert r[i] == rest[i - 1] && r[j] == rest[j - 1]; }
      }
    }
  }

  /** Sorting never creates a repeated key. */
  lemma {:induction false} SortDescDistinctBy<T, K>(s: seq<(T, real)>, key: T -> K)
    requires DistinctBy(s, key)
    ensures DistinctBy(SortDesc(s), key)
  {
    if s != [] {
      SortDescDistinctBy(s[1..], key);
      forall y | y in SortDesc(s[1..]) ensures key(y.0) != key(s[0].0) {
        assert y in multiset(SortDesc(s[1..]));
        var j :| 0 <= j < |s[1..]| && s[1..][j] == y;
        assert s[j + 1] == y;
      }
      InsertDistinctBy(s[0], SortDesc(s[1..]), key);
    }
  }

  /** An entry of the input that a cut of its ranking leaves out scores no higher than anything kept. */
  lemma OmittedScoresNoHigher<T>(s: seq<(T, real)>, ranked: seq<(T, real)>, n: nat, x: (T, real))
    requires NonIncreasing(ranked) && multiset(ranked) == multiset(s)
    requires n <= |ranked| && x in s && x !in ranked[..n]
    ensures forall i :: 0 <= i < n ==> x.1 <= ranked[i].1
  {
    assert x in multiset(ranked) by {
      assert x in multiset(s);
    }
    var t :| 0 <= t < |ranked| && ranked[t] == x;
    forall u | 0 <= u < n ensures ranked[u] != x {
      assert ranked[..n][u] == ranked[u];
    }
  }

  function Min(a: int, b: int): int {
    if a <= b then a else b
  }

  /** `s[:k]` for `k >= 0`. */
  function TopK<T>(s: seq<(T, real)>, k: nat): seq<(T, real)> {
    s[..Min(k, |s|)]
  }

  /**
   * The cut of a ranked list keeps min(k, |s|) entries, stays ranked, and
   * leaves out nothing that scores higher than the last entry it keeps.
   */
  lemma TopKOfRanked<T>(s: seq<(T, real)>, k: nat)
    requires NonIncreasing(s)
    ensures |TopK(s, k)| == Min(k, |s|)
    ensures NonIncreasing(TopK(s, k))
    ensures forall i, j :: 0 <= i < |TopK(s, k)| <= j < |s| ==> s[j].1 <= TopK(s, k)[i].1
  {
  }

  lemma {:induction false} WithScorePrefix<T>(s: seq<(T, real)>, n: nat, v: real)
    requires n <= |s|
    ensures WithScore(s[..n], v) <= WithScore(s, v)
  {
    if n > 0 {
      assert s[..n][1..] == s[1..][..n - 1];
      WithScorePrefix(s[1..], n - 1, v);
    }
  }

  /**
   * Ranking a list and cutting it to `k` entries: among the entries kept with
   * any one score, those are the first entries of that score in the input order.
   */
  lemma RankedTopKStable<T>(s: seq<(T, real)>, k: nat, v: real)
    ensures WithScore(TopK(SortDesc(s), k), v) <= WithScore(s, v)
  {
    WithScorePrefix(SortDesc(s), Min(k, |s|), v);
    SortDescStable(s, v);
  }
}
