/**
 * The `functools.lru_cache(maxsize=...)` decorator that wraps the calculators,
 * modelled as a value: a bounded list of (argument, result) entries ordered
 * from least to most recently used. A call that hits returns the stored result
 * and marks the entry most recent; a call that misses computes the result,
 * appends it and, when the cache is full, evicts the least recently used entry.
 * The point of the model is transparency: a memoised call returns exactly what
 * the undecorated function returns.
 */
module Memo {

  datatype Cache<K, V> = Cache(maxsize: nat, entries: seq<(K, V)>)

  /** At most `maxsize` entries, no argument stored twice. */
  predicate Valid<K(==), V>(c: Cache<K, V>) {
    |c.entries| <= c.maxsize && Distinct(c.entries)
  }

  predicate Distinct<K(==), V>(es: seq<(K, V)>) {
    forall i, j :: 0 <= i < j < |es| ==> es[i].0 != es[j].0
  }

  /** Every stored result is what `f` returns for its argument. */
  ghost predicate Agrees<K, V>(c: Cache<K, V>, f: K -> V) {
    Matches(c.entries, f)
  }

  ghost predicate Matches<K, V>(es: seq<(K, V)>, f: K -> V) {
    forall i :: 0 <= i < |es| ==> es[i].1 == f(es[i].0)
  }

  function Empty<K, V>(maxsize: nat): (c: Cache<K, V>)
    ensures c.maxsize == maxsize && c.entries == []
  {
    Cache(maxsize, [])
  }

  /** Position of the entry for `k`, or -1 when `k` is not stored. */
  function Find<K(==), V>(es: seq<(K, V)>, k: K): (i: int)
    ensures -1 <= i < |es|
    ensures 0 <= i ==> es[i].0 == k
    ensures i == -1 <==> forall j :: 0 <= j < |es| ==> es[j].0 != k
  {
    if |es| == 0 then -1
    else if es[|es| - 1].0 == k then |es| - 1
    else Find(es[..|es| - 1], k)
  }

  /** Distinct arguments, every stored result agreeing with `f`. */
  ghost predicate Sound<K, V>(es: seq<(K, V)>, f: K -> V) {
    Distinct(es) && Matches(es, f)
  }

  /** Where the entry at position `j` after a hit on position `i` came from. */
  function Moved(i: nat, n: nat, j: nat): (src: nat)
    requires i < n && j < n
    ensures src < n
  {
    if j < i then j else if j < n - 1 then j + 1 else i
  }

  /** A hit: the entry at `i` becomes the most recently used one. */
  function MoveToEnd<K(==), V>(es: seq<(K, V)>, i: nat, ghost f: K -> V): (r: seq<(K, V)>)
    requires i < |es| && Sound(es, f)
    ensures |r| == |es| && r[|r| - 1] == es[i]
    ensures forall j :: 0 <= j < |es| ==> es[j] in r
    ensures forall e :: e in r ==> e in es
    ensures Sound(r, f)
  {
    var r := es[..i] + es[i + 1..] + [es[i]];
    MoveToEndFacts(es, i, f, r);
    r
  }

  lemma MoveToEndFacts<K, V>(es: seq<(K, V)>, i: nat, f: K -> V, r: seq<(K, V)>)
    requires i < |es| && Sound(es, f) && r == es[..i] + es[i + 1..] + [es[i]]
    ensures |r| == |es| && r[|r| - 1] == es[i]
    ensures forall j :: 0 <= j < |es| ==> es[j] in r
    ensures forall e :: e in r ==> e in es
    ensures Sound(r, f)
  {
    var n := |es|;
    forall j | 0 <= j < n ensures r[j] == es[Moved(i, n, j)] {
      if j < i {
        assert r[j] == es[..i][j];
      } else if j < n - 1 {
        assert r[j] == es[i + 1..][j - i];
      }
    }
    forall a, b | 0 <= a < b < n ensures r[a].0 != r[b].0 {
      assert r[a] == es[Moved(i, n, a)] && r[b] == es[Moved(i, n, b)];
    }
    forall j | 0 <= j < n ensures es[j] in r {
      if j < i {
        assert r[Moved(i, n, j)] == es[j];
      } else if j > i {
        assert r[j - 1] == es[Moved(i, n, j - 1)];
      } else {
        assert r[n - 1] == es[i];
      }
    }
    forall e | e in r ensures e in es {
      var j :| 0 <= j < n && r[j] == e;
      assert es[Moved(i, n, j)] == e;
    }
  }

  /** A miss: drop the least recently used entry when full, then append `e`. */
  function Insert<K(==), V>(es: seq<(K, V)>, maxsize: nat, e: (K, V), ghost f: K -> V): (r: seq<(K, V)>)
    requires 0 < maxsize && |es| <= maxsize && Sound(es, f)
    requires (forall j :: 0 <= j < |es| ==> es[j].0 != e.0) && e.1 == f(e.0)
    ensures |r| <= maxsize && |r| > 0 && r[|r| - 1] == e
    ensures forall j :: 0 <= j < |es| && (j > 0 || |es| < maxsize) ==> es[j] in r
    ensures forall x :: x in r ==> x in es || x == e
    ensures Sound(r, f)
  {
    var kept := if |es| == maxsize then es[1..] else es;
    assert forall j :: 0 <= j < |kept| ==> kept[j] in es;
    kept + [e]
  }

  /** One call of the decorated function with argument `k`: its result and the updated cache. */
  function Call<K(==), V>(c: Cache<K, V>, f: K -> V, k: K): (r: (V, Cache<K, V>))
    requires Valid(c) && Agrees(c, f)
    ensures r.0 == f(k)
    ensures Valid(r.1) && Agrees(r.1, f) && r.1.maxsize == c.maxsize
    ensures c.maxsize > 0 ==> |r.1.entries| > 0 && r.1.entries[|r.1.entries| - 1] == (k, f(k))
    ensures forall j :: 0 <= j < |c.entries| && (j > 0 || |c.entries| < c.maxsize || c.entries[j].0 == k)
              ==> c.entries[j] in r.1.entries
  {
    var es := c.entries;
    assert Sound(es, f);
    var i := Find(es, k);
    if i >= 0 then
      (es[i].1, Cache(c.maxsize, MoveToEnd(es, i, f)))
    else if c.maxsize == 0 then
      (f(k), c)
    else
      (f(k), Cache(c.maxsize, Insert(es, c.maxsize, (k, f(k)), f)))
  }

  /** A run of calls with the arguments `ks`, in order, starting from cache `c`. */
  function Run<K(==), V>(c: Cache<K, V>, f: K -> V, ks: seq<K>): (r: (seq<V>, Cache<K, V>))
    requires Valid(c) && Agrees(c, f)
    ensures |r.0| == |ks|
    ensures forall i :: 0 <= i < |ks| ==> r.0[i] == f(ks[i])
    ensures Valid(r.1) && Agrees(r.1, f) && r.1.maxsize == c.maxsize
    decreases |ks|
  {
    if |ks| == 0 then ([], c)
    else
      var first := Call(c, f, ks[0]);
      var rest := Run(first.1, f, ks[1..]);
      var answers := [first.0] + rest.0;
      assert forall i :: 0 < i < |ks| ==> answers[i] == rest.0[i - 1] && ks[i] == ks[1..][i - 1];
      (answers, rest.1)
  }

  /** Repeated calls with the same argument agree, whatever happened in between. */
  lemma RepeatedCallsAgree<K, V>(f: K -> V, maxsize: nat, ks: seq<K>, i: nat, j: nat)
    requires i < |ks| && j < |ks| && ks[i] == ks[j]
    ensures Run(Empty(maxsize), f, ks).0[i] == Run(Empty(maxsize), f, ks).0[j]
  {
  }
}
