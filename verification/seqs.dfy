/**
 * Generic sequence helpers: the order-preserving filter behind
 * `iter().filter(..).collect()`, and the notion of an iteration order over the
 * keys of a hash map (the model's stand-in for `HashMap`/`DashMap` iteration,
 * whose order Rust leaves unspecified).
 */
module Seqs {

  /** `xs.iter().filter(keep).cloned().collect()`. */
  function Filter<T(!new)>(keep: T -> bool, xs: seq<T>): (r: seq<T>)
    ensures |r| <= |xs|
    ensures forall x :: x in r <==> x in xs && keep(x)
    decreases |xs|
  {
    if |xs| == 0 then []
    else if keep(xs[0]) then [xs[0]] + Filter(keep, xs[1..])
    else Filter(keep, xs[1..])
  }

  /** Filtering distributes over concatenation, so it keeps the input order. */
  lemma {:induction false} FilterConcat<T(!new)>(keep: T -> bool, xs: seq<T>, ys: seq<T>)
    ensures Filter(keep, xs + ys) == Filter(keep, xs) + Filter(keep, ys)
    decreases |xs|
  {
    if |xs| == 0 {
      assert xs + ys == ys;
    } else {
      assert (xs + ys)[0] == xs[0];
      assert (xs + ys)[1..] == xs[1..] + ys;
      FilterConcat(keep, xs[1..], ys);
    }
  }

  /** Filtering twice with the same predicate is filtering once. */
  lemma {:induction false} FilterIdempotent<T(!new)>(keep: T -> bool, xs: seq<T>)
    ensures Filter(keep, Filter(keep, xs)) == Filter(keep, xs)
    decreases |xs|
  {
    if |xs| > 0 {
      FilterIdempotent(keep, xs[1..]);
      if keep(xs[0]) {
        var r := [xs[0]] + Filter(keep, xs[1..]);
        assert r[0] == xs[0] && r[1..] == Filter(keep, xs[1..]);
      }
    }
  }

  /** An element is kept exactly when the predicate holds of it. */
  lemma FilterSingleton<T(!new)>(keep: T -> bool, x: T)
    ensures Filter(keep, [x]) == if keep(x) then [x] else []
  {
    assert [x][1..] == [];
  }

  /** `order` visits every key of the map exactly once: a hash-map iteration order. */
  predicate Enumerates<K>(order: seq<K>, keys: set<K>) {
    && (forall i :: 0 <= i < |order| ==> order[i] in keys)
    && (forall k :: k in keys ==> k in order)
    && (forall i, j :: 0 <= i < j < |order| ==> order[i] != order[j])
  }

  /**
   * Inserting key/value pairs into a map in order, as a registration loop
   * does: of several pairs with one key, the last one stays
   * (`InsertAllLastWins`).
   */
  function InsertAll<K, V>(m: map<K, V>, kvs: seq<(K, V)>): (r: map<K, V>)
    ensures r.Keys == m.Keys + (set i | 0 <= i < |kvs| :: kvs[i].0)
    decreases |kvs|
  {
    if |kvs| == 0 then m
    else
      var r := InsertAll(m[kvs[0].0 := kvs[0].1], kvs[1..]);
      assert forall i :: 1 <= i < |kvs| ==> kvs[i] == kvs[1..][i - 1];
      r
  }

  /** A key no pair mentions keeps its value. */
  lemma {:induction false} InsertAllKeeps<K, V>(m: map<K, V>, kvs: seq<(K, V)>, k: K)
    requires k in m && forall i :: 0 <= i < |kvs| ==> kvs[i].0 != k
    ensures k in InsertAll(m, kvs) && InsertAll(m, kvs)[k] == m[k]
    decreases |kvs|
  {
    if |kvs| > 0 {
      assert forall i :: 0 <= i < |kvs| - 1 ==> kvs[1..][i] == kvs[i + 1];
      InsertAllKeeps(m[kvs[0].0 := kvs[0].1], kvs[1..], k);
    }
  }

  /** The pair at `i`, when no later pair has its key, gives that key's value. */
  lemma {:induction false} InsertAllLast<K, V>(m: map<K, V>, kvs: seq<(K, V)>, i: nat)
    requires i < |kvs| && forall j :: i < j < |kvs| ==> kvs[j].0 != kvs[i].0
    ensures kvs[i].0 in InsertAll(m, kvs) && InsertAll(m, kvs)[kvs[i].0] == kvs[i].1
    decreases |kvs|
  {
    var rest := kvs[1..];
    assert forall j :: 0 <= j < |rest| ==> rest[j] == kvs[j + 1];
    if i == 0 {
      InsertAllKeeps(m[kvs[0].0 := kvs[0].1], rest, kvs[0].0);
    } else {
      InsertAllLast(m[kvs[0].0 := kvs[0].1], rest, i - 1);
    }
  }

  /** Of several pairs with one key, the last one stays. */
  lemma InsertAllLastWins<K, V>(m: map<K, V>, kvs: seq<(K, V)>)
    ensures forall i :: 0 <= i < |kvs| && (forall j :: i < j < |kvs| ==> kvs[j].0 != kvs[i].0) ==>
      kvs[i].0 in InsertAll(m, kvs) && InsertAll(m, kvs)[kvs[i].0] == kvs[i].1
  {
    forall i | 0 <= i < |kvs| && (forall j :: i < j < |kvs| ==> kvs[j].0 != kvs[i].0)
      ensures kvs[i].0 in InsertAll(m, kvs) && InsertAll(m, kvs)[kvs[i].0] == kvs[i].1
    {
      InsertAllLast(m, kvs, i);
    }
  }

  /** `v.reverse()`. */
  function Reverse<T>(s: seq<T>): (r: seq<T>)
    ensures |r| == |s|
    ensures forall i :: 0 <= i < |s| ==> r[i] == s[|s| - 1 - i]
    decreases |s|
  {
    if |s| == 0 then [] else Reverse(s[1..]) + [s[0]]
  }
}
