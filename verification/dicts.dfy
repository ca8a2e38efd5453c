/**
 * Python dictionaries with string keys. A dict remembers insertion order:
 * assigning to an existing key replaces its value in place, assigning to a
 * new key appends it. Iteration (`items()`) follows that order.
 */
module Dicts {
  import opened Wrappers
  import opened Seqs

  /** A dict as the sequence of its (key, value) items in iteration order. */
  type Dict<V> = seq<(string, V)>

  /** The keys of a dict, in iteration order. */
  function Keys<V>(d: Dict<V>): (ks: seq<string>)
    ensures |ks| == |d|
    ensures forall i :: 0 <= i < |d| ==> ks[i] == d[i].0
  {
    seq(|d|, i requires 0 <= i < |d| => d[i].0)
  }

  /** No key occurs twice: what every real Python dict satisfies. */
  predicate DistinctKeys<V>(d: Dict<V>) {
    forall i, j :: 0 <= i < j < |d| ==> d[i].0 != d[j].0
  }

  /** `d.get(k)`: the value stored under `k`, if any. */
  function Get<V>(d: Dict<V>, k: string): (r: Option<V>)
    ensures r.Some? <==> k in Keys(d)
  {
    match IndexOf(Keys(d), k)
    case None => None
    case Some(i) => Some(d[i].1)
  }

  /** In a dict whose keys are distinct, each item is found by its own key. */
  lemma GetItem<V>(d: Dict<V>, i: nat)
    requires DistinctKeys(d) && i < |d|
    ensures Get(d, d[i].0) == Some(d[i].1)
  {
    var ks := Keys(d);
    forall j | 0 <= j < i
      ensures ks[..i][j] != d[i].0
    {
      assert ks[..i][j] == d[j].0;
    }
    IndexOfUnique(ks, d[i].0, i);
  }

  /**
   * `d[k] = v`. The new value is stored under `k`, every other key keeps its
   * value, an existing key keeps its position and a new key goes last.
   */
  function Put<V>(d: Dict<V>, k: string, v: V): (r: Dict<V>)
    ensures Get(r, k) == Some(v)
    ensures forall k' :: k' != k ==> Get(r, k') == Get(d, k')
    ensures k in Keys(d) ==> Keys(r) == Keys(d)
    ensures k !in Keys(d) ==> Keys(r) == Keys(d) + [k]
    ensures DistinctKeys(d) ==> DistinctKeys(r)
    ensures forall p :: p in r ==> p in d || p == (k, v)
  {
    match IndexOf(Keys(d), k)
    case Some(i) =>
      var r := d[i := (k, v)];
      assert Keys(r) == Keys(d);
      r
    case None =>
      var r := d + [(k, v)];
      assert Keys(r) == Keys(d) + [k];
      assert Keys(r)[..|d|] == Keys(d);
      IndexOfUnique(Keys(r), k, |d|);
      forall k' | k' != k
        ensures Get(r, k') == Get(d, k')
      {
        IndexOfAppend(Keys(d), k, k');
      }
      r
  }

  /**
   * The keys of `es` that are not in `ks`, each where it first occurs, in the
   * order of `es`: the keys `d.update(e)` appends to `d`.
   */
  function Fresh(ks: seq<string>, es: seq<string>): (r: seq<string>)
    ensures forall k :: k in r <==> k in es && k !in ks
    decreases |es|
  {
    if |es| == 0 then []
    else if es[0] in ks then Fresh(ks, es[1..])
    else [es[0]] + Fresh(ks + [es[0]], es[1..])
  }

  /**
   * `d.update(e)`: the items of `e` are assigned into `d` one after another,
   * so a later item overwrites an earlier one with the same key.
   */
  function PutAll<V>(d: Dict<V>, e: Dict<V>): (r: Dict<V>)
    ensures forall k :: k in Keys(r) <==> k in Keys(d) || k in Keys(e)
    ensures forall k :: k !in Keys(e) ==> Get(r, k) == Get(d, k)
    ensures DistinctKeys(e) ==> forall k :: k in Keys(e) ==> Get(r, k) == Get(e, k)
    ensures Keys(d) <= Keys(r)
    ensures DistinctKeys(d) ==> DistinctKeys(r)
    ensures forall p :: p in r ==> p in d || p in e
    decreases |e|
  {
    if |e| == 0 then d
    else
      var d' := Put(d, e[0].0, e[0].1);
      var r := PutAll(d', e[1..]);
      PutAllStepKeys(d, e, d', r);
      PutAllStepValues(d, e, d', r);
      PutAllStepRest(d, e, d', r);
      r
  }

  /** One step of PutAll, for the keys: the contract for `e` from the contract for its tail. */
  lemma PutAllStepKeys<V>(d: Dict<V>, e: Dict<V>, d': Dict<V>, r: Dict<V>)
    requires |e| > 0 && d' == Put(d, e[0].0, e[0].1)
    requires forall k :: k in Keys(r) <==> k in Keys(d') || k in Keys(e[1..])
    requires forall k :: k !in Keys(e[1..]) ==> Get(r, k) == Get(d', k)
    ensures forall k :: k in Keys(r) <==> k in Keys(d) || k in Keys(e)
    ensures forall k :: k !in Keys(e) ==> Get(r, k) == Get(d, k)
  {
    assert Keys(e) == [e[0].0] + Keys(e[1..]);
    forall k
      ensures k in Keys(d') <==> k in Keys(d) || k == e[0].0
    {
      if e[0].0 !in Keys(d) {
        assert Keys(d') == Keys(d) + [e[0].0];
      }
    }
  }

  /**
   * The key order after `d.update(e)`: `d`'s keys in their places, then the
   * keys of `e` that `d` lacks, in `e`'s order.
   */
  lemma {:induction false} PutAllOrder<V>(d: Dict<V>, e: Dict<V>)
    ensures Keys(PutAll(d, e)) == Keys(d) + Fresh(Keys(d), Keys(e))
    decreases |e|
  {
    if |e| > 0 {
      var d' := Put(d, e[0].0, e[0].1);
      PutAllOrder(d', e[1..]);
      PutAllStepOrder(d, e, Keys(d'), Keys(PutAll(d', e[1..])));
    }
  }

  /** Distinct keys none of which is already present are all appended, in their own order. */
  lemma {:induction false} FreshAllNew(ks: seq<string>, es: seq<string>)
    requires forall i, j :: 0 <= i < j < |es| ==> es[i] != es[j]
    requires forall i :: 0 <= i < |es| ==> es[i] !in ks
    ensures Fresh(ks, es) == es
    decreases |es|
  {
    if |es| > 0 {
      var ks', rest := ks + [es[0]], es[1..];
      forall i, j | 0 <= i < j < |rest|
        ensures rest[i] != rest[j]
      {
        assert rest[i] == es[i + 1] && rest[j] == es[j + 1];
      }
      forall i | 0 <= i < |rest|
        ensures rest[i] !in ks'
      {
        assert rest[i] == es[i + 1];
        assert es[0] != es[i + 1];
      }
      FreshAllNew(ks', rest);
      assert Fresh(ks, es) == [es[0]] + Fresh(ks', rest);
    }
  }

  /** One step of PutAll, for the key order: a new first key goes right after `d`'s keys. */
  lemma PutAllStepOrder<V>(d: Dict<V>, e: Dict<V>, ks': seq<string>, rs: seq<string>)
    requires |e| > 0
    requires e[0].0 in Keys(d) ==> ks' == Keys(d)
    requires e[0].0 !in Keys(d) ==> ks' == Keys(d) + [e[0].0]
    requires rs == ks' + Fresh(ks', Keys(e[1..]))
    ensures rs == Keys(d) + Fresh(Keys(d), Keys(e))
  {
    var es := Keys(e);
    assert es[0] == e[0].0;
    assert es[1..] == Keys(e[1..]);
    if e[0].0 !in Keys(d) {
      assert Fresh(Keys(d), es) == [e[0].0] + Fresh(ks', es[1..]);
    }
  }

  /** One step of PutAll, for the key prefix, distinctness and the origin of every item. */
  lemma PutAllStepRest<V>(d: Dict<V>, e: Dict<V>, d': Dict<V>, r: Dict<V>)
    requires |e| > 0
    requires Keys(d) <= Keys(d') && (DistinctKeys(d) ==> DistinctKeys(d'))
    requires forall p :: p in d' ==> p in d || p == e[0]
    requires Keys(d') <= Keys(r) && (DistinctKeys(d') ==> DistinctKeys(r))
    requires forall p :: p in r ==> p in d' || p in e[1..]
    ensures Keys(d) <= Keys(r) && (DistinctKeys(d) ==> DistinctKeys(r))
    ensures forall p :: p in r ==> p in d || p in e
  {
    forall p | p in r
      ensures p in d || p in e
    {
      if p in e[1..] {
        var i :| 0 <= i < |e[1..]| && e[1..][i] == p;
        assert e[i + 1] == p;
      }
    }
  }

  /** Looking up a key other than the first one's skips the first item. */
  lemma GetTail<V>(e: Dict<V>, k: string)
    requires |e| > 0 && k != e[0].0
    ensures Get(e, k) == Get(e[1..], k)
  {
    assert Keys(e)[1..] == Keys(e[1..]);
  }

  /** One step of PutAll, for the values of a genuine dict `e`. */
  lemma PutAllStepValues<V>(d: Dict<V>, e: Dict<V>, d': Dict<V>, r: Dict<V>)
    requires |e| > 0 && Get(d', e[0].0) == Some(e[0].1)
    requires forall k :: k !in Keys(e[1..]) ==> Get(r, k) == Get(d', k)
    requires DistinctKeys(e[1..]) ==> forall k :: k in Keys(e[1..]) ==> Get(r, k) == Get(e[1..], k)
    ensures DistinctKeys(e) ==> forall k :: k in Keys(e) ==> Get(r, k) == Get(e, k)
  {
    if DistinctKeys(e) {
      assert DistinctKeys(e[1..]);
      assert Keys(e) == [e[0].0] + Keys(e[1..]);
      assert e[0].0 !in Keys(e[1..]);
      assert Get(e, e[0].0) == Some(e[0].1);
      forall k | k in Keys(e) && k != e[0].0
        ensures Get(r, k) == Get(e, k)
      {
        GetTail(e, k);
      }
    }
  }
}
