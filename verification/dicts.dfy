/** Python dictionaries keep insertion order, and that order becomes the column
    order of the output tables. A dictionary is therefore modelled as an
    association list: assignment replaces the value of a present key in place
    and appends a new key at the end. */
module Dicts {
  import opened Wrappers

  type Dict<K, V> = seq<(K, V)>

  function Keys<K, V>(d: Dict<K, V>): (ks: seq<K>)
    ensures |ks| == |d|
    ensures forall i :: 0 <= i < |d| ==> ks[i] == d[i].0
  {
    seq(|d|, i requires 0 <= i < |d| => d[i].0)
  }

  lemma KeysCons<K, V>(d: Dict<K, V>)
    requires d != []
    ensures Keys(d) == [d[0].0] + Keys(d[1..])
  {
  }

  lemma KeysAppend<K, V>(a: Dict<K, V>, b: Dict<K, V>)
    ensures Keys(a + b) == Keys(a) + Keys(b)
  {
  }

  predicate Distinct<T(==)>(s: seq<T>) {
    forall i, j :: 0 <= i < j < |s| ==> s[i] != s[j]
  }

  /** The association list has no repeated key, as every Python dict. */
  predicate IsDict<K(==), V>(d: Dict<K, V>) { Distinct(Keys(d)) }

  /** `d.get(k)`. */
  function Get<K(==), V>(d: Dict<K, V>, k: K): (r: Option<V>)
    ensures r.Some? <==> k in Keys(d)
    ensures r.Some? ==> (k, r.value) in d
  {
    if d == [] then None
    else
      KeysCons(d);
      if d[0].0 == k then Some(d[0].1) else Get(d[1..], k)
  }

  /** In a dictionary every pair is found by its key. */
  lemma {:induction false} GetAt<K, V>(d: Dict<K, V>, i: nat)
    requires IsDict(d) && i < |d|
    ensures Get(d, d[i].0) == Some(d[i].1)
  {
    if i > 0 {
      KeysCons(d);
      assert Keys(d)[0] != Keys(d)[i];
      assert IsDict(d[1..]) by {
        forall a, b | 0 <= a < b < |d[1..]| ensures Keys(d[1..])[a] != Keys(d[1..])[b] {
          assert Keys(d)[a + 1] != Keys(d)[b + 1];
        }
      }
      GetAt(d[1..], i - 1);
    }
  }

  /** `d[k] = v`: a present key keeps its place, a new key goes last. */
  function Put<K(==), V>(d: Dict<K, V>, k: K, v: V): (r: Dict<K, V>)
    ensures Keys(r) == if k in Keys(d) then Keys(d) else Keys(d) + [k]
  {
    if d == [] then [(k, v)]
    else
      KeysCons(d);
      if d[0].0 == k then
        KeysCons([(k, v)] + d[1..]);
        [(k, v)] + d[1..]
      else
        var rest := Put(d[1..], k, v);
        KeysCons([d[0]] + rest);
        [d[0]] + rest
  }

  /** After `d[k] = v`, `k` maps to `v` and every other key as before. */
  lemma {:induction false} PutGet<K, V>(d: Dict<K, V>, k: K, v: V, k': K)
    ensures Get(Put(d, k, v), k') == if k' == k then Some(v) else Get(d, k')
  {
    if d != [] && d[0].0 != k {
      PutGet(d[1..], k, v, k');
    }
  }

  lemma PutKeepsDict<K, V>(d: Dict<K, V>, k: K, v: V)
    ensures IsDict(d) ==> IsDict(Put(d, k, v))
  {
  }

  /** The position of `k`. */
  function IndexOf<K(==), V>(d: Dict<K, V>, k: K): (i: nat)
    requires k in Keys(d)
    ensures i < |d| && d[i].0 == k
  {
    if d[0].0 == k then 0
    else
      KeysCons(d);
      IndexOf(d[1..], k) + 1
  }

  /** `del d[k]` for a present key (Python raises KeyError otherwise). */
  function Remove<K(==), V>(d: Dict<K, V>, k: K): (r: Dict<K, V>)
    requires k in Keys(d)
    ensures |r| == |d| - 1
  {
    var i := IndexOf(d, k);
    d[..i] + d[i + 1..]
  }

  /** In a dictionary, `del d[k]` drops exactly the key `k` and keeps the
      order and values of the others. */
  lemma RemoveSpec<K, V>(d: Dict<K, V>, k: K)
    requires IsDict(d) && k in Keys(d)
    ensures IsDict(Remove(d, k))
    ensures k !in Keys(Remove(d, k))
    ensures forall k' :: k' != k ==> (k' in Keys(Remove(d, k)) <==> k' in Keys(d))
    ensures forall k' :: k' != k ==> Get(Remove(d, k), k') == Get(d, k')
  {
    var i := IndexOf(d, k);
    var r := Remove(d, k);
    assert Keys(r) == Keys(d)[..i] + Keys(d)[i + 1..];
    forall k' | k' != k
      ensures Get(r, k') == Get(d, k')
    {
      GetSplit(d, i, k');
    }
  }

  /** Looking a key up skips an entry with another key. */
  lemma {:induction false} GetSplit<K, V>(d: Dict<K, V>, i: nat, k': K)
    requires i < |d| && d[i].0 != k'
    ensures Get(d[..i] + d[i + 1..], k') == Get(d, k')
  {
    var x := d[..i] + d[i + 1..];
    if i > 0 {
      var y := d[1..][..i - 1] + d[1..][i..];
      GetSplit(d[1..], i - 1, k');
      assert x == [d[0]] + y;
      assert x[0] == d[0] && x[1..] == y;
    } else {
      assert x == d[1..];
    }
  }

  /** `d.update(e)`: the pairs of `e` assigned one after another. */
  function Update<K(==), V>(d: Dict<K, V>, e: Dict<K, V>): (r: Dict<K, V>)
    ensures IsDict(d) ==> IsDict(r)
    decreases |e|
  {
    if e == [] then d
    else
      PutKeepsDict(d, e[0].0, e[0].1);
      Update(Put(d, e[0].0, e[0].1), e[1..])
  }

  /** Every pair of `d[k] = v` was in `d` or is the assigned pair. */
  lemma {:induction false} PutFrom<K, V>(d: Dict<K, V>, k: K, v: V)
    ensures forall p :: p in Put(d, k, v) ==> p in d || p == (k, v)
  {
    if d != [] && d[0].0 != k {
      PutFrom(d[1..], k, v);
    }
  }

  /** Every pair of `d.update(e)` comes from `d` or from `e`. */
  lemma {:induction false} UpdateFrom<K, V>(d: Dict<K, V>, e: Dict<K, V>)
    ensures forall p :: p in Update(d, e) ==> p in d || p in e
    decreases |e|
  {
    if e != [] {
      PutFrom(d, e[0].0, e[0].1);
      UpdateFrom(Put(d, e[0].0, e[0].1), e[1..]);
    }
  }

  /** Assigning one more pair after an update is updating with the longer
      list. */
  lemma {:induction false} UpdateSnoc<K, V>(d: Dict<K, V>, e: Dict<K, V>, k: K, v: V)
    ensures Update(d, e + [(k, v)]) == Put(Update(d, e), k, v)
    decreases |e|
  {
    if e == [] {
      assert e + [(k, v)] == [(k, v)];
    } else {
      assert (e + [(k, v)])[1..] == e[1..] + [(k, v)];
      UpdateSnoc(Put(d, e[0].0, e[0].1), e[1..], k, v);
    }
  }

  /** Updating with `a + b` is updating with `a` and then with `b`. */
  lemma {:induction false} UpdateAppend<K, V>(d: Dict<K, V>, a: Dict<K, V>, b: Dict<K, V>)
    ensures Update(d, a + b) == Update(Update(d, a), b)
    decreases |a|
  {
    if a == [] {
      assert a + b == b;
    } else {
      assert (a + b)[0] == a[0] && (a + b)[1..] == a[1..] + b;
      UpdateAppend(Put(d, a[0].0, a[0].1), a[1..], b);
    }
  }

  /** Building a dictionary from one more item of `b` after the items `a`. */
  lemma FromItemsOneMore<K, V>(a: Dict<K, V>, b: Dict<K, V>, j: nat)
    requires j < |b|
    ensures Update([], a + b[..j + 1]) == Put(Update([], a + b[..j]), b[j].0, b[j].1)
  {
    assert a + b[..j + 1] == (a + b[..j]) + [(b[j].0, b[j].1)];
    UpdateSnoc([], a + b[..j], b[j].0, b[j].1);
  }

  /** `dict(items)`. */
  function FromItems<K(==), V>(items: Dict<K, V>): (r: Dict<K, V>)
    ensures IsDict(r)
  {
    Update([], items)
  }

  /** The dictionary as a mathematical map, for Python's order-insensitive `==`. */
  function ToMap<K(==), V>(d: Dict<K, V>): (m: map<K, V>)
    ensures m.Keys == set k | k in Keys(d)
  {
    map k | k in Keys(d) :: Get(d, k).value
  }

  /** `d.update(e)` leaves a key of `d` in its place, appends the new keys of
      `e` in `e`'s order, and every key ends with the last value `e` gives it. */
  lemma {:induction false} UpdateKeys<K, V>(d: Dict<K, V>, e: Dict<K, V>, k: K)
    ensures k in Keys(Update(d, e)) <==> k in Keys(d) || k in Keys(e)
    ensures Get(Update(d, e), k) == if k in Keys(e) then LastValue(e, k) else Get(d, k)
    decreases |e|
  {
    if e != [] {
      KeysCons(e);
      PutGet(d, e[0].0, e[0].1, k);
      UpdateKeys(Put(d, e[0].0, e[0].1), e[1..], k);
    }
  }

  /** The value the last pair with key `k` carries. */
  function LastValue<K(==), V>(e: Dict<K, V>, k: K): (r: Option<V>)
    ensures r.Some? <==> k in Keys(e)
    ensures r.Some? ==> (k, r.value) in e
    decreases |e|
  {
    if e == [] then None
    else
      KeysCons(e);
      var later := LastValue(e[1..], k);
      if later.Some? then later else if e[0].0 == k then Some(e[0].1) else None
  }

  lemma {:induction false} UpdatePrefix<K, V>(d: Dict<K, V>, e: Dict<K, V>)
    ensures Keys(d) <= Keys(Update(d, e))
    decreases |e|
  {
    if e != [] {
      UpdatePrefix(Put(d, e[0].0, e[0].1), e[1..]);
    }
  }

  /** A dictionary rebuilt from its own items is itself. */
  lemma {:induction false} UpdateWithDistinct<K, V>(d: Dict<K, V>, e: Dict<K, V>)
    requires IsDict(d + e)
    ensures Update(d, e) == d + e
    decreases |e|
  {
    if e != [] {
      KeysAppend(d, e);
      forall j | 0 <= j < |d|
        ensures Keys(d)[j] != e[0].0
      {
        assert Keys(d + e)[j] == Keys(d)[j];
        assert Keys(d + e)[|d|] == e[0].0;
      }
      PutAppends(d, e[0].0, e[0].1);
      assert d + e == (d + [e[0]]) + e[1..];
      KeysAppend(d + [e[0]], e[1..]);
      UpdateWithDistinct(d + [e[0]], e[1..]);
    }
  }

  lemma {:induction false} PutAppends<K, V>(d: Dict<K, V>, k: K, v: V)
    requires k !in Keys(d)
    ensures Put(d, k, v) == d + [(k, v)]
  {
    if d != [] {
      KeysCons(d);
      PutAppends(d[1..], k, v);
      assert d == [d[0]] + d[1..];
    }
  }

  lemma FromItemsOfDict<K, V>(d: Dict<K, V>)
    requires IsDict(d)
    ensures FromItems(d) == d
  {
    UpdateWithDistinct([], d);
  }

  /** In a dictionary the last value of a key is its only value. */
  lemma {:induction false} LastValueOfDict<K, V>(e: Dict<K, V>, k: K)
    requires IsDict(e)
    ensures LastValue(e, k) == Get(e, k)
    decreases |e|
  {
    if e != [] {
      KeysCons(e);
      assert IsDict(e[1..]) by {
        forall i, j | 0 <= i < j < |e[1..]|
          ensures Keys(e[1..])[i] != Keys(e[1..])[j]
        {
          assert Keys(e)[i + 1] != Keys(e)[j + 1];
        }
      }
      LastValueOfDict(e[1..], k);
      if e[0].0 == k {
        forall i | 0 <= i < |e[1..]|
          ensures Keys(e[1..])[i] != k
        {
          assert Keys(e)[0] != Keys(e)[i + 1];
        }
      }
    }
  }

  /** `d.update(e)` with a dictionary `e`: its keys take its values, every
      other key keeps the value it had in `d`. */
  lemma UpdateGet<K, V>(d: Dict<K, V>, e: Dict<K, V>, k: K)
    requires IsDict(e)
    ensures Get(Update(d, e), k) == if k in Keys(e) then Get(e, k) else Get(d, k)
  {
    UpdateKeys(d, e, k);
    LastValueOfDict(e, k);
  }
}
