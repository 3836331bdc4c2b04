/** `flatten(d, parent, separator)`: a nested record becomes a flat one whose
    keys join the path of keys with the separator. The items are produced in
    the record's order, depth first, and then collected by `dict(items)`, so
    a later item with a key already produced overwrites the value in place. */
module Flatten {
  import opened Dicts
  import opened Values

  /** The key of the item `k` under `parent`: the parent is used only when it
      is a non-empty string. */
  function JoinKey(parent: string, sep: string, k: string): (key: string)
    ensures parent == "" ==> key == k
    ensures parent != "" ==> |key| == |parent| + |sep| + |k| && key[..|parent| + |sep|] == parent + sep && key[|parent| + |sep|..] == k
  {
    if parent != "" then parent + sep + k else k
  }

  /** The items one pair `(k, v)` produces under `parent`: a nested record
      contributes the items of its own flattened dictionary, any other value
      one item. */
  function PairItems(k: string, v: Value, parent: string, sep: string): seq<(string, Value)>
    decreases v, if v.Rec? then |v.fields| + 2 else 0
  {
    if v.Rec? then Flatten(v.fields, JoinKey(parent, sep, k), sep) else [(JoinKey(parent, sep, k), v)]
  }

  /** The items the loop produces from the first `n` pairs of `d`. */
  function FlattenItems(d: Record, n: nat, parent: string, sep: string): seq<(string, Value)>
    requires n <= |d|
    decreases Rec(d), n
  {
    if n == 0 then []
    else
      assert d[n - 1] in d;
      FlattenItems(d, n - 1, parent, sep) + PairItems(d[n - 1].0, d[n - 1].1, parent, sep)
  }

  function Flatten(d: Record, parent: string, sep: string): (r: Record)
    ensures IsDict(r)
    decreases Rec(d), |d| + 1
  {
    FromItems(FlattenItems(d, |d|, parent, sep))
  }

  /** No value of the record is itself a record. */
  predicate Flat(d: Record) {
    forall p :: p in d ==> !p.1.Rec?
  }

  /** The items produced under a non-empty parent all carry keys that start
      with the parent and the separator, and none of them holds a record. */
  lemma {:induction false} FlattenItemsShape(d: Record, n: nat, parent: string, sep: string)
    requires n <= |d|
    ensures Flat(FlattenItems(d, n, parent, sep))
    ensures parent != "" ==> forall p :: p in FlattenItems(d, n, parent, sep) ==> parent + sep <= p.0
    decreases Rec(d), n
  {
    if n > 0 {
      var (k, v) := d[n - 1];
      var key := JoinKey(parent, sep, k);
      assert d[n - 1] in d;
      FlattenItemsShape(d, n - 1, parent, sep);
      if v.Rec? {
        FlattenShape(v.fields, key, sep);
        if parent != "" {
          forall p | p in Flatten(v.fields, key, sep)
            ensures parent + sep <= p.0
          {
            assert key + sep <= p.0;
            assert (parent + sep) + k == key;
          }
        }
      }
    }
  }

  /** The flattened record holds no record, and under a non-empty parent
      every key starts with the parent followed by the separator. */
  lemma {:induction false} FlattenShape(d: Record, parent: string, sep: string)
    ensures Flat(Flatten(d, parent, sep))
    ensures parent != "" ==> forall p :: p in Flatten(d, parent, sep) ==> parent + sep <= p.0
    decreases Rec(d), |d| + 1
  {
    FlattenItemsShape(d, |d|, parent, sep);
    UpdateFrom([], FlattenItems(d, |d|, parent, sep));
  }

  /** At the top level a record without nested records yields its own
      pairs as items. */
  lemma {:induction false} FlattenItemsOfFlat(d: Record, n: nat, sep: string)
    requires n <= |d| && Flat(d)
    ensures FlattenItems(d, n, "", sep) == d[..n]
  {
    if n > 0 {
      assert d[n - 1] in d;
      FlattenItemsOfFlat(d, n - 1, sep);
      assert d[..n] == d[..n - 1] + [d[n - 1]];
    }
  }

  /** A dictionary without nested dictionaries flattens to itself. */
  lemma FlattenOfFlat(d: Record, sep: string)
    requires IsDict(d) && Flat(d)
    ensures Flatten(d, "", sep) == d
  {
    FlattenItemsOfFlat(d, |d|, sep);
    assert d[..|d|] == d;
    FromItemsOfDict(d);
  }

  /** Flattening twice is flattening once. */
  lemma FlattenIdempotent(d: Record, sep: string)
    ensures Flatten(Flatten(d, "", sep), "", sep) == Flatten(d, "", sep)
  {
    FlattenShape(d, "", sep);
    FlattenOfFlat(Flatten(d, "", sep), sep);
  }

  /** A value that is not a record keeps its key at the top level and gets
      the joined key below it; a nested record is replaced by its own
      flattened items, keyed below its key. */
  lemma FlattenOne(k: string, v: Value, parent: string, sep: string)
    ensures !v.Rec? ==> Flatten([(k, v)], parent, sep) == [(JoinKey(parent, sep, k), v)]
    ensures v.Rec? ==> Flatten([(k, v)], parent, sep) == Flatten(v.fields, JoinKey(parent, sep, k), sep)
  {
    var d := [(k, v)];
    assert d[0] == (k, v);
    if v.Rec? {
      var inner := Flatten(v.fields, JoinKey(parent, sep, k), sep);
      assert FlattenItems(d, 1, parent, sep) == [] + inner;
      assert [] + inner == inner;
      FromItemsOfDict(inner);
    } else {
      var one := [(JoinKey(parent, sep, k), v)];
      assert FlattenItems(d, 1, parent, sep) == [] + one == one;
      assert IsDict(one);
      FromItemsOfDict(one);
    }
  }

  /** The items of the first `m` pairs do not depend on the pairs after them. */
  lemma {:induction false} FlattenItemsPrefix(d1: Record, d2: Record, m: nat, parent: string, sep: string)
    requires m <= |d1|
    ensures FlattenItems(d1 + d2, m, parent, sep) == FlattenItems(d1, m, parent, sep)
  {
    if m > 0 {
      assert (d1 + d2)[m - 1] == d1[m - 1];
      FlattenItemsPrefix(d1, d2, m - 1, parent, sep);
    }
  }

  /** The items of `d1 + d2` are the items of `d1` followed by those of the
      first `n` pairs of `d2`. */
  lemma {:induction false} FlattenItemsAppend(d1: Record, d2: Record, n: nat, parent: string, sep: string)
    requires n <= |d2|
    ensures FlattenItems(d1 + d2, |d1| + n, parent, sep)
      == FlattenItems(d1, |d1|, parent, sep) + FlattenItems(d2, n, parent, sep)
  {
    if n == 0 {
      FlattenItemsPrefix(d1, d2, |d1|, parent, sep);
      assert FlattenItems(d2, 0, parent, sep) == [];
    } else {
      FlattenItemsAppend(d1, d2, n - 1, parent, sep);
      FlattenItemsAppendStep(d1, d2, n, parent, sep);
    }
  }

  lemma FlattenItemsAppendStep(d1: Record, d2: Record, n: nat, parent: string, sep: string)
    requires 0 < n <= |d2|
    requires FlattenItems(d1 + d2, |d1| + n - 1, parent, sep)
      == FlattenItems(d1, |d1|, parent, sep) + FlattenItems(d2, n - 1, parent, sep)
    ensures FlattenItems(d1 + d2, |d1| + n, parent, sep)
      == FlattenItems(d1, |d1|, parent, sep) + FlattenItems(d2, n, parent, sep)
  {
    var d, m := d1 + d2, |d1| + n;
    assert d[m - 1] == d2[n - 1];
    FlattenItemsLast(d, m, parent, sep);
    FlattenItemsLast(d2, n, parent, sep);
    SeqAssoc(FlattenItems(d1, |d1|, parent, sep), FlattenItems(d2, n - 1, parent, sep),
      PairItems(d2[n - 1].0, d2[n - 1].1, parent, sep));
  }

  /** One step of the loop: the items of the first `n` pairs are those of
      the first `n - 1` followed by those of pair `n - 1`. */
  lemma FlattenItemsLast(d: Record, n: nat, parent: string, sep: string)
    requires 0 < n <= |d|
    ensures FlattenItems(d, n, parent, sep) == FlattenItems(d, n - 1, parent, sep) + PairItems(d[n - 1].0, d[n - 1].1, parent, sep)
  {
  }

  lemma SeqAssoc<T>(a: seq<T>, b: seq<T>, c: seq<T>)
    ensures (a + b) + c == a + (b + c)
  {
  }

  /** Flattening `d1 + d2` is flattening `d1` and then assigning the items of
      `d2` one after another: a key `d2` produces takes its last value from
      `d2`, keeping its place if `d1` produced it already, and every other
      key keeps `d1`'s value and place. Together with `FlattenOne` this fixes
      the flattening of every record, pair by pair. */
  lemma FlattenAppend(d1: Record, d2: Record, parent: string, sep: string)
    ensures Flatten(d1 + d2, parent, sep) == Update(Flatten(d1, parent, sep), FlattenItems(d2, |d2|, parent, sep))
    ensures Keys(Flatten(d1, parent, sep)) <= Keys(Flatten(d1 + d2, parent, sep))
    ensures forall k :: (k in Keys(Flatten(d1 + d2, parent, sep)) <==>
      k in Keys(Flatten(d1, parent, sep)) || k in Keys(Flatten(d2, parent, sep)))
    ensures forall k :: (Get(Flatten(d1 + d2, parent, sep), k) ==
      if k in Keys(Flatten(d2, parent, sep)) then Get(Flatten(d2, parent, sep), k) else Get(Flatten(d1, parent, sep), k))
  {
    FlattenAppendItems(d1, d2, parent, sep);
    UpdatePrefix(Flatten(d1, parent, sep), FlattenItems(d2, |d2|, parent, sep));
    forall k
      ensures k in Keys(Flatten(d1 + d2, parent, sep)) <==>
        k in Keys(Flatten(d1, parent, sep)) || k in Keys(Flatten(d2, parent, sep))
      ensures Get(Flatten(d1 + d2, parent, sep), k) ==
        (if k in Keys(Flatten(d2, parent, sep)) then Get(Flatten(d2, parent, sep), k) else Get(Flatten(d1, parent, sep), k))
    {
      FlattenAppendKey(d1, d2, parent, sep, k);
    }
  }

  lemma FlattenAppendItems(d1: Record, d2: Record, parent: string, sep: string)
    ensures Flatten(d1 + d2, parent, sep) == Update(Flatten(d1, parent, sep), FlattenItems(d2, |d2|, parent, sep))
  {
    var a, b := FlattenItems(d1, |d1|, parent, sep), FlattenItems(d2, |d2|, parent, sep);
    calc {
      Flatten(d1 + d2, parent, sep);
      { FlattenAppendFromItems(d1, d2, parent, sep); }
      Update([], a + b);
      { UpdateAppend([], a, b); }
      Update(Update([], a), b);
      { FlattenFromItems(d1, |d1|, parent, sep); }
      Update(Flatten(d1, parent, sep), b);
    }
  }

  lemma FlattenAppendFromItems(d1: Record, d2: Record, parent: string, sep: string)
    ensures Flatten(d1 + d2, parent, sep) == Update([], FlattenItems(d1, |d1|, parent, sep) + FlattenItems(d2, |d2|, parent, sep))
  {
    var x := FlattenItems(d1 + d2, |d1| + |d2|, parent, sep);
    var y := FlattenItems(d1, |d1|, parent, sep) + FlattenItems(d2, |d2|, parent, sep);
    FlattenItemsAppend(d1, d2, |d2|, parent, sep);
    UpdateCong(x, y);
    FlattenFromItems(d1 + d2, |d1| + |d2|, parent, sep);
  }

  lemma UpdateCong(x: seq<(string, Value)>, y: seq<(string, Value)>)
    requires x == y
    ensures Update([], x) == Update([], y)
  {
  }

  lemma FlattenFromItems(d: Record, n: nat, parent: string, sep: string)
    requires n == |d|
    ensures Flatten(d, parent, sep) == Update([], FlattenItems(d, n, parent, sep))
  {
  }

  lemma FlattenAppendKey(d1: Record, d2: Record, parent: string, sep: string, k: string)
    requires Flatten(d1 + d2, parent, sep) == Update(Flatten(d1, parent, sep), FlattenItems(d2, |d2|, parent, sep))
    ensures k in Keys(Flatten(d1 + d2, parent, sep)) <==>
      k in Keys(Flatten(d1, parent, sep)) || k in Keys(Flatten(d2, parent, sep))
    ensures Get(Flatten(d1 + d2, parent, sep), k) ==
      (if k in Keys(Flatten(d2, parent, sep)) then Get(Flatten(d2, parent, sep), k) else Get(Flatten(d1, parent, sep), k))
  {
    var b := FlattenItems(d2, |d2|, parent, sep);
    UpdateKeys(Flatten(d1, parent, sep), b, k);
    UpdateKeys([], b, k);
  }
}
