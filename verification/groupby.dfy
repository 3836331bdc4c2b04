/** `sorted_groupby`: a stable sort by a string key followed by grouping of
    contiguous runs with the same key (`itertools.groupby`). */
module GroupBy {
  import opened Strings

  /** The members of `s` whose key is `k`, in their order in `s`. */
  function FilterKey<T>(s: seq<T>, key: T -> string, k: string): (r: seq<T>)
    ensures |r| <= |s|
    ensures forall x :: x in r ==> x in s && key(x) == k
  {
    if s == [] then []
    else (if key(s[0]) == k then [s[0]] else []) + FilterKey(s[1..], key, k)
  }

  predicate SortedBy<T>(s: seq<T>, key: T -> string) {
    forall i, j :: 0 <= i < j < |s| ==> StrLe(key(s[i]), key(s[j]))
  }

  /** Places `x` before the first member whose key is not smaller. */
  function Insert<T>(x: T, s: seq<T>, key: T -> string): (r: seq<T>)
    ensures |r| == |s| + 1
    ensures multiset(r) == multiset(s) + multiset{x}
  {
    if s == [] then [x]
    else if StrLe(key(x), key(s[0])) then [x] + s
    else
      var r := [s[0]] + Insert(x, s[1..], key);
      assert s == [s[0]] + s[1..];
      r
  }

  /** `sorted(s, key=key)`: Python's sort is stable. */
  function Sort<T>(s: seq<T>, key: T -> string): (r: seq<T>)
    ensures multiset(r) == multiset(s)
  {
    if s == [] then []
    else
      assert s == [s[0]] + s[1..];
      Insert(s[0], Sort(s[1..], key), key)
  }

  lemma StrLeReflexive(a: string)
    ensures StrLe(a, a)
  {
  }

  lemma {:induction false} InsertSorted<T>(x: T, s: seq<T>, key: T -> string)
    requires SortedBy(s, key)
    ensures SortedBy(Insert(x, s, key), key)
  {
    if s != [] {
      if StrLe(key(x), key(s[0])) {
        forall j | 0 < j < |s| + 1
          ensures StrLe(key(x), key(([x] + s)[j]))
        {
          if j == 1 {
            assert ([x] + s)[j] == s[0];
          } else {
            StrLeTransitive(key(x), key(s[0]), key(s[j - 1]));
          }
        }
      } else {
        StrLeTotal(key(x), key(s[0]));
        InsertSorted(x, s[1..], key);
        var rest := Insert(x, s[1..], key);
        forall j | 0 <= j < |rest|
          ensures StrLe(key(s[0]), key(rest[j]))
        {
          assert rest[j] in multiset(s[1..]) + multiset{x} by {
            assert rest[j] in multiset(rest);
          }
          if rest[j] != x {
            assert rest[j] in s[1..];
          }
        }
      }
    }
  }

  /** The result of `sorted` is ordered by key. */
  lemma {:induction false} SortSorted<T>(s: seq<T>, key: T -> string)
    ensures SortedBy(Sort(s, key), key)
  {
    if s != [] {
      SortSorted(s[1..], key);
      InsertSorted(s[0], Sort(s[1..], key), key);
    }
  }

  /** One unfolding of `FilterKey` at the front. */
  lemma FilterKeyCons<T>(x: T, s: seq<T>, key: T -> string, k: string)
    ensures FilterKey([x] + s, key, k) == (if key(x) == k then [x] else []) + FilterKey(s, key, k)
  {
    assert ([x] + s)[0] == x && ([x] + s)[1..] == s;
  }

  lemma {:induction false} InsertFilter<T>(x: T, s: seq<T>, key: T -> string, k: string)
    ensures FilterKey(Insert(x, s, key), key, k)
         == (if key(x) == k then [x] else []) + FilterKey(s, key, k)
  {
    if s == [] {
      FilterKeyCons(x, s, key, k);
    } else if StrLe(key(x), key(s[0])) {
      FilterKeyCons(x, s, key, k);
    } else {
      StrLeReflexive(key(x));
      InsertFilter(x, s[1..], key, k);
      var rest := Insert(x, s[1..], key);
      FilterKeyCons(s[0], rest, key, k);
      FilterKeyCons(s[0], s[1..], key, k);
      assert s == [s[0]] + s[1..];
      var tail := FilterKey(s[1..], key, k);
      var X := if key(x) == k then [x] else [];
      var A := if key(s[0]) == k then [s[0]] else [];
      assert FilterKey(Insert(x, s, key), key, k) == A + (X + tail);
      assert FilterKey(s, key, k) == A + tail;
      if key(x) == k {
        assert A == [];
        assert A + (X + tail) == X + tail && A + tail == tail;
      } else {
        assert X == [];
        assert X + tail == tail && X + (A + tail) == A + tail;
      }
    }
  }

  /** Stability: the members with one key keep their relative order. */
  lemma {:induction false} SortStable<T>(s: seq<T>, key: T -> string, k: string)
    ensures FilterKey(Sort(s, key), key, k) == FilterKey(s, key, k)
  {
    if s != [] {
      SortStable(s[1..], key, k);
      InsertFilter(s[0], Sort(s[1..], key), key, k);
    }
  }

  /** `itertools.groupby`: maximal runs of members with equal keys. */
  function Runs<T>(s: seq<T>, key: T -> string): (r: seq<seq<T>>)
    ensures forall i :: 0 <= i < |r| ==> r[i] != []
    ensures s == [] <==> r == []
    ensures r != [] ==> r[0][0] == s[0]
  {
    if s == [] then []
    else
      var rest := Runs(s[1..], key);
      if rest != [] && key(rest[0][0]) == key(s[0]) then [[s[0]] + rest[0]] + rest[1..]
      else [[s[0]]] + rest
  }

  /** A group: its key and its members. */
  function Groups<T>(runs: seq<seq<T>>, key: T -> string): (g: seq<(string, seq<T>)>)
    requires forall i :: 0 <= i < |runs| ==> runs[i] != []
    ensures |g| == |runs|
    ensures forall i :: 0 <= i < |g| ==> g[i] == (key(runs[i][0]), runs[i])
  {
    seq(|runs|, i requires 0 <= i < |runs| => (key(runs[i][0]), runs[i]))
  }

  /** `sorted_groupby(s, key)`. */
  function SortedGroupBy<T>(s: seq<T>, key: T -> string): seq<(string, seq<T>)>
  {
    Groups(Runs(Sort(s, key), key), key)
  }

  predicate NonEmptyRuns<T>(r: seq<seq<T>>) {
    forall i :: 0 <= i < |r| ==> r[i] != []
  }

  /** Each run is exactly the members of `t` with the run's key. */
  ghost predicate ExactRuns<T>(t: seq<T>, key: T -> string, r: seq<seq<T>>)
    requires NonEmptyRuns(r)
  {
    forall i :: 0 <= i < |r| ==> r[i] == FilterKey(t, key, key(r[i][0]))
  }

  /** The run keys increase strictly, so no key has two runs. */
  ghost predicate IncreasingRuns<T>(key: T -> string, r: seq<seq<T>>)
    requires NonEmptyRuns(r)
  {
    forall i, j :: 0 <= i < j < |r| ==> StrLt(key(r[i][0]), key(r[j][0]))
  }

  lemma {:induction false} RunsOfSorted<T>(t: seq<T>, key: T -> string)
    requires SortedBy(t, key)
    ensures ExactRuns(t, key, Runs(t, key))
    ensures IncreasingRuns(key, Runs(t, key))
  {
    if t != [] {
      var x, t' := t[0], t[1..];
      assert SortedBy(t', key);
      RunsOfSorted(t', key);
      var r' := Runs(t', key);
      var r := Runs(t, key);
      forall j | 0 <= j < |t'|
        ensures StrLe(key(x), key(t'[j]))
      {
        assert t'[j] == t[j + 1];
      }
      forall i | 0 <= i < |r'|
        ensures StrLe(key(x), key(r'[i][0]))
      {
        assert r'[i][0] in FilterKey(t', key, key(r'[i][0]));
      }
      if r' != [] && key(r'[0][0]) == key(x) {
        RunsMerge(t, key);
      } else {
        RunsSplit(t, key);
      }
    }
  }

  /** Inductive step: the head joins the first run of the tail. */
  lemma {:induction false} RunsMerge<T>(t: seq<T>, key: T -> string)
    requires t != []
    requires ExactRuns(t[1..], key, Runs(t[1..], key))
    requires IncreasingRuns(key, Runs(t[1..], key))
    requires Runs(t[1..], key) != [] && key(Runs(t[1..], key)[0][0]) == key(t[0])
    ensures ExactRuns(t, key, Runs(t, key))
    ensures IncreasingRuns(key, Runs(t, key))
  {
    var x, t' := t[0], t[1..];
    var r' := Runs(t', key);
    var r := Runs(t, key);
    assert r == [[x] + r'[0]] + r'[1..];
    assert forall i :: 0 <= i < |r| ==> key(r[i][0]) == key(r'[i][0]);
    assert forall i :: 0 < i < |r| ==> r[i] == r'[i];
    forall i | 0 <= i < |r|
      ensures r[i] == FilterKey(t, key, key(r[i][0]))
    {
      if i == 0 {
        assert FilterKey(t, key, key(x)) == [x] + FilterKey(t', key, key(x));
      } else {
        MergeTail(t, key, r'[i]);
      }
    }
  }

  lemma MergeTail<T>(t: seq<T>, key: T -> string, run: seq<T>)
    requires t != [] && run != []
    requires key(run[0]) != key(t[0])
    requires run == FilterKey(t[1..], key, key(run[0]))
    ensures run == FilterKey(t, key, key(run[0]))
  {
  }

  /** In a sorted sequence whose first two keys differ, no later member
      shares the first key. */
  lemma HeadKeyUnique<T>(t: seq<T>, key: T -> string)
    requires |t| > 1 && SortedBy(t, key) && key(t[1]) != key(t[0])
    ensures forall j :: 1 <= j < |t| ==> key(t[j]) != key(t[0])
  {
    forall j | 1 < j < |t|
      ensures key(t[j]) != key(t[0])
    {
      if key(t[j]) == key(t[0]) {
        assert StrLe(key(t[0]), key(t[1])) && StrLe(key(t[1]), key(t[j]));
        StrLeAntisymmetric(key(t[0]), key(t[1]));
      }
    }
  }

  /** Inductive step: the head forms a run of its own. */
  lemma {:induction false} RunsSplit<T>(t: seq<T>, key: T -> string)
    requires t != [] && SortedBy(t, key)
    requires ExactRuns(t[1..], key, Runs(t[1..], key))
    requires IncreasingRuns(key, Runs(t[1..], key))
    requires !(Runs(t[1..], key) != [] && key(Runs(t[1..], key)[0][0]) == key(t[0]))
    requires forall i :: 0 <= i < |Runs(t[1..], key)| ==> StrLe(key(t[0]), key(Runs(t[1..], key)[i][0]))
    ensures ExactRuns(t, key, Runs(t, key))
    ensures IncreasingRuns(key, Runs(t, key))
  {
    var x, t' := t[0], t[1..];
    var r' := Runs(t', key);
    var r := Runs(t, key);
    assert r == [[x]] + r';
    if t' != [] {
      assert t[1] == r'[0][0];
      HeadKeyUnique(t, key);
    }
    assert forall j :: 0 <= j < |t'| ==> t'[j] == t[j + 1];
    FilterAbsent(t', key, key(x));
    RunsSplitExact(t, key);
    forall i | 0 <= i < |r'|
      ensures StrLt(key(x), key(r'[i][0]))
    {
      assert r'[i][0] in FilterKey(t', key, key(r'[i][0]));
    }
    RunsSplitIncreasing(x, key, r');
  }

  lemma RunsSplitExact<T>(t: seq<T>, key: T -> string)
    requires t != [] && NonEmptyRuns(Runs(t[1..], key))
    requires ExactRuns(t[1..], key, Runs(t[1..], key))
    requires Runs(t, key) == [[t[0]]] + Runs(t[1..], key)
    requires FilterKey(t[1..], key, key(t[0])) == []
    requires forall i :: 0 <= i < |Runs(t[1..], key)| ==> key(Runs(t[1..], key)[i][0]) != key(t[0])
    ensures ExactRuns(t, key, Runs(t, key))
  {
    var x, t' := t[0], t[1..];
    var r', r := Runs(t', key), Runs(t, key);
    forall i | 0 <= i < |r|
      ensures r[i] == FilterKey(t, key, key(r[i][0]))
    {
      if i == 0 {
        assert FilterKey(t, key, key(x)) == [x] + FilterKey(t', key, key(x));
        assert [x] + [] == [x];
      } else {
        var k := key(r'[i - 1][0]);
        assert r[i] == r'[i - 1] == FilterKey(t', key, k);
        assert key(x) != k;
        assert FilterKey(t, key, k) == [] + FilterKey(t', key, k);
      }
    }
  }

  lemma RunsSplitIncreasing<T>(x: T, key: T -> string, r': seq<seq<T>>)
    requires NonEmptyRuns(r') && IncreasingRuns(key, r')
    requires forall i :: 0 <= i < |r'| ==> StrLt(key(x), key(r'[i][0]))
    ensures NonEmptyRuns([[x]] + r') && IncreasingRuns(key, [[x]] + r')
  {
    var r := [[x]] + r';
    forall i, j | 0 <= i < j < |r|
      ensures StrLt(key(r[i][0]), key(r[j][0]))
    {
      assert r[j] == r'[j - 1];
      if i > 0 {
        assert r[i] == r'[i - 1];
      }
    }
  }

  /** A key that no member carries selects nothing. */
  lemma {:induction false} FilterAbsent<T>(s: seq<T>, key: T -> string, k: string)
    requires forall j :: 0 <= j < |s| ==> key(s[j]) != k
    ensures FilterKey(s, key, k) == []
  {
    if s != [] {
      FilterAbsent(s[1..], key, k);
    }
  }

  function Concat<T>(r: seq<seq<T>>): seq<T>
  {
    if r == [] then [] else r[0] + Concat(r[1..])
  }

  /** The runs put back together give the input. */
  lemma {:induction false} ConcatRuns<T>(t: seq<T>, key: T -> string)
    ensures Concat(Runs(t, key)) == t
  {
    if t != [] {
      ConcatRuns(t[1..], key);
      var r' := Runs(t[1..], key);
      if r' != [] && key(r'[0][0]) == key(t[0]) {
        var r := [[t[0]] + r'[0]] + r'[1..];
        assert r[1..] == r'[1..];
        assert Concat(r') == r'[0] + Concat(r'[1..]);
      } else {
        var r := [[t[0]]] + r';
        assert r[1..] == r';
      }
    }
  }

  lemma {:induction false} ConcatMember<T>(r: seq<seq<T>>, x: T) returns (i: nat)
    requires x in Concat(r)
    ensures i < |r| && x in r[i]
  {
    if x in r[0] {
      i := 0;
    } else {
      var i' := ConcatMember(r[1..], x);
      i := i' + 1;
    }
  }

  /** Every member's key has a run. */
  lemma RunsCover<T>(t: seq<T>, key: T -> string, x: T) returns (i: nat)
    requires x in t
    requires NonEmptyRuns(Runs(t, key)) && ExactRuns(t, key, Runs(t, key))
    ensures i < |Runs(t, key)| && key(Runs(t, key)[i][0]) == key(x)
  {
    var runs := Runs(t, key);
    ConcatRuns(t, key);
    i := ConcatMember(runs, x);
    assert x in FilterKey(t, key, key(runs[i][0]));
  }

  /** `sorted_groupby` yields, in increasing key order, one group per key that
      occurs in `s`, holding exactly the members with that key in their
      original order. */
  lemma SortedGroupBySpec<T>(s: seq<T>, key: T -> string)
    ensures forall i :: 0 <= i < |SortedGroupBy(s, key)| ==>
      SortedGroupBy(s, key)[i].1 != [] &&
      SortedGroupBy(s, key)[i].1 == FilterKey(s, key, SortedGroupBy(s, key)[i].0)
    ensures forall i, j :: 0 <= i < j < |SortedGroupBy(s, key)| ==>
      StrLt(SortedGroupBy(s, key)[i].0, SortedGroupBy(s, key)[j].0)
    ensures forall x :: x in s ==>
      exists i :: 0 <= i < |SortedGroupBy(s, key)| && SortedGroupBy(s, key)[i].0 == key(x)
  {
    var t := Sort(s, key);
    var runs := Runs(t, key);
    SortSorted(s, key);
    RunsOfSorted(t, key);
    var g := SortedGroupBy(s, key);
    assert g == Groups(runs, key);
    forall i | 0 <= i < |g|
      ensures g[i].1 == FilterKey(s, key, g[i].0)
    {
      assert g[i] == (key(runs[i][0]), runs[i]);
      SortStable(s, key, g[i].0);
    }
    forall i, j | 0 <= i < j < |g|
      ensures StrLt(g[i].0, g[j].0)
    {
      assert g[i].0 == key(runs[i][0]) && g[j].0 == key(runs[j][0]);
    }
    forall x | x in s
      ensures exists i :: 0 <= i < |g| && g[i].0 == key(x)
    {
      assert x in multiset(s);
      assert x in t;
      var i := RunsCover(t, key, x);
      assert g[i].0 == key(x);
    }
  }
}
