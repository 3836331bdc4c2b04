/** The discriminated keys `mods_to_dict` writes: `originInfo-<eventType><n>`
    for the members of each event type, and `subject[-<authority>]` for the
    subjects of each authority. */
module ConvertKeys {
  import opened Wrappers
  import opened Strings
  import opened Dicts
  import opened Xml
  import opened Values
  import opened GroupBy
  import opened TagGroups
  import opened Rules
  import opened Convert
  import opened ConvertProps

  // ------------------------------------------------------------ originInfo

  /** The key the `n`-th `originInfo` of event type `t` is stored under. */
  function OriginInfoKey(t: string, n: nat): string { "originInfo-" + t + NatToString(n) }

  /** One event type's numbering, after the event types before it. */
  lemma OriginInfosStep(value: Record, groups: seq<(string, Group)>, doc: Element, raiseErrors: bool, b: nat)
    requires groups != [] && WellGrouped(groups, b)
    requires OriginInfos(value, groups, doc, raiseErrors, b).Ok?
    ensures WellGrouped(groups[..|groups| - 1], b)
    ensures OriginInfos(value, groups[..|groups| - 1], doc, raiseErrors, b).Ok?
    ensures var last := groups[|groups| - 1];
      var acc := OriginInfos(value, groups[..|groups| - 1], doc, raiseErrors, b).value.val;
      && ModsEnumerate(acc, "originInfo-" + last.0, last.1, doc, raiseErrors, b).Ok?
      && OriginInfos(value, groups, doc, raiseErrors, b).value.val
         == ModsEnumerate(acc, "originInfo-" + last.0, last.1, doc, raiseErrors, b).value.val
  {
    var m := |groups| - 1;
    assert forall i :: 0 <= i < m ==> groups[..m][i] == groups[i];
  }

  /** No group from position `from` on writes the key `k`. */
  ghost predicate Unwritten(groups: seq<(string, Group)>, from: nat, k: string) {
    forall i, n: nat :: from <= i < |groups| && n < |groups[i].1| ==> OriginInfoKey(groups[i].0, n) != k
  }

  lemma UnwrittenSplit(groups: seq<(string, Group)>, from: nat, k: string)
    requires groups != [] && Unwritten(groups, from, k)
    ensures Unwritten(groups[..|groups| - 1], from, k)
    ensures from < |groups| ==> forall j: nat :: j < |groups[|groups| - 1].1| ==>
      k != "originInfo-" + groups[|groups| - 1].0 + NatToString(j)
  {
    var m := |groups| - 1;
    forall i, n: nat | from <= i < m && n < |groups[..m][i].1|
      ensures OriginInfoKey(groups[..m][i].0, n) != k
    {
      assert groups[..m][i] == groups[i];
    }
    if from < |groups| {
      forall j: nat | j < |groups[m].1|
        ensures k != "originInfo-" + groups[m].0 + NatToString(j)
      {
        assert OriginInfoKey(groups[m].0, j) != k;
      }
    }
  }

  /** Member `n` of group `i` is stored under its key, unless a later group
      writes the same key (a later assignment overwrites an earlier one). */
  lemma {:induction false} OriginInfosGet(value: Record, groups: seq<(string, Group)>, doc: Element, raiseErrors: bool, b: nat, i: nat, n: nat)
    requires WellGrouped(groups, b) && OriginInfos(value, groups, doc, raiseErrors, b).Ok?
    requires i < |groups| && n < |groups[i].1|
    requires Unwritten(groups, i + 1, OriginInfoKey(groups[i].0, n))
    ensures ModsToDict(groups[i].1[n], doc, raiseErrors).Ok?
    ensures Get(OriginInfos(value, groups, doc, raiseErrors, b).value.val, OriginInfoKey(groups[i].0, n))
      == Some(Rec(ModsToDict(groups[i].1[n], doc, raiseErrors).value.val))
  {
    if i == |groups| - 1 {
      OriginInfosGetLast(value, groups, doc, raiseErrors, b, n);
    } else {
      var m := |groups| - 1;
      var last, pre := groups[m], groups[..m];
      OriginInfosStep(value, groups, doc, raiseErrors, b);
      var acc := OriginInfos(value, pre, doc, raiseErrors, b).value.val;
      var k := OriginInfoKey(groups[i].0, n);
      UnwrittenSplit(groups, i + 1, k);
      assert pre[i] == groups[i];
      OriginInfosGet(value, pre, doc, raiseErrors, b, i, n);
      ModsEnumerateOther(acc, "originInfo-" + last.0, last.1, doc, raiseErrors, b, k);
    }
  }

  lemma OriginInfosGetLast(value: Record, groups: seq<(string, Group)>, doc: Element, raiseErrors: bool, b: nat, n: nat)
    requires WellGrouped(groups, b) && OriginInfos(value, groups, doc, raiseErrors, b).Ok?
    requires groups != [] && n < |groups[|groups| - 1].1|
    ensures ModsToDict(groups[|groups| - 1].1[n], doc, raiseErrors).Ok?
    ensures Get(OriginInfos(value, groups, doc, raiseErrors, b).value.val, OriginInfoKey(groups[|groups| - 1].0, n))
      == Some(Rec(ModsToDict(groups[|groups| - 1].1[n], doc, raiseErrors).value.val))
  {
    var m := |groups| - 1;
    var last := groups[m];
    OriginInfosStep(value, groups, doc, raiseErrors, b);
    var acc := OriginInfos(value, groups[..m], doc, raiseErrors, b).value.val;
    ModsEnumerateGet(acc, "originInfo-" + last.0, last.1, doc, raiseErrors, b, n);
  }

  /** A key that no group writes keeps its value. */
  lemma {:induction false} OriginInfosOther(value: Record, groups: seq<(string, Group)>, doc: Element, raiseErrors: bool, b: nat, k: string)
    requires WellGrouped(groups, b) && OriginInfos(value, groups, doc, raiseErrors, b).Ok?
    requires Unwritten(groups, 0, k)
    ensures Get(OriginInfos(value, groups, doc, raiseErrors, b).value.val, k) == Get(value, k)
  {
    if groups != [] {
      var m := |groups| - 1;
      var last, pre := groups[m], groups[..m];
      OriginInfosStep(value, groups, doc, raiseErrors, b);
      var acc := OriginInfos(value, pre, doc, raiseErrors, b).value.val;
      UnwrittenSplit(groups, 0, k);
      OriginInfosOther(value, pre, doc, raiseErrors, b, k);
      ModsEnumerateOther(acc, "originInfo-" + last.0, last.1, doc, raiseErrors, b, k);
    }
  }

  /** The numbering fails only with the error of a member that fails to
      convert. */
  lemma {:induction false} OriginInfosErr(value: Record, groups: seq<(string, Group)>, doc: Element, raiseErrors: bool, b: nat)
    requires WellGrouped(groups, b) && OriginInfos(value, groups, doc, raiseErrors, b).Err?
    ensures exists i, n :: (0 <= i < |groups| && 0 <= n < |groups[i].1| &&
      ModsToDict(groups[i].1[n], doc, raiseErrors) == Err(OriginInfos(value, groups, doc, raiseErrors, b).error))
  {
    var m := |groups| - 1;
    var last, pre := groups[m], groups[..m];
    assert forall i :: 0 <= i < m ==> pre[i] == groups[i];
    assert WellGrouped(pre, b);
    var acc := OriginInfos(value, pre, doc, raiseErrors, b);
    if acc.Err? {
      OriginInfosErr(value, pre, doc, raiseErrors, b);
      var i, n :| 0 <= i < |pre| && 0 <= n < |pre[i].1| &&
        ModsToDict(pre[i].1[n], doc, raiseErrors) == Err(acc.error);
      assert pre[i] == groups[i];
    } else {
      assert m < |groups| && last == groups[m];
      ModsEnumerateErr(acc.value.val, "originInfo-" + last.0, last.1, doc, raiseErrors, b);
    }
  }

  /** The members `originInfo` numbers: the group after `fix_event_type`,
      without the members that still have no event type. */
  function KeptOrigins(tag: string, g: Group): Group {
    Filter(tag, FixEventType(g).val, HasEventType, Some("has no eventType")).val
  }

  /** The kept members of event type `t`, in order. */
  function OfEventType(tag: string, g: Group, t: string): Group {
    FilterKey(KeptOrigins(tag, g), EventTypeKey, t)
  }

  function OriginGroups(tag: string, g: Group): seq<(string, Group)> {
    SortedGroupBy(KeptOrigins(tag, g), EventTypeKey)
  }

  /** `originInfo` is the numbering of the event-type groups of the kept
      members, after the warnings of the fix and the filter. */
  lemma OriginInfoGroups(value: Record, tag: string, g: Group, doc: Element, raiseErrors: bool, b: nat)
    requires Bounded(g, b)
    ensures WellGrouped(OriginGroups(tag, g), b)
    ensures OriginInfo(value, tag, g, doc, raiseErrors, b).Ok? <==> OriginInfos(value, OriginGroups(tag, g), doc, raiseErrors, b).Ok?
    ensures OriginInfo(value, tag, g, doc, raiseErrors, b).Ok? ==>
      OriginInfo(value, tag, g, doc, raiseErrors, b).value.val == OriginInfos(value, OriginGroups(tag, g), doc, raiseErrors, b).value.val
    ensures OriginInfo(value, tag, g, doc, raiseErrors, b).Err? ==>
      OriginInfo(value, tag, g, doc, raiseErrors, b).error == OriginInfos(value, OriginGroups(tag, g), doc, raiseErrors, b).error
  {
    var fx := FixEventType(g);
    ShapesBounded(g, fx.val, b);
    GroupedBounded(KeptOrigins(tag, g), EventTypeKey, b);
  }

  /** The group of event type `t`, when some kept member has it. */
  lemma GroupOfEventType(tag: string, g: Group, t: string) returns (i: nat)
    requires OfEventType(tag, g, t) != []
    ensures i < |OriginGroups(tag, g)| && OriginGroups(tag, g)[i] == (t, OfEventType(tag, g, t))
    ensures forall i' :: i < i' < |OriginGroups(tag, g)| ==>
      StrLt(t, OriginGroups(tag, g)[i'].0) && OriginGroups(tag, g)[i'].1 == OfEventType(tag, g, OriginGroups(tag, g)[i'].0)
      && OriginGroups(tag, g)[i'].1 != []
  {
    var kept, groups := KeptOrigins(tag, g), OriginGroups(tag, g);
    SortedGroupBySpec(kept, EventTypeKey);
    var x := OfEventType(tag, g, t)[0];
    assert x in OfEventType(tag, g, t);
    i :| 0 <= i < |groups| && groups[i].0 == EventTypeKey(x);
  }

  /** No later event type (in sorted order) writes the key `k`. */
  ghost predicate NoLaterWriter(tag: string, g: Group, t: string, k: string) {
    forall x, n: nat ::
      (x in KeptOrigins(tag, g) && StrLt(t, EventTypeKey(x)) && n < |OfEventType(tag, g, EventTypeKey(x))|)
      ==> OriginInfoKey(EventTypeKey(x), n) != k
  }

  lemma LaterUnwritten(tag: string, g: Group, t: string, k: string, i: nat)
    requires NoLaterWriter(tag, g, t, k)
    requires i < |OriginGroups(tag, g)|
    requires forall i' :: i < i' < |OriginGroups(tag, g)| ==>
      StrLt(t, OriginGroups(tag, g)[i'].0) && OriginGroups(tag, g)[i'].1 == OfEventType(tag, g, OriginGroups(tag, g)[i'].0)
      && OriginGroups(tag, g)[i'].1 != []
    ensures Unwritten(OriginGroups(tag, g), i + 1, k)
  {
    var groups := OriginGroups(tag, g);
    forall i', n: nat | i + 1 <= i' < |groups| && n < |groups[i'].1|
      ensures OriginInfoKey(groups[i'].0, n) != k
    {
      var x := groups[i'].1[0];
      assert x in OfEventType(tag, g, groups[i'].0);
    }
  }

  /** The `n`-th kept `originInfo` of event type `t` converts and is stored
      under `originInfo-<t><n>`, unless an event type sorted after `t`
      writes the same key and so overwrites it. */
  lemma OriginInfoGet(value: Record, tag: string, g: Group, doc: Element, raiseErrors: bool, b: nat, t: string, n: nat)
    requires Bounded(g, b) && OriginInfo(value, tag, g, doc, raiseErrors, b).Ok?
    requires n < |OfEventType(tag, g, t)|
    requires NoLaterWriter(tag, g, t, OriginInfoKey(t, n))
    ensures ModsToDict(OfEventType(tag, g, t)[n], doc, raiseErrors).Ok?
    ensures Get(OriginInfo(value, tag, g, doc, raiseErrors, b).value.val, OriginInfoKey(t, n))
      == Some(Rec(ModsToDict(OfEventType(tag, g, t)[n], doc, raiseErrors).value.val))
  {
    OriginInfoGroups(value, tag, g, doc, raiseErrors, b);
    var i := GroupOfEventType(tag, g, t);
    LaterUnwritten(tag, g, t, OriginInfoKey(t, n), i);
    OriginInfosGet(value, OriginGroups(tag, g), doc, raiseErrors, b, i, n);
  }

  /** A key that is not `originInfo-<t><n>` for a kept member's event type
      `t` and a number `n` below that type's count keeps its value. */
  lemma OriginInfoOther(value: Record, tag: string, g: Group, doc: Element, raiseErrors: bool, b: nat, k: string)
    requires Bounded(g, b) && OriginInfo(value, tag, g, doc, raiseErrors, b).Ok?
    requires forall x, n: nat :: x in KeptOrigins(tag, g) && n < |OfEventType(tag, g, EventTypeKey(x))| ==>
      k != OriginInfoKey(EventTypeKey(x), n)
    ensures Get(OriginInfo(value, tag, g, doc, raiseErrors, b).value.val, k) == Get(value, k)
  {
    OriginInfoGroups(value, tag, g, doc, raiseErrors, b);
    GroupsUnwritten(tag, g, k);
    OriginInfosOther(value, OriginGroups(tag, g), doc, raiseErrors, b, k);
  }

  lemma GroupsUnwritten(tag: string, g: Group, k: string)
    requires forall x, n: nat :: x in KeptOrigins(tag, g) && n < |OfEventType(tag, g, EventTypeKey(x))| ==>
      k != OriginInfoKey(EventTypeKey(x), n)
    ensures Unwritten(OriginGroups(tag, g), 0, k)
  {
    var kept, groups := KeptOrigins(tag, g), OriginGroups(tag, g);
    SortedGroupBySpec(kept, EventTypeKey);
    forall i, n: nat | 0 <= i < |groups| && n < |groups[i].1|
      ensures OriginInfoKey(groups[i].0, n) != k
    {
      var x := groups[i].1[0];
      assert x in FilterKey(kept, EventTypeKey, groups[i].0);
    }
  }

  /** `originInfo` fails only with the error of a kept member that fails to
      convert. */
  lemma OriginInfoErr(value: Record, tag: string, g: Group, doc: Element, raiseErrors: bool, b: nat)
    requires Bounded(g, b) && OriginInfo(value, tag, g, doc, raiseErrors, b).Err?
    ensures exists x :: (x in KeptOrigins(tag, g) &&
      ModsToDict(x, doc, raiseErrors) == Err(OriginInfo(value, tag, g, doc, raiseErrors, b).error))
  {
    OriginInfoGroups(value, tag, g, doc, raiseErrors, b);
    var groups := OriginGroups(tag, g);
    OriginInfosErr(value, groups, doc, raiseErrors, b);
    var i, n :| 0 <= i < |groups| && 0 <= n < |groups[i].1| &&
      ModsToDict(groups[i].1[n], doc, raiseErrors) == Err(OriginInfos(value, groups, doc, raiseErrors, b).error);
    GroupMember(KeptOrigins(tag, g), i, n);
  }

  lemma GroupMember(kept: Group, i: nat, n: nat)
    requires i < |SortedGroupBy(kept, EventTypeKey)| && n < |SortedGroupBy(kept, EventTypeKey)[i].1|
    ensures SortedGroupBy(kept, EventTypeKey)[i].1[n] in kept
  {
    SortedGroupBySpec(kept, EventTypeKey);
    assert SortedGroupBy(kept, EventTypeKey)[i].1[n] in SortedGroupBy(kept, EventTypeKey)[i].1;
  }

  // --------------------------------------------------------------- subject

  /** `descend` of the forced single member of a non-empty group is the
      record of its first member. */
  lemma DescendForced(tag: string, w: Group, doc: Element, raiseErrors: bool, b: nat)
    requires w != [] && Bounded(w, b)
    ensures Bounded(ForceSingleton(tag, w, true).val, b)
    ensures Descend(ForceSingleton(tag, w, true).val, doc, raiseErrors, b) == ToDict(w[0], doc, raiseErrors)
  {
    assert w[0] in w;
    if |w| == 1 {
      assert w == [w[0]];
    }
  }

  /** A key that no authority in `auths` has is not the key of the last one
      nor of any before it. */
  lemma FrontAvoids(auths: seq<Option<string>>, k: string)
    requires auths != [] && forall a :: a in auths ==> AuthorityKey("subject", a) != k
    ensures AuthorityKey("subject", auths[|auths| - 1]) != k
    ensures forall a :: a in auths[..|auths| - 1] ==> AuthorityKey("subject", a) != k
  {
    assert auths[|auths| - 1] in auths;
    assert forall a :: a in auths[..|auths| - 1] ==> a in auths;
  }

  /** An authority other than the last is among those before it, and its
      key is not the last one's. */
  lemma FrontHas(auths: seq<Option<string>>, a: Option<string>)
    requires a in auths && a != auths[|auths| - 1]
    ensures a in auths[..|auths| - 1]
    ensures AuthorityKey("subject", a) != AuthorityKey("subject", auths[|auths| - 1])
  {
    assert auths == auths[..|auths| - 1] + [auths[|auths| - 1]];
    AuthorityKeyInjective("subject", a, auths[|auths| - 1]);
  }

  /** The authorities before the last are among all of them. */
  lemma FrontMembers(g: Group, auths: seq<Option<string>>)
    requires auths != [] && forall a :: a in auths ==> WithAttr(g, "authority", a) != []
    ensures auths[|auths| - 1] in auths && WithAttr(g, "authority", auths[|auths| - 1]) != []
    ensures forall a :: a in auths[..|auths| - 1] ==> a in auths && WithAttr(g, "authority", a) != []
  {
    assert auths[|auths| - 1] in auths;
    assert forall a :: a in auths[..|auths| - 1] ==> a in auths;
  }

  /** One authority's record, after the authorities before it. */
  lemma SubjectsStep(value: Record, tag: string, g: Group, auths: seq<Option<string>>, doc: Element, raiseErrors: bool, b: nat)
    requires Bounded(g, b) && auths != []
    requires Subjects(value, tag, g, auths, doc, raiseErrors, b).Ok?
    ensures Subjects(value, tag, g, auths[..|auths| - 1], doc, raiseErrors, b).Ok?
    ensures Bounded(ForceSingleton(tag, WithAttr(g, "authority", auths[|auths| - 1]), true).val, b)
    ensures var f := ForceSingleton(tag, WithAttr(g, "authority", auths[|auths| - 1]), true).val;
      && Descend(f, doc, raiseErrors, b).Ok?
      && Subjects(value, tag, g, auths, doc, raiseErrors, b).value.val
         == Put(Subjects(value, tag, g, auths[..|auths| - 1], doc, raiseErrors, b).value.val,
                AuthorityKey("subject", auths[|auths| - 1]), Rec(Descend(f, doc, raiseErrors, b).value.val))
  {
  }

  /** The key of each authority in `auths` with a member holds the record of
      its first member. */
  lemma {:induction false} SubjectsHas(value: Record, tag: string, g: Group, auths: seq<Option<string>>, doc: Element, raiseErrors: bool, b: nat, a: Option<string>)
    requires Bounded(g, b) && Subjects(value, tag, g, auths, doc, raiseErrors, b).Ok?
    requires a in auths && WithAttr(g, "authority", a) != []
    ensures ToDict(WithAttr(g, "authority", a)[0], doc, raiseErrors).Ok?
    ensures Get(Subjects(value, tag, g, auths, doc, raiseErrors, b).value.val, AuthorityKey("subject", a))
      == Some(Rec(ToDict(WithAttr(g, "authority", a)[0], doc, raiseErrors).value.val))
    decreases |auths|
  {
    var m := |auths| - 1;
    var front, last := auths[..m], auths[m];
    SubjectsStep(value, tag, g, auths, doc, raiseErrors, b);
    var acc := Subjects(value, tag, g, front, doc, raiseErrors, b).value.val;
    var d := Descend(ForceSingleton(tag, WithAttr(g, "authority", last), true).val, doc, raiseErrors, b);
    if a == last {
      DescendForced(tag, WithAttr(g, "authority", a), doc, raiseErrors, b);
    } else {
      FrontHas(auths, a);
      SubjectsHas(value, tag, g, front, doc, raiseErrors, b, a);
    }
    PutGet(acc, AuthorityKey("subject", last), Rec(d.value.val), AuthorityKey("subject", a));
  }

  /** A key that no authority in `auths` has keeps its value. */
  lemma {:induction false} SubjectsOther(value: Record, tag: string, g: Group, auths: seq<Option<string>>, doc: Element, raiseErrors: bool, b: nat, k: string)
    requires Bounded(g, b) && Subjects(value, tag, g, auths, doc, raiseErrors, b).Ok?
    requires forall a :: a in auths ==> AuthorityKey("subject", a) != k
    ensures Get(Subjects(value, tag, g, auths, doc, raiseErrors, b).value.val, k) == Get(value, k)
    decreases |auths|
  {
    if auths != [] {
      var m := |auths| - 1;
      var front, last := auths[..m], auths[m];
      FrontAvoids(auths, k);
      SubjectsStep(value, tag, g, auths, doc, raiseErrors, b);
      SubjectsOther(value, tag, g, front, doc, raiseErrors, b, k);
      var acc := Subjects(value, tag, g, front, doc, raiseErrors, b).value.val;
      var d := Descend(ForceSingleton(tag, WithAttr(g, "authority", last), true).val, doc, raiseErrors, b);
      PutGet(acc, AuthorityKey("subject", last), Rec(d.value.val), k);
    }
  }

  /** With every authority in `auths` having a member, the loop fails only
      with the error of some authority's first member. */
  lemma {:induction false} SubjectsErr(value: Record, tag: string, g: Group, auths: seq<Option<string>>, doc: Element, raiseErrors: bool, b: nat)
    requires Bounded(g, b) && Subjects(value, tag, g, auths, doc, raiseErrors, b).Err?
    requires forall a :: a in auths ==> WithAttr(g, "authority", a) != []
    ensures exists a :: (a in auths && WithAttr(g, "authority", a) != [] &&
      ToDict(WithAttr(g, "authority", a)[0], doc, raiseErrors) == Err(Subjects(value, tag, g, auths, doc, raiseErrors, b).error))
    decreases |auths|
  {
    var m := |auths| - 1;
    var front, last := auths[..m], auths[m];
    FrontMembers(g, auths);
    var acc := Subjects(value, tag, g, front, doc, raiseErrors, b);
    if acc.Err? {
      SubjectsErr(value, tag, g, front, doc, raiseErrors, b);
      var a :| a in front && WithAttr(g, "authority", a) != [] &&
        ToDict(WithAttr(g, "authority", a)[0], doc, raiseErrors) == Err(acc.error);
    } else {
      DescendForced(tag, WithAttr(g, "authority", last), doc, raiseErrors, b);
    }
  }

  /** `subject`: the key of each member's authority (plain `subject` for a
      member without one) holds the record of the first member with that
      authority. */
  lemma SubjectGet(value: Record, tag: string, g: Group, doc: Element, raiseErrors: bool, b: nat, e: Element)
    requires Bounded(g, b) && e in g
    requires Subjects(value, tag, g, FirstSeen(AttrValues(g, "authority")), doc, raiseErrors, b).Ok?
    ensures WithAttr(g, "authority", Attr(e, "authority")) != []
    ensures ToDict(WithAttr(g, "authority", Attr(e, "authority"))[0], doc, raiseErrors).Ok?
    ensures Get(Subjects(value, tag, g, FirstSeen(AttrValues(g, "authority")), doc, raiseErrors, b).value.val,
                AuthorityKey("subject", Attr(e, "authority")))
      == Some(Rec(ToDict(WithAttr(g, "authority", Attr(e, "authority"))[0], doc, raiseErrors).value.val))
  {
    AuthoritiesVisited(g, Attr(e, "authority"));
    SubjectsHas(value, tag, g, FirstSeen(AttrValues(g, "authority")), doc, raiseErrors, b, Attr(e, "authority"));
  }

  /** `subject` changes no key other than its members' authority keys. */
  lemma SubjectOther(value: Record, tag: string, g: Group, doc: Element, raiseErrors: bool, b: nat, k: string)
    requires Bounded(g, b) && !AuthorityKeyOf("subject", g, k)
    requires Subjects(value, tag, g, FirstSeen(AttrValues(g, "authority")), doc, raiseErrors, b).Ok?
    ensures Get(Subjects(value, tag, g, FirstSeen(AttrValues(g, "authority")), doc, raiseErrors, b).value.val, k) == Get(value, k)
  {
    var auths := FirstSeen(AttrValues(g, "authority"));
    forall a | a in auths
      ensures AuthorityKey("subject", a) != k
    {
      AuthoritiesVisited(g, a);
    }
    SubjectsOther(value, tag, g, auths, doc, raiseErrors, b, k);
  }

  /** `subject` fails only with the error of the first member of some
      authority. */
  lemma SubjectErr(value: Record, tag: string, g: Group, doc: Element, raiseErrors: bool, b: nat)
    requires Bounded(g, b)
    requires Subjects(value, tag, g, FirstSeen(AttrValues(g, "authority")), doc, raiseErrors, b).Err?
    ensures exists e :: (e in g && WithAttr(g, "authority", Attr(e, "authority")) != [] &&
      ToDict(WithAttr(g, "authority", Attr(e, "authority"))[0], doc, raiseErrors)
        == Err(Subjects(value, tag, g, FirstSeen(AttrValues(g, "authority")), doc, raiseErrors, b).error))
  {
    var auths := FirstSeen(AttrValues(g, "authority"));
    forall a | a in auths
      ensures WithAttr(g, "authority", a) != []
    {
      AuthoritiesVisited(g, a);
    }
    SubjectsErr(value, tag, g, auths, doc, raiseErrors, b);
    var a :| a in auths && WithAttr(g, "authority", a) != [] &&
      ToDict(WithAttr(g, "authority", a)[0], doc, raiseErrors) == Err(Subjects(value, tag, g, auths, doc, raiseErrors, b).error);
    AuthoritiesVisited(g, a);
    var e :| e in g && Attr(e, "authority") == a;
  }
}
