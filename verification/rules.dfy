/** The per-tag rules of `mods_to_dict`, `mets_to_dict` and `alto_to_dict`
    that do not descend into another element. Each takes the record built so
    far (`value`) and returns it with the tag's keys assigned; rules that can
    warn also return their warnings. */
module Rules {
  import opened Wrappers
  import opened Strings
  import opened Dicts
  import opened Xml
  import opened Values
  import opened TagGroups

  /** `text()`, whose default separator is a newline. */
  function TextOf(g: Group): string { Text(g, "\n") }

  /** The text of a one-member group is that member's text (`''` for none). */
  lemma TextOfOne(e: Element)
    ensures TextOf([e]) == TextOrEmpty(e)
  {
    assert [e][..0] == [];
    assert Text([e], "\n") == TextStep(Text([], "\n"), e, "\n");
  }

  function UnknownTag(tag: string): Exception { ValueError("Unknown tag \"" + tag + "\"") }

  /** A rule that emits no warning, lifted to the common result type. */
  function Quiet(r: Result<Record>): Result<Out<Record>> {
    match r
    case Ok(v) => Ok(Out(v, []))
    case Err(x) => Err(x)
  }

  /** The `e.attrib.get(name)` of every member, in order. */
  function AttrValues(g: Group, name: string): (r: seq<Option<string>>)
    ensures |r| == |g|
    ensures forall i :: 0 <= i < |g| ==> r[i] == Attr(g[i], name)
  {
    seq(|g|, i requires 0 <= i < |g| => Attr(g[i], name))
  }

  /** `[e for e in group if e.attrib.get(name) == a]`. */
  function WithAttr(g: Group, name: string, a: Option<string>): (r: Group)
    ensures |r| <= |g|
    ensures forall x :: x in r <==> x in g && Attr(x, name) == a
  {
    if g == [] then []
    else WithAttr(g[..|g| - 1], name, a) + (if Attr(g[|g| - 1], name) == a then [g[|g| - 1]] else [])
  }

  /** The members of a set comprehension in the order a loop over it visits
      them, taken here as the order of first occurrence. */
  function FirstSeen<T(==,!new)>(s: seq<T>): (r: seq<T>)
    ensures Distinct(r)
    ensures forall x :: x in r <==> x in s
  {
    if s == [] then []
    else
      var r := FirstSeen(s[..|s| - 1]);
      if s[|s| - 1] in r then r else r + [s[|s| - 1]]
  }

  // ------------------------------------------------------------ text rules

  /** `is_singleton().has_attributes(allowed).text()`. */
  function SingletonText(value: Record, key: string, g: Group, allowed: seq<map<QName, string>>): (r: Result<Record>)
    ensures r.Ok? <==> |g| == 1 && ToMap(g[0].attrib) in allowed
    ensures r.Ok? ==> r.value == Put(value, key, Str(TextOrEmpty(g[0])))
    ensures r.Err? ==> r.error.ValueError?
  {
    var s :- IsSingleton(g);
    assert s == [g[0]];
    var h :- HasAttributes(s, allowed);
    TextOfOne(g[0]);
    Ok(Put(value, key, Str(TextOf(h))))
  }

  /** `is_singleton().has_no_attributes().text()`. */
  function PlainText(value: Record, key: string, g: Group): (r: Result<Record>)
    ensures r.Ok? <==> |g| == 1 && g[0].attrib == []
    ensures r.Ok? ==> r.value == Put(value, key, Str(TextOrEmpty(g[0])))
    ensures r.Err? ==> r.error.ValueError?
  {
    if |g| == 1 then
      ToMapEmpty(g[0].attrib);
      SingletonText(value, key, g, [map[]])
    else SingletonText(value, key, g, [map[]])
  }

  /** `force_singleton(warn).has_no_attributes().text()`: the first member
      stands for the group. */
  function ForcedText(value: Record, key: string, tag: string, g: Group, warn: bool): (r: Result<Out<Record>>)
  {
    var f := ForceSingleton(tag, g, warn);
    var h :- HasNoAttributes(f.val);
    Ok(Out(Put(value, key, Str(TextOf(h))), f.warnings))
  }

  predicate NoDisplayLabel(e: Element) { Attr(e, "displayLabel").None? }

  /** `physicalLocation`: the members without `displayLabel`, texts joined. */
  function PhysicalLocation(value: Record, tag: string, g: Group): Record {
    Put(value, "physicalLocation", Str(TextOf(Filter(tag, g, NoDisplayLabel, None).val)))
  }

  /** `shelfLocator`: the members without `displayLabel`, forced to one. */
  function ShelfLocator(value: Record, tag: string, g: Group): Result<Out<Record>> {
    ForcedText(value, "shelfLocator", tag, Filter(tag, g, NoDisplayLabel, None).val, true)
  }

  /** `dateIssued` and `dateCreated`: the fixed dates, `keyDate="yes"` first,
      forced to one. */
  function KeyDateText(value: Record, key: string, tag: string, g: Group): (r: Out<Record>)
  {
    var d := FixDate(g);
    var f := ForceSingleton(tag, SortByFlag(d.val, KeyDate, true), true);
    Out(Put(value, key, Str(TextOf(f.val))), d.warnings + f.warnings)
  }

  /** `dateCaptured` and `dateOther`: the fixed dates must be exactly one. */
  function SingleDateText(value: Record, key: string, g: Group): (r: Result<Out<Record>>)
  {
    var d := FixDate(g);
    var s :- IsSingleton(d.val);
    Ok(Out(Put(value, key, Str(TextOf(s))), d.warnings))
  }

  /** `has_no_attributes().text()` (`abstract`). */
  function AllText(value: Record, key: string, g: Group): Result<Record> {
    var h :- HasNoAttributes(g);
    Ok(Put(value, key, Str(TextOf(h))))
  }

  /** `has_attributes(m).text_set()` (`languageTerm`, `roleTerm`). */
  function CodeSet(value: Record, key: string, g: Group, m: map<QName, string>): (r: Result<Record>)
    ensures r.Ok? <==> forall e :: e in g ==> ToMap(e.attrib) == m
    ensures r.Ok? ==> r.value == Put(value, key, Set(TextSet(g)))
  {
    var h :- HasAttribute(g, m);
    Ok(Put(value, key, Set(TextSet(h))))
  }

  const ISO639 := Attrs([("authority", "iso639-2b"), ("type", "code")])
  const MARCRELATOR := Attrs([("authority", "marcrelator"), ("type", "code")])
  const ISO15924 := Attrs([("authority", "iso15924"), ("type", "code")])

  /** `scriptTerm`: the authority is lower-cased first, then every member must
      be an ISO 15924 code. */
  function ScriptTerm(value: Record, g: Group): (r: Result<Out<Record>>)
  {
    var f :- FixScriptTerm(g);
    var h :- HasAttribute(f.val, ISO15924);
    Ok(Out(Put(value, "scriptTerm", Set(TextSet(h))), f.warnings))
  }

  // ------------------------------------------------------ identifier rules

  const GBV_PPN := Attrs([("source", "gbv-ppn")])
  const DNB_PPN := Attrs([("source", "dnb-ppn")])

  /** `recordIdentifier`: a single `gbv-ppn` identifier is the record
      identifier; otherwise the ValueError is caught and a single `dnb-ppn`
      one is stored under its own key. */
  function RecordIdentifier(value: Record, g: Group): (r: Result<Record>)
    ensures r.Ok? <==> |g| == 1 && (ToMap(g[0].attrib) == GBV_PPN || ToMap(g[0].attrib) == DNB_PPN)
    ensures |g| == 1 && ToMap(g[0].attrib) == GBV_PPN ==>
      r == Ok(Put(value, "recordIdentifier", Str(TextOrEmpty(g[0]))))
    ensures |g| == 1 && ToMap(g[0].attrib) == DNB_PPN ==>
      r == Ok(Put(value, "recordIdentifier-dnb-ppn", Str(TextOrEmpty(g[0]))))
    ensures r.Err? ==> r.error.ValueError?
  {
    var first := SingletonText(value, "recordIdentifier", g, [GBV_PPN]);
    if first.Ok? then first else SingletonText(value, "recordIdentifier-dnb-ppn", g, [DNB_PPN])
  }

  /** `identifier`: each member must carry exactly one attribute, `type`,
      and its text goes under `identifier-<type>`. */
  function Identifiers(value: Record, g: Group): Result<Record>
  {
    if g == [] then Ok(value)
    else
      var acc :- Identifiers(value, g[..|g| - 1]);
      var e := g[|g| - 1];
      if |e.attrib| != 1 then Err(ValueError("Unknown attributes for identifier"))
      else match Attr(e, "type")
        case None => Err(KeyError("type"))
        case Some(t) => Ok(Put(acc, "identifier-" + t, OfText(e.text)))
  }

  /** `not e.attrib.get(name)`: the attribute is missing or empty. */
  predicate Blank(a: Option<string>) { a.None? || a.value == "" }

  /** `namePart`: an untyped member's text goes under `namePart`, a typed
      one's under `namePart-<type>`. */
  function NameParts(value: Record, g: Group): Record
  {
    if g == [] then value
    else
      var e := g[|g| - 1];
      var a := Attr(e, "type");
      Put(NameParts(value, g[..|g| - 1]), if Blank(a) then "namePart" else "namePart-" + a.value, OfText(e.text))
  }

  /** `accessCondition`: every member needs a non-empty `type`, and its text
      goes under `accessCondition-<type>`. */
  function AccessConditions(value: Record, g: Group): Result<Record>
  {
    if g == [] then Ok(value)
    else
      var acc :- AccessConditions(value, g[..|g| - 1]);
      var e := g[|g| - 1];
      var a := Attr(e, "type");
      if Blank(a) then Err(ValueError("Unknown attributes for accessCondition"))
      else Ok(Put(acc, "accessCondition-" + a.value, OfText(e.text)))
  }

  // ------------------------------------------------------- authority rules

  /** The key an authority is stored under: `<prefix>-<authority>`, or the
      bare prefix when there is none. */
  function AuthorityKey(prefix: string, a: Option<string>): string {
    if a.Some? then prefix + "-" + a.value else prefix
  }

  /** `classification`: every member needs an `authority` (KeyError
      otherwise), and each authority gets the set of its members' texts. */
  function Classification(value: Record, g: Group): Result<Record>
  {
    if exists e :: e in g && Attr(e, "authority").None? then Err(KeyError("authority"))
    else Ok(ClassificationSets(value, g, FirstSeen(Authorities(g))))
  }

  /** `e.attrib['authority']` of every member, in order. */
  function Authorities(g: Group): (r: seq<string>)
    requires forall e :: e in g ==> Attr(e, "authority").Some?
    ensures |r| == |g|
    ensures forall i :: 0 <= i < |g| ==> Some(r[i]) == Attr(g[i], "authority")
  {
    seq(|g|, i requires 0 <= i < |g| => Attr(g[i], "authority").value)
  }

  function ClassificationSets(value: Record, g: Group, auths: seq<string>): Record
  {
    if auths == [] then value
    else
      var a := auths[|auths| - 1];
      Put(ClassificationSets(value, g, auths[..|auths| - 1]), AuthorityKey("classification", Some(a)),
          Set(TextSet(WithAttr(g, "authority", Some(a)))))
  }

  /** `genre`: per authority (or none), the set of the members' texts. */
  function Genre(value: Record, g: Group): Record {
    GenreSets(value, g, FirstSeen(AttrValues(g, "authority")))
  }

  function GenreSets(value: Record, g: Group, auths: seq<Option<string>>): Record
  {
    if auths == [] then value
    else
      var a := auths[|auths| - 1];
      Put(GenreSets(value, g, auths[..|auths| - 1]), AuthorityKey("genre", a), Set(TextSet(WithAttr(g, "authority", a))))
  }

  // ----------------------------------------------------------- set merging

  /** The keys of all sub-dictionaries, each once. */
  function AllKeys(ds: seq<Record>): seq<string>
  {
    if ds == [] then [] else AllKeys(ds[..|ds| - 1]) + Keys(ds[|ds| - 1])
  }

  function SubTags(ds: seq<Record>): seq<string> { FirstSeen(AllKeys(ds)) }

  const UNHASHABLE := TypeError("unhashable type: 'dict'")

  /** The set `merge_sub_tags_to_set` builds for one key: every truthy value
      is added, a set by its members; a truthy dictionary cannot be added. */
  function MergeValues(ds: seq<Record>, k: string): Result<set<Value>>
  {
    if ds == [] then Ok({})
    else
      var s :- MergeValues(ds[..|ds| - 1], k);
      match Get(ds[|ds| - 1], k)
      case None => Ok(s)
      case Some(v) =>
        if !Truthy(v) then Ok(s)
        else if v.Set? then Ok(s + v.items)
        else if v.Rec? then Err(UNHASHABLE)
        else Ok(s + {v})
  }

  /** The merged dictionary, one set per key. */
  function MergeAll(ds: seq<Record>, tags: seq<string>): Result<Record>
  {
    if tags == [] then Ok([])
    else
      var acc :- MergeAll(ds, tags[..|tags| - 1]);
      var s :- MergeValues(ds, tags[|tags| - 1]);
      Ok(Put(acc, tags[|tags| - 1], Set(s)))
  }

  // ------------------------------------------------------------ METS rules

  /** `f'fileGrp-{use}-count'`. */
  function FileGrpKey(use: string): string { "fileGrp-" + use + "-count" }

  /** `fileGrp`: each file group needs a non-empty `USE` and records how many
      children it has. */
  function FileGroups(value: Record, g: Group): Result<Record>
  {
    if g == [] then Ok(value)
    else
      var acc :- FileGroups(value, g[..|g| - 1]);
      var e := g[|g| - 1];
      var use := Attr(e, "USE");
      if Blank(use) then Err(ValueError("No USE attribute for fileGrp"))
      else Ok(Put(acc, FileGrpKey(use.value), Num(|e.children|)))
  }

  // ------------------------------------------------------------ ALTO rules

  function StrValues(d: Dict<string, string>): (r: Record)
    ensures |r| == |d|
    ensures forall i :: 0 <= i < |d| ==> r[i] == (d[i].0, Str(d[i].1))
  {
    seq(|d|, i requires 0 <= i < |d| => (d[i].0, Str(d[i].1)))
  }

  function NumValues(d: Dict<string, nat>): (r: Record)
    ensures |r| == |d|
    ensures forall i :: 0 <= i < |d| ==> r[i] == (d[i].0, Num(d[i].1))
  {
    seq(|d|, i requires 0 <= i < |d| => (d[i].0, Num(d[i].1)))
  }

  /** `WIDTH` / `HEIGHT`: converted with `int()` in place, or deleted when
      that raises ValueError. */
  function IntField(page: Record, attr: string): Record
  {
    var v := Get(page, attr);
    if v.Some? && v.value.Str? then
      match ParseInt(v.value.s)
      case Some(n) => Put(page, attr, Num(n))
      case None => Remove(page, attr)
    else page
  }

  /** The page's attributes by local name, `WIDTH` and `HEIGHT` converted. */
  function SizedAttributes(g: Group): Record {
    IntField(IntField(Update([], StrValues(Attributes(g))), "WIDTH"), "HEIGHT")
  }

  /** The attributes, updated with the element counts and the `TAGREFS`
      count of the namespace `ns`. */
  function PageOf(doc: Element, g: Group, ns: string): Record {
    Update(Update(SizedAttributes(g), NumValues(SubelementCounts(g))), NumValues(TagrefsCount(doc, g, ns)))
  }

  /** `Page`: the single page's attributes with integer sizes, the element
      counts of its subtree and the `TAGREFS` count over the document. */
  function PageRecord(doc: Element, g: Group): Result<Record>
  {
    var s :- IsSingleton(g);
    Ok(PageOf(doc, s, s[0].tag.ns))
  }

  /** `Tags`: the element counts of the members' subtrees. */
  function TagsRecord(g: Group): Record {
    Update([], NumValues(SubelementCounts(g)))
  }

  // ------------------------------------------------------------ properties

  /** A key `prefix + x` determines `x`. */
  lemma PrefixedKeys(prefix: string, x: string, y: string)
    ensures prefix + x == prefix + y <==> x == y
  {
    if prefix + x == prefix + y {
      assert (prefix + x)[|prefix|..] == x;
      assert (prefix + y)[|prefix|..] == y;
    }
  }

  lemma FileGrpKeyInjective(a: string, c: string)
    ensures FileGrpKey(a) == FileGrpKey(c) <==> a == c
  {
    if FileGrpKey(a) == FileGrpKey(c) {
      assert FileGrpKey(a)[8..|FileGrpKey(a)| - 6] == a;
      assert FileGrpKey(c)[8..|FileGrpKey(c)| - 6] == c;
    }
  }

  /** No later member of `g` has the same value of attribute `name`. */
  predicate LastWith(g: Group, i: nat, name: string)
    requires i < |g|
  {
    forall j :: i < j < |g| ==> Attr(g[j], name) != Attr(g[i], name)
  }

  /** `fileGrp` fails exactly when a member's `USE` is missing or empty. */
  lemma {:induction false} FileGroupsOk(value: Record, g: Group)
    ensures FileGroups(value, g).Ok? <==> forall e :: e in g ==> !Blank(Attr(e, "USE"))
    ensures FileGroups(value, g).Err? ==> FileGroups(value, g).error == ValueError("No USE attribute for fileGrp")
    decreases |g|
  {
    if g != [] {
      Snoc(g);
      FileGroupsOk(value, g[..|g| - 1]);
    }
  }

  /** A member last with its value of `name` in `g` is last in any prefix
      holding it, and differs from the last member. */
  lemma LastWithFront(g: Group, i: nat, name: string)
    requires i < |g| - 1 && LastWith(g, i, name)
    ensures LastWith(g[..|g| - 1], i, name)
    ensures Attr(g[i], name) != Attr(g[|g| - 1], name)
  {
  }

  /** With every `USE` present, every `USE` ends up holding the number of
      children of the last file group with that `USE`. */
  lemma {:induction false} FileGroupsCounts(value: Record, g: Group)
    requires forall i :: 0 <= i < |g| ==> !Blank(Attr(g[i], "USE"))
    ensures FileGroups(value, g).Ok?
    ensures forall i :: 0 <= i < |g| && LastWith(g, i, "USE") ==>
      (Attr(g[i], "USE").Some? &&
       Get(FileGroups(value, g).value, FileGrpKey(Attr(g[i], "USE").value)) == Some(Num(|g[i].children|)))
    decreases |g|
  {
    assert forall e :: e in g ==> !Blank(Attr(e, "USE"));
    FileGroupsOk(value, g);
    if g != [] {
      var n := |g| - 1;
      var front := g[..n];
      Snoc(g);
      FileGroupsCounts(value, front);
      var acc := FileGroups(value, front).value;
      var use := Attr(g[n], "USE").value;
      assert FileGroups(value, g).value == Put(acc, FileGrpKey(use), Num(|g[n].children|));
      forall i | 0 <= i < |g| && LastWith(g, i, "USE")
        ensures Get(FileGroups(value, g).value, FileGrpKey(Attr(g[i], "USE").value)) == Some(Num(|g[i].children|))
      {
        var u := Attr(g[i], "USE").value;
        PutGet(acc, FileGrpKey(use), Num(|g[n].children|), FileGrpKey(u));
        FileGrpKeyInjective(use, u);
        if i < n {
          LastWithFront(g, i, "USE");
          assert front[i] == g[i];
        }
      }
    }
  }

  /** `accessCondition` fails exactly when a member's `type` is missing or
      empty. */
  lemma {:induction false} AccessConditionsOk(value: Record, g: Group)
    ensures AccessConditions(value, g).Ok? <==> forall e :: e in g ==> !Blank(Attr(e, "type"))
    ensures AccessConditions(value, g).Err? ==> AccessConditions(value, g).error == ValueError("Unknown attributes for accessCondition")
    decreases |g|
  {
    if g != [] {
      Snoc(g);
      AccessConditionsOk(value, g[..|g| - 1]);
    }
  }

  /** With every type present, every type holds the text of its last
      member. */
  lemma {:induction false} AccessConditionsValues(value: Record, g: Group)
    requires forall i :: 0 <= i < |g| ==> !Blank(Attr(g[i], "type"))
    ensures AccessConditions(value, g).Ok?
    ensures forall i :: 0 <= i < |g| && LastWith(g, i, "type") ==>
      (Attr(g[i], "type").Some? &&
       Get(AccessConditions(value, g).value, "accessCondition-" + Attr(g[i], "type").value) == Some(OfText(g[i].text)))
    decreases |g|
  {
    assert forall e :: e in g ==> !Blank(Attr(e, "type"));
    AccessConditionsOk(value, g);
    if g != [] {
      var n := |g| - 1;
      var front := g[..n];
      Snoc(g);
      AccessConditionsValues(value, front);
      var acc := AccessConditions(value, front).value;
      var t := Attr(g[n], "type").value;
      assert AccessConditions(value, g).value == Put(acc, "accessCondition-" + t, OfText(g[n].text));
      forall i | 0 <= i < |g| && LastWith(g, i, "type")
        ensures Get(AccessConditions(value, g).value, "accessCondition-" + Attr(g[i], "type").value) == Some(OfText(g[i].text))
      {
        var u := Attr(g[i], "type").value;
        PutGet(acc, "accessCondition-" + t, OfText(g[n].text), "accessCondition-" + u);
        PrefixedKeys("accessCondition-", t, u);
        if i < n {
          LastWithFront(g, i, "type");
          assert front[i] == g[i];
        }
      }
    }
  }

  /** `identifier` fails exactly when a member does not carry exactly one
      attribute (ValueError), or that attribute is not `type` (KeyError). */
  lemma {:induction false} IdentifiersOk(value: Record, g: Group)
    ensures Identifiers(value, g).Ok? <==> forall e :: e in g ==> |e.attrib| == 1 && Attr(e, "type").Some?
    ensures Identifiers(value, g).Err? ==>
      Identifiers(value, g).error in {ValueError("Unknown attributes for identifier"), KeyError("type")}
    decreases |g|
  {
    if g != [] {
      Snoc(g);
      IdentifiersOk(value, g[..|g| - 1]);
    }
  }

  /** Otherwise every type holds the text of its last member. */
  lemma {:induction false} IdentifiersValues(value: Record, g: Group)
    requires forall i :: 0 <= i < |g| ==> |g[i].attrib| == 1 && Attr(g[i], "type").Some?
    ensures Identifiers(value, g).Ok?
    ensures forall i :: 0 <= i < |g| && LastWith(g, i, "type") ==>
      Get(Identifiers(value, g).value, "identifier-" + Attr(g[i], "type").value) == Some(OfText(g[i].text))
    decreases |g|
  {
    assert forall e :: e in g ==> |e.attrib| == 1 && Attr(e, "type").Some?;
    IdentifiersOk(value, g);
    if g != [] {
      var n := |g| - 1;
      var front := g[..n];
      Snoc(g);
      IdentifiersValues(value, front);
      var acc := Identifiers(value, front).value;
      var t := Attr(g[n], "type").value;
      assert Identifiers(value, g).value == Put(acc, "identifier-" + t, OfText(g[n].text));
      forall i | 0 <= i < |g| && LastWith(g, i, "type")
        ensures Get(Identifiers(value, g).value, "identifier-" + Attr(g[i], "type").value) == Some(OfText(g[i].text))
      {
        var u := Attr(g[i], "type").value;
        PutGet(acc, "identifier-" + t, OfText(g[n].text), "identifier-" + u);
        PrefixedKeys("identifier-", t, u);
        if i < n {
          LastWithFront(g, i, "type");
          assert front[i] == g[i];
        }
      }
    }
  }


  // -------------------------------------------------- authority-keyed rules

  /** Different authorities give different keys. */
  lemma AuthorityKeyInjective(prefix: string, a: Option<string>, c: Option<string>)
    ensures AuthorityKey(prefix, a) == AuthorityKey(prefix, c) <==> a == c
  {
    if a.Some? && c.Some? {
      PrefixedKeys(prefix + "-", a.value, c.value);
    } else if a.Some? || c.Some? {
      assert |AuthorityKey(prefix, a)| != |AuthorityKey(prefix, c)|;
    }
  }

  /** `k` is the key of some member's authority. */
  ghost predicate AuthorityKeyOf(prefix: string, g: Group, k: string) {
    exists e :: e in g && AuthorityKey(prefix, Attr(e, "authority")) == k
  }

  /** The authorities the loop visits are exactly the members' ones, and
      each of them has a member. */
  lemma AuthoritiesVisited(g: Group, a: Option<string>)
    ensures a in FirstSeen(AttrValues(g, "authority")) <==> exists e :: e in g && Attr(e, "authority") == a
    ensures a in FirstSeen(AttrValues(g, "authority")) ==> WithAttr(g, "authority", a) != []
  {
    var vs := AttrValues(g, "authority");
    if a in vs {
      var i :| 0 <= i < |vs| && vs[i] == a;
      assert g[i] in g && g[i] in WithAttr(g, "authority", a);
    }
    if exists e :: e in g && Attr(e, "authority") == a {
      var e :| e in g && Attr(e, "authority") == a;
      var i :| 0 <= i < |g| && g[i] == e;
      assert vs[i] == a;
    }
  }

  /** The key of each authority in `auths` holds the set of the texts of
      the members with that authority. */
  lemma {:induction false} GenreSetsHas(value: Record, g: Group, auths: seq<Option<string>>, a: Option<string>)
    requires a in auths
    ensures Get(GenreSets(value, g, auths), AuthorityKey("genre", a)) == Some(Set(TextSet(WithAttr(g, "authority", a))))
    decreases |auths|
  {
    var m := |auths| - 1;
    var front, last := auths[..m], auths[m];
    assert auths == front + [last];
    if a != last {
      GenreSetsHas(value, g, front, a);
      AuthorityKeyInjective("genre", a, last);
    }
    PutGet(GenreSets(value, g, front), AuthorityKey("genre", last), Set(TextSet(WithAttr(g, "authority", last))),
      AuthorityKey("genre", a));
  }

  /** A key that no authority in `auths` has keeps its value. */
  lemma {:induction false} GenreSetsOther(value: Record, g: Group, auths: seq<Option<string>>, k: string)
    requires forall a :: a in auths ==> AuthorityKey("genre", a) != k
    ensures Get(GenreSets(value, g, auths), k) == Get(value, k)
    decreases |auths|
  {
    if auths != [] {
      var m := |auths| - 1;
      var front, last := auths[..m], auths[m];
      assert auths == front + [last];
      GenreSetsOther(value, g, front, k);
      PutGet(GenreSets(value, g, front), AuthorityKey("genre", last), Set(TextSet(WithAttr(g, "authority", last))), k);
    }
  }

  /** `genre`: the key of each member's authority (plain `genre` for a
      member without one) holds the set of the texts of the members with
      that authority, and no other key changes. */
  lemma GenreSpec(value: Record, g: Group)
    ensures forall e :: e in g ==>
      Get(Genre(value, g), AuthorityKey("genre", Attr(e, "authority")))
        == Some(Set(TextSet(WithAttr(g, "authority", Attr(e, "authority")))))
    ensures forall k :: !AuthorityKeyOf("genre", g, k) ==> Get(Genre(value, g), k) == Get(value, k)
  {
    var auths := FirstSeen(AttrValues(g, "authority"));
    forall e | e in g
      ensures Get(Genre(value, g), AuthorityKey("genre", Attr(e, "authority")))
        == Some(Set(TextSet(WithAttr(g, "authority", Attr(e, "authority")))))
    {
      AuthoritiesVisited(g, Attr(e, "authority"));
      GenreSetsHas(value, g, auths, Attr(e, "authority"));
    }
    forall k | !AuthorityKeyOf("genre", g, k)
      ensures Get(Genre(value, g), k) == Get(value, k)
    {
      forall a | a in auths
        ensures AuthorityKey("genre", a) != k
      {
        AuthoritiesVisited(g, a);
      }
      GenreSetsOther(value, g, auths, k);
    }
  }

  /** The key of each authority in `auths` holds the set of the texts of
      the members with that authority. */
  lemma {:induction false} ClassificationSetsHas(value: Record, g: Group, auths: seq<string>, a: string)
    requires a in auths
    ensures Get(ClassificationSets(value, g, auths), AuthorityKey("classification", Some(a))) == Some(Set(TextSet(WithAttr(g, "authority", Some(a)))))
    decreases |auths|
  {
    var m := |auths| - 1;
    var front, last := auths[..m], auths[m];
    assert auths == front + [last];
    if a != last {
      ClassificationSetsHas(value, g, front, a);
      AuthorityKeyInjective("classification", Some(a), Some(last));
    }
    PutGet(ClassificationSets(value, g, front), AuthorityKey("classification", Some(last)), Set(TextSet(WithAttr(g, "authority", Some(last)))),
      AuthorityKey("classification", Some(a)));
  }

  /** A key that no authority in `auths` has keeps its value. */
  lemma {:induction false} ClassificationSetsOther(value: Record, g: Group, auths: seq<string>, k: string)
    requires forall a :: a in auths ==> AuthorityKey("classification", Some(a)) != k
    ensures Get(ClassificationSets(value, g, auths), k) == Get(value, k)
    decreases |auths|
  {
    if auths != [] {
      var m := |auths| - 1;
      var front, last := auths[..m], auths[m];
      assert auths == front + [last];
      ClassificationSetsOther(value, g, front, k);
      PutGet(ClassificationSets(value, g, front), AuthorityKey("classification", Some(last)), Set(TextSet(WithAttr(g, "authority", Some(last)))), k);
    }
  }

  /** With every member carrying an authority, the authorities the loop
      visits are exactly the members' ones. */
  lemma NamedAuthorities(g: Group, a: string)
    requires forall e :: e in g ==> Attr(e, "authority").Some?
    ensures a in FirstSeen(Authorities(g)) <==> exists e :: e in g && Attr(e, "authority") == Some(a)
  {
    var names := Authorities(g);
    if a in names {
      var i :| 0 <= i < |names| && names[i] == a;
      assert g[i] in g;
    }
    if exists e :: e in g && Attr(e, "authority") == Some(a) {
      var e :| e in g && Attr(e, "authority") == Some(a);
      var i :| 0 <= i < |g| && g[i] == e;
      assert names[i] == a;
    }
  }

  /** `classification`: a member without an `authority` is a KeyError;
      otherwise the key of each member's authority holds the set of the
      texts of the members with that authority, and no other key changes. */
  lemma ClassificationSpec(value: Record, g: Group)
    ensures Classification(value, g).Err? <==> exists e :: e in g && Attr(e, "authority").None?
    ensures Classification(value, g).Err? ==> Classification(value, g).error == KeyError("authority")
    ensures Classification(value, g).Ok? ==> forall e :: e in g ==>
      (Attr(e, "authority").Some? &&
       Get(Classification(value, g).value, AuthorityKey("classification", Attr(e, "authority")))
         == Some(Set(TextSet(WithAttr(g, "authority", Attr(e, "authority"))))))
    ensures Classification(value, g).Ok? ==> forall k :: !AuthorityKeyOf("classification", g, k) ==>
      Get(Classification(value, g).value, k) == Get(value, k)
  {
    if Classification(value, g).Ok? {
      assert forall e :: e in g ==> Attr(e, "authority").Some?;
      ClassificationHas(value, g);
      ClassificationOther(value, g);
    }
  }

  lemma ClassificationHas(value: Record, g: Group)
    requires forall e :: e in g ==> Attr(e, "authority").Some?
    ensures forall e :: e in g ==>
      Get(ClassificationSets(value, g, FirstSeen(Authorities(g))), AuthorityKey("classification", Attr(e, "authority")))
        == Some(Set(TextSet(WithAttr(g, "authority", Attr(e, "authority")))))
  {
    forall e | e in g
      ensures Get(ClassificationSets(value, g, FirstSeen(Authorities(g))), AuthorityKey("classification", Attr(e, "authority")))
        == Some(Set(TextSet(WithAttr(g, "authority", Attr(e, "authority")))))
    {
      NamedAuthorities(g, Attr(e, "authority").value);
      ClassificationSetsHas(value, g, FirstSeen(Authorities(g)), Attr(e, "authority").value);
    }
  }

  lemma ClassificationOther(value: Record, g: Group)
    requires forall e :: e in g ==> Attr(e, "authority").Some?
    ensures forall k :: !AuthorityKeyOf("classification", g, k) ==>
      Get(ClassificationSets(value, g, FirstSeen(Authorities(g))), k) == Get(value, k)
  {
    forall k | !AuthorityKeyOf("classification", g, k)
      ensures Get(ClassificationSets(value, g, FirstSeen(Authorities(g))), k) == Get(value, k)
    {
      ClassificationKeyUnused(g, k);
      ClassificationSetsOther(value, g, FirstSeen(Authorities(g)), k);
    }
  }

  lemma ClassificationKeyUnused(g: Group, k: string)
    requires forall e :: e in g ==> Attr(e, "authority").Some?
    requires !AuthorityKeyOf("classification", g, k)
    ensures forall a :: a in FirstSeen(Authorities(g)) ==> AuthorityKey("classification", Some(a)) != k
  {
    forall a | a in FirstSeen(Authorities(g))
      ensures AuthorityKey("classification", Some(a)) != k
    {
      NamedAuthorities(g, a);
      var e :| e in g && Attr(e, "authority") == Some(a);
      assert e in g;
    }
  }

  /** A looked-up value that `merge_sub_tags_to_set` cannot add: a non-empty
      dictionary. */
  predicate Unhashable(o: Option<Value>) { o.Some? && o.value.Rec? && Truthy(o.value) }

  /** What a looked-up value adds to the merged set: nothing if it is falsy,
      its members if it is a set, itself otherwise. */
  predicate Contributes(o: Option<Value>, v: Value) {
    o.Some? && Truthy(o.value) && if o.value.Set? then v in o.value.items else v == o.value
  }

  /** Merging fails exactly when some sub-dictionary holds a non-empty
      dictionary under `k`. */
  lemma {:induction false} MergeValuesErr(ds: seq<Record>, k: string)
    ensures MergeValues(ds, k).Err? <==> exists i :: 0 <= i < |ds| && Unhashable(Get(ds[i], k))
    ensures MergeValues(ds, k).Err? ==> MergeValues(ds, k).error == UNHASHABLE
    decreases |ds|
  {
    if ds != [] {
      var n := |ds| - 1;
      MergeValuesErr(ds[..n], k);
      assert forall i :: 0 <= i < n ==> ds[..n][i] == ds[i];
    }
  }

  /** When it succeeds, the set holds exactly the values some record
      contributes under `k`. */
  lemma {:induction false} MergeValuesMembers(ds: seq<Record>, k: string)
    requires MergeValues(ds, k).Ok?
    ensures forall v :: v in MergeValues(ds, k).value <==>
      exists i :: 0 <= i < |ds| && Contributes(Get(ds[i], k), v)
    decreases |ds|
  {
    if ds != [] {
      var n := |ds| - 1;
      var front := ds[..n];
      MergeValuesMembers(front, k);
      assert forall i :: 0 <= i < n ==> front[i] == ds[i];
      var r := MergeValues(ds, k);
      forall v
        ensures v in r.value <==> exists i :: 0 <= i < |ds| && Contributes(Get(ds[i], k), v)
      {
        if v in r.value && !(v in MergeValues(front, k).value) {
          assert Contributes(Get(ds[n], k), v);
        }
      }
    }
  }


  /** A key is among the sub-tags exactly when some sub-dictionary has it. */
  lemma {:induction false} AllKeysMembers(ds: seq<Record>, k: string)
    ensures k in AllKeys(ds) <==> exists i :: 0 <= i < |ds| && k in Keys(ds[i])
    decreases |ds|
  {
    if ds != [] {
      var n := |ds| - 1;
      AllKeysMembers(ds[..n], k);
      if k in AllKeys(ds[..n]) {
        var i :| 0 <= i < n && k in Keys(ds[..n][i]);
        assert ds[..n][i] == ds[i];
      } else if k in Keys(ds[n]) {
      } else {
        forall i | 0 <= i < |ds| ensures k !in Keys(ds[i]) {
          if i < n {
            assert ds[..n][i] == ds[i];
          }
        }
      }
    }
  }

  /** Merging the sub-dictionaries fails only when one of the keys fails,
      with that key's error. */
  lemma {:induction false} MergeAllErr(ds: seq<Record>, tags: seq<string>)
    requires MergeAll(ds, tags).Err?
    ensures exists i :: 0 <= i < |tags| && MergeValues(ds, tags[i]) == Err(MergeAll(ds, tags).error)
    decreases |tags|
  {
    var n := |tags| - 1;
    var front := tags[..n];
    if MergeAll(ds, front).Err? {
      MergeAllErr(ds, front);
      var i :| 0 <= i < n && MergeValues(ds, front[i]) == Err(MergeAll(ds, front).error);
      assert front[i] == tags[i];
    } else {
      assert MergeValues(ds, tags[n]) == Err(MergeAll(ds, tags).error);
    }
  }

  /** The merged dictionary holds one set per key, the key's merged values,
      and no other key. */
  lemma {:induction false} MergeAllGet(ds: seq<Record>, tags: seq<string>, k: string)
    requires MergeAll(ds, tags).Ok?
    ensures k in tags ==> MergeValues(ds, k).Ok?
    ensures Get(MergeAll(ds, tags).value, k) ==
      if k in tags then Some(Set(MergeValues(ds, k).value)) else None
    decreases |tags|
  {
    if tags != [] {
      var n := |tags| - 1;
      MergeAllGet(ds, tags[..n], k);
      assert tags == tags[..n] + [tags[n]];
      PutGet(MergeAll(ds, tags[..n]).value, tags[n], Set(MergeValues(ds, tags[n]).value), k);
    }
  }

  /** The test with two `language` elements: their `scriptTerm` sets
      {215, 217} and {216} merge into {215, 216, 217}. */
  lemma MergeScriptTermsExample()
    ensures var ds := [[("scriptTerm", Set({Str("215"), Str("217")}))], [("scriptTerm", Set({Str("216")}))]];
      MergeValues(ds, "scriptTerm") == Ok({Str("215"), Str("216"), Str("217")})
  {
    var ds := [[("scriptTerm", Set({Str("215"), Str("217")}))], [("scriptTerm", Set({Str("216")}))]];
    var a, c := {Str("215"), Str("217")}, {Str("216")};
    assert Str("215") in a && Str("216") in c;
    assert ds[..1][..0] == [] && ds[..2][..1] == ds[..1] && ds[..2] == ds;
    assert Get(ds[0], "scriptTerm") == Some(Set(a));
    assert Get(ds[1], "scriptTerm") == Some(Set(c));
    assert MergeValues(ds[..1], "scriptTerm") == Ok({} + a);
    assert MergeValues(ds, "scriptTerm") == Ok({} + a + c);
    assert {} + a + c == {Str("215"), Str("216"), Str("217")};
  }

  /** An optional text as an optional string value. */
  function StrOf(o: Option<string>): Option<Value> {
    match o
    case None => None
    case Some(t) => Some(Str(t))
  }

  /** A `WIDTH` or `HEIGHT` attribute after the `int()` conversion: its
      integer, or gone when it is not an integer literal. */
  function SizeOf(o: Option<string>): Option<Value> {
    match o
    case None => None
    case Some(t) =>
      match ParseInt(t)
      case Some(n) => Some(Num(n))
      case None => None
  }

  lemma {:induction false} StrValuesGet(d: Dict<string, string>, k: string)
    ensures Keys(StrValues(d)) == Keys(d)
    ensures Get(StrValues(d), k) == StrOf(Get(d, k))
    decreases |d|
  {
    if d != [] {
      assert StrValues(d)[1..] == StrValues(d[1..]);
      StrValuesGet(d[1..], k);
    }
  }

  lemma {:induction false} NumValuesGet(d: Dict<string, nat>, k: string)
    ensures Keys(NumValues(d)) == Keys(d)
    ensures Get(NumValues(d), k) == match Get(d, k) case None => None case Some(n) => Some(Num(n))
    decreases |d|
  {
    if d != [] {
      assert NumValues(d)[1..] == NumValues(d[1..]);
      NumValuesGet(d[1..], k);
    }
  }

  /** The counts form a dictionary. */
  lemma {:induction false} CountsOfIsDict(s: seq<Element>)
    ensures IsDict(CountsOf(s))
  {
    if s != [] {
      CountsOfIsDict(s[..|s| - 1]);
      PutKeepsDict<string, nat>(CountsOf(s[..|s| - 1]), CountKey(s[|s| - 1]), CountOf(CountsOf(s[..|s| - 1]), CountKey(s[|s| - 1])) + 1);
    }
  }

  /** The key of a count ends in `-count`. */
  predicate IsCountKey(k: string) { |k| >= 6 && k[|k| - 6..] == "-count" }

  lemma {:induction false} OccurrencesOfOtherKey(s: seq<Element>, k: string)
    requires !IsCountKey(k)
    ensures Occurrences(s, k) == 0
  {
    if s != [] {
      OccurrencesOfOtherKey(s[..|s| - 1], k);
      var x := s[|s| - 1];
      assert CountKey(x)[|CountKey(x)| - 6..] == "-count";
    }
  }

  /** `Get` on the counts as values: the count of every key that occurs. */
  lemma CountValuesGet(g: Group, k: string)
    ensures IsDict(NumValues(SubelementCounts(g)))
    ensures k in Keys(NumValues(SubelementCounts(g))) <==> Occurrences(IterAll(g), k) > 0
    ensures Occurrences(IterAll(g), k) > 0 ==>
      Get(NumValues(SubelementCounts(g)), k) == Some(Num(Occurrences(IterAll(g), k)))
  {
    var c := SubelementCounts(g);
    CountsOfIsDict(IterAll(g));
    NumValuesGet(c, k);
    SubelementCountsExact(g, k);
  }

  /** `IntField` changes the one attribute and nothing else. */
  lemma IntFieldGet(page: Record, a: string, k: string)
    requires IsDict(page)
    requires forall v :: Some(v) == Get(page, a) ==> v.Str?
    ensures IsDict(IntField(page, a))
    ensures Get(IntField(page, a), k) ==
      if k == a then (match Get(page, a) case None => None case Some(v) => SizeOf(Some(v.s))) else Get(page, k)
  {
    var v := Get(page, a);
    PutKeepsDict(page, a, Num(0));
    if v.Some? {
      assert v.value.Str?;
      match ParseInt(v.value.s)
      case Some(n) =>
        PutGet(page, a, Num(n), k);
        PutKeepsDict(page, a, Num(n));
      case None =>
        RemoveSpec(page, a);
    }
  }

  /** The `Page` record: the `TAGREFS` count, then the element counts, then the
      `WIDTH` and `HEIGHT` integers (dropped when not integer literals), then
      the remaining attributes by local name. */
  lemma SizedAttributesGet(g: Group, k: string)
    ensures IsDict(SizedAttributes(g))
    ensures Get(SizedAttributes(g), k) ==
      if k == "WIDTH" || k == "HEIGHT" then SizeOf(Get(Attributes(g), k)) else StrOf(Get(Attributes(g), k))
  {
    var attrs := Attributes(g);
    var p0 := Update([], StrValues(attrs));
    StrValuesGet(attrs, k);
    StrValuesGet(attrs, "WIDTH");
    StrValuesGet(attrs, "HEIGHT");
    FromItemsOfDict(StrValues(attrs));
    assert p0 == StrValues(attrs);
    IntFieldGet(p0, "WIDTH", k);
    IntFieldGet(p0, "WIDTH", "HEIGHT");
    IntFieldGet(IntField(p0, "WIDTH"), "HEIGHT", k);
  }

  /** The page record, key by key: the `TAGREFS` count (once per member),
      then the element counts, then `WIDTH` and `HEIGHT` as integers (dropped
      when not integer literals), then the remaining attributes by local
      name. */
  lemma PageOfGet(doc: Element, g: Group, ns: string, k: string)
    ensures Get(PageOf(doc, g, ns), k) ==
      if k == TAGREFS_XPATH + "-count" then Some(Num(|g| * TaggedStrings(Iter(doc), ns)))
      else if Occurrences(IterAll(g), k) > 0 then Some(Num(Occurrences(IterAll(g), k)))
      else if k == "WIDTH" || k == "HEIGHT" then SizeOf(Get(Attributes(g), k))
      else StrOf(Get(Attributes(g), k))
  {
    var p := SizedAttributes(g);
    SizedAttributesGet(g, k);
    CountValuesGet(g, k);
    var counts := NumValues(SubelementCounts(g));
    UpdateGet(p, counts, k);
    var t := TagrefsCount(doc, g, ns);
    NumValuesGet(t, k);
    UpdateGet(Update(p, counts), NumValues(t), k);
    if k == "WIDTH" || k == "HEIGHT" {
      OccurrencesOfOtherKey(IterAll(g), k);
    }
  }

  /** `Page` succeeds exactly on a single member, and then its record is
      `PageOf` that member (whose keys `PageOfGet` describes); more than one
      instance raises ValueError. */
  lemma PageRecordSpec(doc: Element, g: Group)
    ensures PageRecord(doc, g).Ok? <==> |g| == 1
    ensures |g| == 1 ==> PageRecord(doc, g).value == PageOf(doc, g, g[0].tag.ns)
    ensures PageRecord(doc, g).Err? ==> PageRecord(doc, g).error.ValueError?
  {
  }

  /** `Tags`: exactly the element counts. */
  lemma TagsSpec(g: Group, k: string)
    ensures Get(TagsRecord(g), k) ==
      if Occurrences(IterAll(g), k) > 0 then Some(Num(Occurrences(IterAll(g), k))) else None
  {
    CountValuesGet(g, k);
    UpdateGet([], NumValues(SubelementCounts(g)), k);
  }
}
