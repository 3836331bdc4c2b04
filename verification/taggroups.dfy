/** `TagGroup`: checks and transformations over a run of sibling elements that
    share one tag. Each operation is a function on the group (what the
    converters use), and the class `TagGroup` at the end carries the loops of
    the original, each proved to compute its function. Warnings are returned
    instead of being sent to Python's warnings machinery. */
module TagGroups {
  import opened Wrappers
  import opened Strings
  import opened Dicts
  import opened Xml
  import opened Values
  import opened Dates

  /** A result together with the warnings emitted while computing it. */
  datatype Out<T> = Out(val: T, warnings: seq<string>)

  type Group = seq<Element>

  /** Two elements with the same tag and children; the fix-ups change only
      attributes and text. */
  predicate SameShape(a: Element, b: Element) {
    a.tag == b.tag && a.children == b.children
  }

  /** Member by member the same tags and subtrees. */
  predicate SameShapes(a: Group, b: Group) {
    |a| == |b| && forall i :: 0 <= i < |a| ==> SameShape(a[i], b[i])
  }

  /** A group rewritten member by member has the same heights. */
  lemma ShapesBounded(g: Group, h: Group, b: nat)
    requires SameShapes(g, h) && Bounded(g, b)
    ensures Bounded(h, b)
  {
    forall x | x in h
      ensures Height(x) <= b
    {
      var i :| 0 <= i < |h| && h[i] == x;
      assert g[i] in g;
      SameChildrenSameHeight(g[i], x);
    }
  }

  /** A non-empty group is its front followed by its last member. */
  lemma Snoc(g: Group)
    requires g != []
    ensures g == g[..|g| - 1] + [g[|g| - 1]]
  {
  }

  // ---------------------------------------------------------------- checks

  /** `is_singleton`. */
  function IsSingleton(g: Group): (r: Result<Group>)
    ensures r.Ok? <==> |g| == 1
    ensures r.Ok? ==> r.value == g
    ensures r.Err? ==> r.error.ValueError?
  {
    if |g| != 1 then Err(ValueError("More than one instance")) else Ok(g)
  }

  /** `has_attributes(allowed)`: every member's attribute dictionary equals
      (order-insensitively) one of the allowed ones. */
  function HasAttributes(g: Group, allowed: seq<map<QName, string>>): (r: Result<Group>)
    ensures r.Ok? <==> forall e :: e in g ==> ToMap(e.attrib) in allowed
    ensures r.Ok? ==> r.value == g
    ensures r.Err? ==> r.error.ValueError?
  {
    if forall e :: e in g ==> ToMap(e.attrib) in allowed then Ok(g)
    else Err(ValueError("One or more element has unexpected attributes"))
  }

  /** `has_attributes(m)` with a single dictionary: it is wrapped into a list. */
  function HasAttribute(g: Group, m: map<QName, string>): (r: Result<Group>)
    ensures r == HasAttributes(g, [m])
  {
    HasAttributes(g, [m])
  }

  /** `has_no_attributes`. */
  function HasNoAttributes(g: Group): (r: Result<Group>)
    ensures r == HasAttributes(g, [map[]])
  {
    HasAttributes(g, [map[]])
  }

  lemma ToMapEmpty<K, V>(d: Dict<K, V>)
    ensures ToMap(d) == map[] <==> d == []
  {
    if d != [] {
      assert d[0].0 in Keys(d);
      assert d[0].0 in ToMap(d);
    }
  }

  /** `has_no_attributes` succeeds iff no member has any attribute. */
  lemma HasNoAttributesSpec(g: Group)
    ensures HasNoAttributes(g).Ok? <==> forall e :: e in g ==> e.attrib == []
  {
    forall e | e in g {
      ToMapEmpty(e.attrib);
    }
  }

  /** A plain-name attribute dictionary literal such as `{'type': 'text'}`. */
  function Attrs(pairs: seq<(string, string)>): (m: map<QName, string>)
    ensures forall i :: 0 <= i < |pairs| ==> QName("", pairs[i].0) in m
    ensures forall q :: q in m ==> q.ns == ""
  {
    if pairs == [] then map[]
    else Attrs(pairs[..|pairs| - 1])[QName("", pairs[|pairs| - 1].0) := pairs[|pairs| - 1].1]
  }

  // ------------------------------------------------------------- selection

  function FilteredMessage(tag: string, warn: string): string {
    "Filtered " + tag + " element (" + warn + ")"
  }

  /** `if warn:` — no warning for `None` or the empty string. */
  predicate Warns(warn: Option<string>) { warn.Some? && warn.value != "" }

  /** One member of `filter(cond, warn)`: kept if it meets `cond`, otherwise
      dropped with a warning when `warn` asks for one. */
  function FilterStep(tag: string, r: Out<Group>, e: Element, cond: Element -> bool, warn: Option<string>): Out<Group> {
    if cond(e) then Out(r.val + [e], r.warnings)
    else Out(r.val, r.warnings + if Warns(warn) then [FilteredMessage(tag, warn.value)] else [])
  }

  /** `filter(cond, warn)`. */
  function Filter(tag: string, g: Group, cond: Element -> bool, warn: Option<string>): (r: Out<Group>)
    ensures forall x :: x in r.val ==> x in g && cond(x)
    ensures forall x :: x in g && cond(x) ==> x in r.val
    ensures |r.warnings| == if Warns(warn) then |g| - |r.val| else 0
    ensures forall w :: w in r.warnings ==> w == FilteredMessage(tag, warn.value)
  {
    if g == [] then Out([], [])
    else
      Snoc(g);
      FilterStep(tag, Filter(tag, g[..|g| - 1], cond, warn), g[|g| - 1], cond, warn)
  }

  /** Both parts of two results, one after the other. */
  function Cat(p: Out<Group>, q: Out<Group>): Out<Group> {
    Out(p.val + q.val, p.warnings + q.warnings)
  }

  lemma StepCat(tag: string, p: Out<Group>, q: Out<Group>, e: Element, cond: Element -> bool, warn: Option<string>)
    ensures FilterStep(tag, Cat(p, q), e, cond, warn) == Cat(p, FilterStep(tag, q, e, cond, warn))
  {
    if cond(e) {
      assert p.val + q.val + [e] == p.val + (q.val + [e]);
    } else {
      var w := if Warns(warn) then [FilteredMessage(tag, warn.value)] else [];
      assert p.warnings + q.warnings + w == p.warnings + (q.warnings + w);
    }
  }

  /** Filtering distributes over concatenation, so the kept members keep
      their order. */
  lemma {:induction false} FilterAppend(tag: string, a: Group, b: Group, cond: Element -> bool, warn: Option<string>)
    ensures Filter(tag, a + b, cond, warn) == Cat(Filter(tag, a, cond, warn), Filter(tag, b, cond, warn))
    decreases |b|
  {
    if b == [] {
      assert a + b == a;
      var f := Filter(tag, a, cond, warn);
      assert f.val + [] == f.val && f.warnings + [] == f.warnings;
    } else {
      var b', x := b[..|b| - 1], b[|b| - 1];
      FilterAppend(tag, a, b', cond, warn);
      assert (a + b)[..|a + b| - 1] == a + b' && (a + b)[|a + b| - 1] == x;
      StepCat(tag, Filter(tag, a, cond, warn), Filter(tag, b', cond, warn), x, cond, warn);
    }
  }

  /** A group whose members all pass is returned unchanged, without warnings. */
  lemma {:induction false} FilterAllPass(tag: string, g: Group, cond: Element -> bool, warn: Option<string>)
    requires forall x :: x in g ==> cond(x)
    ensures Filter(tag, g, cond, warn) == Out(g, [])
  {
    if g != [] {
      FilterAllPass(tag, g[..|g| - 1], cond, warn);
      Snoc(g);
    }
  }

  function ForcedMessage(tag: string): string { "Forced single instance of " + tag }

  /** `force_singleton(warn)`. */
  function ForceSingleton(tag: string, g: Group, warn: bool): (r: Out<Group>)
    ensures |g| == 1 ==> r == Out(g, [])
    ensures |g| != 1 ==> r.val == (if g == [] then [] else [g[0]])
    ensures |g| != 1 ==> r.warnings == if warn then [ForcedMessage(tag)] else []
  {
    if |g| == 1 then Out(g, [])
    else Out(g[..if g == [] then 0 else 1], if warn then [ForcedMessage(tag)] else [])
  }

  /** After `force_singleton`, `is_singleton` fails only for an empty group,
      and then the group is the first member. */
  lemma ForceThenSingleton(tag: string, g: Group, warn: bool)
    ensures IsSingleton(ForceSingleton(tag, g, warn).val).Ok? <==> g != []
    ensures g != [] ==> ForceSingleton(tag, g, warn).val == [g[0]]
  {
  }

  // ----------------------------------------------------------------- texts

  function TextOrEmpty(e: Element): string {
    match e.text
    case Some(t) => t
    case None => ""
  }

  /** One step of `text()`: the separator goes in whenever something is
      accumulated, even if the member contributes no text. */
  function TextStep(acc: string, e: Element, sep: string): string {
    (if acc != "" then acc + sep else acc) + TextOrEmpty(e)
  }

  /** `text(separator)`. */
  function Text(g: Group, sep: string): string {
    if g == [] then "" else TextStep(Text(g[..|g| - 1], sep), g[|g| - 1], sep)
  }

  function Texts(g: Group): (ts: seq<string>)
    ensures |ts| == |g|
    ensures forall i :: 0 <= i < |g| ==> ts[i] == TextOrEmpty(g[i])
  {
    seq(|g|, i requires 0 <= i < |g| => TextOrEmpty(g[i]))
  }

  lemma {:induction false} JoinSnoc(parts: seq<string>, sep: string)
    requires |parts| >= 2
    ensures Join(parts, sep) == Join(parts[..|parts| - 1], sep) + sep + parts[|parts| - 1]
  {
    if |parts| > 2 {
      JoinSnoc(parts[1..], sep);
      assert parts[1..][..|parts| - 2] == parts[..|parts| - 1][1..];
    }
  }

  /** When every member has a non-empty text, `text(sep)` is `sep.join` of
      the texts. */
  lemma {:induction false} TextIsJoin(g: Group, sep: string)
    requires forall e :: e in g ==> TextOrEmpty(e) != ""
    ensures Text(g, sep) == Join(Texts(g), sep)
  {
    if g != [] {
      var g' := g[..|g| - 1];
      TextIsJoin(g', sep);
      assert Texts(g') == Texts(g)[..|g| - 1];
      if |g| >= 2 {
        JoinSnoc(Texts(g), sep);
        assert g'[0] in g;
        assert Text(g', sep) != "" by {
          TextNonEmpty(g', sep);
        }
      }
    }
  }

  lemma {:induction false} TextNonEmpty(g: Group, sep: string)
    requires g != [] && TextOrEmpty(g[0]) != ""
    ensures Text(g, sep) != ""
  {
    if |g| > 1 {
      TextNonEmpty(g[..|g| - 1], sep);
    }
  }

  /** The quirk of `text()`: a leading member without text adds nothing, but
      one in the middle still adds a separator. */
  lemma TextSkipsOnlyLeadingEmpty(a: Element, none: Element, b: Element, sep: string)
    requires TextOrEmpty(a) != "" && none.text.None? && TextOrEmpty(b) != ""
    ensures Text([none, a], sep) == TextOrEmpty(a)
    ensures Text([a, none, b], sep) == TextOrEmpty(a) + sep + sep + TextOrEmpty(b)
  {
    assert [none, a][..1] == [none] && [none][..0] == [];
    assert Text([none], sep) == "";
    assert [a, none, b][..2] == [a, none];
    assert [a, none][..1] == [a] && [a][..0] == [];
    assert Text([a], sep) == TextOrEmpty(a);
    assert Text([a, none], sep) == TextOrEmpty(a) + sep;
  }

  /** `text_set()`: the set of the members' texts (`None` included). */
  function TextSet(g: Group): (r: set<Value>)
    ensures forall v :: v in r ==> Hashable(v)
    ensures forall e :: e in g ==> OfText(e.text) in r
  {
    set e | e in g :: OfText(e.text)
  }

  /** A text set holds nothing but the members' texts. */
  lemma TextSetExact(g: Group, v: Value)
    ensures v in TextSet(g) <==> exists e :: e in g && OfText(e.text) == v
  {
  }

  // ------------------------------------------------------------ attributes

  /** All attributes of the members in document order, keyed by local name. */
  function AttrItems(g: Group): Dict<string, string> {
    if g == [] then [] else AttrItems(g[..|g| - 1]) + LocalItems(g[|g| - 1])
  }

  /** An element's attributes keyed by local name (`ET.QName(a).localname`),
      in order. */
  function LocalItems(e: Element): (items: Dict<string, string>)
    ensures |items| == |e.attrib|
    ensures forall j :: 0 <= j < |e.attrib| ==> items[j] == (e.attrib[j].0.local, e.attrib[j].1)
  {
    seq(|e.attrib|, j requires 0 <= j < |e.attrib| => (e.attrib[j].0.local, e.attrib[j].1))
  }

  /** `attributes()`: the members' attributes merged by local name. */
  function Attributes(g: Group): (r: Dict<string, string>)
    ensures IsDict(r)
  {
    FromItems(AttrItems(g))
  }

  /** Every merged attribute holds the value of its last occurrence, and only
      local names that occur are keys. */
  lemma AttributesLastWins(g: Group, k: string)
    ensures Get(Attributes(g), k) == LastValue(AttrItems(g), k)
  {
    UpdateKeys([], AttrItems(g), k);
  }

  /** For one element whose attributes carry no namespace, `attributes()`
      gives the element's own attributes, in their order. */
  lemma AttributesOfPlainElement(e: Element)
    requires IsDict(e.attrib)
    requires forall i :: 0 <= i < |e.attrib| ==> e.attrib[i].0.ns == ""
    ensures Attributes([e]) == LocalItems(e)
  {
    LocalItemsDistinct(e);
    assert AttrItems([e]) == LocalItems(e) by {
      assert [e][..0] == [];
    }
    FromItemsOfDict(LocalItems(e));
  }

  lemma LocalItemsDistinct(e: Element)
    requires IsDict(e.attrib)
    requires forall i :: 0 <= i < |e.attrib| ==> e.attrib[i].0.ns == ""
    ensures IsDict(LocalItems(e))
  {
    var items := LocalItems(e);
    forall i, j | 0 <= i < j < |items|
      ensures Keys(items)[i] != Keys(items)[j]
    {
      assert Keys(e.attrib)[i] != Keys(e.attrib)[j];
    }
  }

  // ---------------------------------------------------------------- counts

  function CountKey(x: Element): string { x.tag.local + "-count" }

  /** `counts.get(key, 0)`. */
  function CountOf(counts: Dict<string, nat>, key: string): nat {
    match Get(counts, key)
    case Some(n) => n
    case None => 0
  }

  /** `counts[key] = counts.get(key, 0) + 1`. */
  function Bump(counts: Dict<string, nat>, key: string): Dict<string, nat> {
    Put<string, nat>(counts, key, CountOf(counts, key) + 1)
  }

  lemma BumpGet(counts: Dict<string, nat>, key: string, other: string)
    ensures CountOf(Bump(counts, key), other) == CountOf(counts, other) + if other == key then 1 else 0
    ensures Get(Bump(counts, key), other).Some? <==> other == key || Get(counts, other).Some?
  {
    PutGet<string, nat>(counts, key, CountOf(counts, key) + 1, other);
  }

  /** The counts over a traversal, element after element. */
  function CountsOf(s: seq<Element>): Dict<string, nat> {
    if s == [] then [] else Bump(CountsOf(s[..|s| - 1]), CountKey(s[|s| - 1]))
  }

  /** `subelement_counts()`: per local name, the number of elements in the
      members' subtrees, the members themselves included. */
  function SubelementCounts(g: Group): Dict<string, nat> {
    CountsOf(IterAll(g))
  }

  /** How many elements of `s` have the local name that `key` counts. */
  function Occurrences(s: seq<Element>, key: string): (n: nat)
    ensures n <= |s|
  {
    if s == [] then 0
    else Occurrences(s[..|s| - 1], key) + (if CountKey(s[|s| - 1]) == key then 1 else 0)
  }

  /** Each count is exactly the number of elements of that local name, and a
      name that does not occur has no key. */
  lemma {:induction false} CountsExact(s: seq<Element>, key: string)
    ensures CountOf(CountsOf(s), key) == Occurrences(s, key)
    ensures Get(CountsOf(s), key).Some? <==> Occurrences(s, key) > 0
  {
    if s != [] {
      var s' := s[..|s| - 1];
      CountsExact(s', key);
      var k := CountKey(s[|s| - 1]);
      BumpGet(CountsOf(s'), k, key);
    }
  }

  lemma SubelementCountsExact(g: Group, key: string)
    ensures CountOf(SubelementCounts(g), key) == Occurrences(IterAll(g), key)
    ensures Get(SubelementCounts(g), key).Some? <==> Occurrences(IterAll(g), key) > 0
  {
    CountsExact(IterAll(g), key);
  }

  /** The expression `xpath_count` is used with, and the key it yields. */
  const TAGREFS_XPATH := "//alto:String[@TAGREFS]"

  /** An ALTO `String` element (in the namespace `ns`) with a `TAGREFS`
      attribute. */
  predicate IsTaggedString(x: Element, ns: string) {
    x.tag == QName(ns, "String") && QName("", "TAGREFS") in Keys(x.attrib)
  }

  function TaggedStrings(s: seq<Element>, ns: string): (n: nat)
    ensures n <= |s|
  {
    if s == [] then 0
    else TaggedStrings(s[..|s| - 1], ns) + (if IsTaggedString(s[|s| - 1], ns) then 1 else 0)
  }

  /** `xpath_count("//alto:String[@TAGREFS]")`: the absolute path is evaluated
      from the document root once per member, and the matches are added up. */
  function TagrefsCount(doc: Element, g: Group, ns: string): (r: Dict<string, nat>)
    ensures |r| == 1 && r[0].0 == TAGREFS_XPATH + "-count"
    ensures |g| == 1 ==> r[0].1 == TaggedStrings(Iter(doc), ns)
  {
    [(TAGREFS_XPATH + "-count", |g| * TaggedStrings(Iter(doc), ns))]
  }

  // ---------------------------------------------------------------- dates

  const W3CDTF_WARNING := "Changed w3cdtf encoding to iso8601"
  const EMPTY_DATE_WARNING := "Empty date"

  function AddedMessage(t: string): string { "Added iso8601 encoding to date " + t }
  function ConvertedMessage(t: string): string { "Converted date " + t + " to iso8601 encoding" }
  function NotIsoMessage(t: string): string { "Not a iso8601 date: \"" + t + "\"" }

  /** First loop of `fix_date`: `encoding="w3cdtf"` becomes `iso8601`. */
  function Relabel(e: Element): (r: Out<Element>)
    ensures SameShape(r.val, e) && r.val.text == e.text
    ensures SameAttrsExcept(r.val, e, "encoding")
    ensures Attr(r.val, "encoding") != Some("w3cdtf")
    ensures Attr(e, "encoding") == Some("w3cdtf") ==>
      Attr(r.val, "encoding") == Some("iso8601") && r.warnings == [W3CDTF_WARNING]
    ensures Attr(e, "encoding") != Some("w3cdtf") ==> r == Out(e, [])
  {
    if Attr(e, "encoding") == Some("w3cdtf") then
      SetAttrGet(e, "encoding", "iso8601", "encoding");
      SetAttrOthers(e, "encoding", "iso8601");
      Out(SetAttr(e, "encoding", "iso8601"), [W3CDTF_WARNING])
    else Out(e, [])
  }

  /** A date element that `fix_date` passes silently. */
  predicate CanonicalDate(e: Element) {
    e.text.Some? && Attr(e, "encoding") == Some("iso8601") && IsIsoDate(e.text.value)
  }

  /** The text a date keeps: a German date (one that is not also read as an
      ISO date, which is tested first) is rewritten to `yyyy-mm-dd`; any
      other text is kept as it is. */
  function DateText(t: string): string {
    if !IsIsoDate(t) && IsGermanDate(t) then GermanToIso(t) else t
  }

  /** Second loop of `fix_date`, for one member: `None` drops it. A member
      with a text is kept, with its German date rewritten, and its encoding
      becomes `iso8601` iff its text is a date in either form; nothing else
      of it changes. */
  function Classify(e: Element): (r: Out<Option<Element>>)
    ensures r.val.None? <==> e.text.None?
    ensures e.text.None? ==> r.warnings == [EMPTY_DATE_WARNING]
    ensures r.val.Some? ==> SameShape(r.val.value, e) && r.val.value.text == Some(DateText(e.text.value))
    ensures r.val.Some? ==>
      Attr(r.val.value, "encoding") ==
      if IsIsoDate(e.text.value) || IsGermanDate(e.text.value) then Some("iso8601") else Attr(e, "encoding")
    ensures r.val.Some? ==> SameAttrsExcept(r.val.value, e, "encoding")
    ensures |r.warnings| <= 1
    ensures CanonicalDate(e) ==> r.warnings == []
    ensures e.text.Some? && !CanonicalDate(e) ==>
      r.warnings == [if IsIsoDate(e.text.value) then AddedMessage(e.text.value)
                     else if IsGermanDate(e.text.value) then ConvertedMessage(e.text.value)
                     else NotIsoMessage(e.text.value)]
  {
    if e.text.None? then Out(None, [EMPTY_DATE_WARNING])
    else
      var t := e.text.value;
      if Attr(e, "encoding") == Some("iso8601") && IsIsoDate(t) then Out(Some(e), [])
      else if IsIsoDate(t) then
        SetAttrGet(e, "encoding", "iso8601", "encoding");
        SetAttrOthers(e, "encoding", "iso8601");
        Out(Some(SetAttr(e, "encoding", "iso8601")), [AddedMessage(t)])
      else if IsGermanDate(t) then
        SetAttrGet(e.(text := Some(GermanToIso(t))), "encoding", "iso8601", "encoding");
        SetAttrOthers(e.(text := Some(GermanToIso(t))), "encoding", "iso8601");
        Out(Some(SetAttr(e.(text := Some(GermanToIso(t))), "encoding", "iso8601")),
            [ConvertedMessage(t)])
      else Out(Some(e), [NotIsoMessage(t)])
  }

  /** A canonical member passes silently and unchanged; every other member
      with a text draws exactly one warning. */
  lemma ClassifySilence(e: Element)
    ensures CanonicalDate(e) ==> Classify(e) == Out(Some(e), [])
    ensures |Classify(e).warnings| == if CanonicalDate(e) then 0 else 1
  {
  }

  /** A member with an ISO or a German date comes out canonical. */
  lemma ClassifyCanonicalises(e: Element)
    requires e.text.Some? && (IsIsoDate(e.text.value) || IsGermanDate(e.text.value))
    ensures Classify(e).val.Some? && CanonicalDate(Classify(e).val.value)
  {
    var t := e.text.value;
    if Attr(e, "encoding") == Some("iso8601") && IsIsoDate(t) {
    } else if IsIsoDate(t) {
      SetAttrGet(e, "encoding", "iso8601", "encoding");
    } else {
      GermanToIsoIsIso(t);
      SetAttrGet(e.(text := Some(GermanToIso(t))), "encoding", "iso8601", "encoding");
    }
  }

  /** The warnings of the first loop of `fix_date`, member after member. */
  function RelabelWarnings(g: Group): (ws: seq<string>)
    ensures forall w :: w in ws ==> w == W3CDTF_WARNING
  {
    if g == [] then [] else RelabelWarnings(g[..|g| - 1]) + Relabel(g[|g| - 1]).warnings
  }

  /** First loop of `fix_date`, over the whole group. */
  function RelabelAll(g: Group): (r: Out<Group>)
    ensures |r.val| == |g|
    ensures forall i :: 0 <= i < |g| ==> r.val[i] == Relabel(g[i]).val
    ensures r.warnings == RelabelWarnings(g)
  {
    Out(seq(|g|, i requires 0 <= i < |g| => Relabel(g[i]).val), RelabelWarnings(g))
  }

  /** Second loop of `fix_date`: the members that have a text, fixed. */
  function ClassifyAll(g: Group): (r: Out<Group>)
    ensures |r.val| <= |g|
  {
    if g == [] then Out([], [])
    else
      var r := ClassifyAll(g[..|g| - 1]);
      var x := Classify(g[|g| - 1]);
      Out(r.val + (if x.val.Some? then [x.val.value] else []), r.warnings + x.warnings)
  }

  /** `fix_date()`. */
  function FixDate(g: Group): (r: Out<Group>)
  {
    var a := RelabelAll(g);
    var b := ClassifyAll(a.val);
    Out(b.val, a.warnings + b.warnings)
  }

  /** The members that have a text, in order. */
  function Texted(g: Group): (r: Group)
    ensures |r| == WithText(g)
    ensures forall x :: x in r <==> x in g && x.text.Some?
  {
    if g == [] then []
    else
      assert g == g[..|g| - 1] + [g[|g| - 1]];
      Texted(g[..|g| - 1]) + (if g[|g| - 1].text.Some? then [g[|g| - 1]] else [])
  }

  /** The number of members that have a text. */
  function WithText(g: Group): (n: nat)
    ensures n <= |g|
  {
    if g == [] then 0 else WithText(g[..|g| - 1]) + (if g[|g| - 1].text.Some? then 1 else 0)
  }

  /** The second loop keeps, in order, the members that have a text, each
      replaced by its classification. */
  lemma ClassifyAllSpec(g: Group)
    ensures |ClassifyAll(g).val| == |Texted(g)| == WithText(g)
    ensures forall j :: 0 <= j < |Texted(g)| ==> Classify(Texted(g)[j]).val == Some(ClassifyAll(g).val[j])
    ensures forall x :: x in ClassifyAll(g).val ==>
      exists e :: e in g && Classify(e).val.Some? && x == Classify(e).val.value
  {
    ClassifyAllOrder(g);
    ClassifyAllMembers(g);
  }

  lemma ClassifyAllMembers(g: Group)
    ensures forall x :: x in ClassifyAll(g).val ==>
      exists e :: e in g && Classify(e).val.Some? && x == Classify(e).val.value
  {
    ClassifyAllOrder(g);
    forall x | x in ClassifyAll(g).val
      ensures exists e :: e in g && Classify(e).val.Some? && x == Classify(e).val.value
    {
      var j :| 0 <= j < |ClassifyAll(g).val| && ClassifyAll(g).val[j] == x;
      assert Texted(g)[j] in Texted(g);
    }
  }

  lemma {:induction false} ClassifyAllOrder(g: Group)
    ensures |ClassifyAll(g).val| == |Texted(g)|
    ensures forall j :: 0 <= j < |Texted(g)| ==> Classify(Texted(g)[j]).val == Some(ClassifyAll(g).val[j])
  {
    if g != [] {
      var g', e := g[..|g| - 1], g[|g| - 1];
      ClassifyAllOrder(g');
      if e.text.Some? {
        assert Texted(g) == Texted(g') + [e];
        assert ClassifyAll(g).val == ClassifyAll(g').val + [Classify(e).val.value];
      } else {
        assert Texted(g) == Texted(g');
        assert ClassifyAll(g).val == ClassifyAll(g').val;
      }
    }
  }

  /** A member-by-member rewrite `f` that keeps every text: the members with
      a text of the rewritten group are the rewritten members with a text. */
  lemma {:induction false} TextedMap(g: Group, a: Group, f: Element -> Element)
    requires |a| == |g|
    requires forall i :: 0 <= i < |g| ==> a[i] == f(g[i]) && a[i].text == g[i].text
    ensures |Texted(a)| == |Texted(g)|
    ensures forall j :: 0 <= j < |Texted(g)| ==> Texted(a)[j] == f(Texted(g)[j])
  {
    if g != [] {
      var n := |g| - 1;
      var ga, gg := a[..n], g[..n];
      forall i | 0 <= i < n
        ensures ga[i] == f(gg[i]) && ga[i].text == gg[i].text
      {
        assert ga[i] == a[i] && gg[i] == g[i];
      }
      TextedMap(gg, ga, f);
      var ta, tg := Texted(ga), Texted(gg);
      if g[n].text.Some? {
        assert Texted(a) == ta + [a[n]];
        assert Texted(g) == tg + [g[n]];
        forall j | 0 <= j < |Texted(g)|
          ensures Texted(a)[j] == f(Texted(g)[j])
        {
          if j < |tg| {
            assert Texted(a)[j] == ta[j] && Texted(g)[j] == tg[j];
          }
        }
      } else {
        assert Texted(a) == ta;
        assert Texted(g) == tg;
      }
    }
  }

  /** Classification keeps every subtree, hence every height. */
  lemma ClassifyAllBounded(g: Group, b: nat)
    requires Bounded(g, b)
    ensures Bounded(ClassifyAll(g).val, b)
  {
    ClassifyAllMembers(g);
    forall x | x in ClassifyAll(g).val
      ensures Height(x) <= b
    {
      var e :| e in g && Classify(e).val.Some? && x == Classify(e).val.value;
      SameChildrenSameHeight(e, x);
    }
  }

  /** Groups whose members have, position by position, the same texts have
      the same number of members with a text. */
  lemma {:induction false} WithTextSameTexts(a: Group, b: Group)
    requires |a| == |b| && forall i :: 0 <= i < |a| ==> a[i].text == b[i].text
    ensures WithText(a) == WithText(b)
  {
    if a != [] {
      WithTextSameTexts(a[..|a| - 1], b[..|b| - 1]);
    }
  }

  /** `fix_date` keeps exactly the members that have a text, in their order,
      each relabelled and then classified, so that its German date is
      rewritten; it never leaves an encoding `w3cdtf` behind and keeps every
      tag and subtree. */
  lemma FixDateSpec(g: Group)
    ensures |FixDate(g).val| == |Texted(g)| == WithText(g)
    ensures forall j :: 0 <= j < |Texted(g)| ==>
      Classify(Relabel(Texted(g)[j]).val).val == Some(FixDate(g).val[j])
    ensures forall j :: 0 <= j < |Texted(g)| ==>
      FixDate(g).val[j].text == Some(DateText(Texted(g)[j].text.value))
    ensures forall x :: x in FixDate(g).val ==> x.text.Some? && Attr(x, "encoding") != Some("w3cdtf")
    ensures forall b :: Bounded(g, b) ==> Bounded(FixDate(g).val, b)
  {
    FixDateOrder(g);
    FixDateKeeps(g);
  }

  lemma FixDateKeeps(g: Group)
    ensures forall x :: x in FixDate(g).val ==> x.text.Some? && Attr(x, "encoding") != Some("w3cdtf")
    ensures forall b :: Bounded(g, b) ==> Bounded(FixDate(g).val, b)
  {
    var a := RelabelAll(g);
    ClassifyAllMembers(a.val);
    forall x | x in FixDate(g).val
      ensures x.text.Some? && Attr(x, "encoding") != Some("w3cdtf")
    {
      var e :| e in a.val && Classify(e).val.Some? && x == Classify(e).val.value;
      var i :| 0 <= i < |a.val| && a.val[i] == e;
      assert e == Relabel(g[i]).val;
      ClassifyNoW3c(e);
    }
    forall b | Bounded(g, b)
      ensures Bounded(FixDate(g).val, b)
    {
      ShapesBounded(g, a.val, b);
      ClassifyAllBounded(a.val, b);
    }
  }

  /** The members `fix_date` keeps, in order: member `j` of the result is the
      `j`-th member with a text, relabelled and classified. */
  lemma FixDateOrder(g: Group)
    ensures |FixDate(g).val| == |Texted(g)| == WithText(g)
    ensures forall j :: 0 <= j < |Texted(g)| ==>
      Classify(Relabel(Texted(g)[j]).val).val == Some(FixDate(g).val[j])
    ensures forall j :: 0 <= j < |Texted(g)| ==>
      FixDate(g).val[j].text == Some(DateText(Texted(g)[j].text.value))
  {
    var a := RelabelAll(g).val;
    ClassifyAllOrder(a);
    TextedMap(g, a, e => Relabel(e).val);
    forall j | 0 <= j < |Texted(g)|
      ensures FixDate(g).val[j].text == Some(DateText(Texted(g)[j].text.value))
    {
      assert Texted(g)[j] in Texted(g);
    }
  }

  lemma ClassifyNoW3c(e: Element)
    requires Attr(e, "encoding") != Some("w3cdtf") && e.text.Some?
    ensures Attr(Classify(e).val.value, "encoding") != Some("w3cdtf")
  {
    var t := e.text.value;
    if Attr(e, "encoding") == Some("iso8601") && IsIsoDate(t) {
    } else if IsIsoDate(t) {
      SetAttrGet(e, "encoding", "iso8601", "encoding");
    } else if IsGermanDate(t) {
      SetAttrGet(e.(text := Some(GermanToIso(t))), "encoding", "iso8601", "encoding");
    }
  }

  /** On canonical members `fix_date` changes nothing and says nothing. */
  lemma FixDateQuiet(g: Group)
    requires forall e :: e in g ==> CanonicalDate(e)
    ensures FixDate(g) == Out(g, [])
  {
    RelabelQuiet(g);
    ClassifyQuiet(g);
  }

  lemma {:induction false} RelabelWarningsQuiet(g: Group)
    requires forall e :: e in g ==> Attr(e, "encoding") != Some("w3cdtf")
    ensures RelabelWarnings(g) == []
  {
    if g != [] {
      var g' := g[..|g| - 1];
      forall x | x in g'
        ensures Attr(x, "encoding") != Some("w3cdtf")
      {
        assert x in g;
      }
      RelabelWarningsQuiet(g');
      assert g[|g| - 1] in g;
    }
  }

  lemma RelabelQuiet(g: Group)
    requires forall e :: e in g ==> CanonicalDate(e)
    ensures RelabelAll(g) == Out(g, [])
  {
    RelabelWarningsQuiet(g);
    forall i | 0 <= i < |g|
      ensures RelabelAll(g).val[i] == g[i]
    {
      assert g[i] in g;
      assert Relabel(g[i]) == Out(g[i], []);
    }
    assert RelabelAll(g).val == g;
  }

  lemma {:induction false} ClassifyAllKeeps(g: Group)
    requires forall i :: 0 <= i < |g| ==> Classify(g[i]) == Out(Some(g[i]), [])
    ensures ClassifyAll(g) == Out(g, [])
  {
    if g != [] {
      var g', e := g[..|g| - 1], g[|g| - 1];
      assert forall i :: 0 <= i < |g'| ==> g'[i] == g[i];
      ClassifyAllKeeps(g');
      assert ClassifyAll(g) == Out(g' + [e], [] + []);
      Snoc(g);
    }
  }

  lemma ClassifyQuiet(g: Group)
    requires forall e :: e in g ==> CanonicalDate(e)
    ensures ClassifyAll(g) == Out(g, [])
  {
    forall i | 0 <= i < |g|
      ensures Classify(g[i]) == Out(Some(g[i]), [])
    {
      assert g[i] in g;
      ClassifySilence(g[i]);
    }
    ClassifyAllKeeps(g);
  }

  /** A date in one of the two recognised forms. */
  predicate KnownDate(e: Element) {
    e.text.Some? && (IsIsoDate(e.text.value) || IsGermanDate(e.text.value))
  }

  /** After `fix_date`, every member whose text was a date in either form is
      canonical, so applying `fix_date` again is a silent no-op. */
  lemma FixDateIdempotent(g: Group)
    requires forall e :: e in g ==> e.text.None? || KnownDate(e)
    ensures forall x :: x in FixDate(g).val ==> CanonicalDate(x)
    ensures FixDate(FixDate(g).val) == Out(FixDate(g).val, [])
  {
    var a := RelabelAll(g);
    ClassifyAllMembers(a.val);
    forall x | x in FixDate(g).val
      ensures CanonicalDate(x)
    {
      var e :| e in a.val && Classify(e).val.Some? && x == Classify(e).val.value;
      var i :| 0 <= i < |a.val| && a.val[i] == e;
      assert e == Relabel(g[i]).val;
      assert g[i] in g;
      ClassifyCanonicalises(e);
    }
    FixDateQuiet(FixDate(g).val);
  }

  /** The example of the source's comments, end to end. */
  lemma FixDateGermanExample(e: Element)
    requires e.text == Some("06.08.1820") && Attr(e, "encoding").None?
    ensures FixDate([e]).val == [SetAttr(e.(text := Some("1820-08-06")), "encoding", "iso8601")]
    ensures FixDate([e]).warnings == [ConvertedMessage("06.08.1820")]
  {
    GermanExample();
    IsoAndGermanDisjoint("06.08.1820");
    assert [e][..0] == [];
    assert RelabelWarnings([e]) == [];
    assert RelabelAll([e]).val == [e];
    var x := SetAttr(e.(text := Some("1820-08-06")), "encoding", "iso8601");
    assert Classify(e) == Out(Some(x), [ConvertedMessage("06.08.1820")]);
    assert ClassifyAll([e]) == Out([] + [x], [] + [ConvertedMessage("06.08.1820")]);
  }

  // ---------------------------------------------------------- event types

  /** The publisher starts with "Staatsbibliothek zu Berlin" and the edition is
      "[Electronic ed.]"; a missing child or text counts as no match, as the
      AttributeError it raises is swallowed. */
  predicate ElectronicEdition(e: Element) {
    match FindChild(e, QName(MODS, "publisher"))
    case None => false
    case Some(p) =>
      && p.text.Some? && StartsWith(p.text.value, "Staatsbibliothek zu Berlin")
      && match FindChild(e, QName(MODS, "edition"))
         case None => false
         case Some(ed) => ed.text == Some("[Electronic ed.]")
  }

  /** The warning that names the event type `fix_event_type` set. */
  function EventTypeMessage(t: string): string {
    if t == "digitization" then "Fixed eventType for electronic ed."
    else if t == "publication" then "Fixed eventType for an issued origin"
    else "Fixed eventType for a created origin"
  }

  /** `fix_event_type()` for one `originInfo`: only `eventType` may change,
      and a warning, naming the rule that set it, is given exactly when it
      is set. */
  function FixEventTypeOne(e: Element): (r: Out<Element>)
    ensures SameShape(r.val, e) && r.val.text == e.text
    ensures SameAttrsExcept(r.val, e, "eventType")
    ensures Attr(e, "eventType").Some? ==> r == Out(e, [])
    ensures |r.warnings| <= 1
    ensures |r.warnings| == 1 <==> Attr(e, "eventType").None? && Attr(r.val, "eventType").Some?
    ensures |r.warnings| == 1 ==> r.warnings == [EventTypeMessage(Attr(r.val, "eventType").value)]
  {
    if Attr(e, "eventType").Some? then Out(e, [])
    else if ElectronicEdition(e) then
      SetEventType(e, "digitization");
      Out(SetAttr(e, "eventType", "digitization"), [EventTypeMessage("digitization")])
    else if FindChild(e, QName(MODS, "dateIssued")).Some? then
      SetEventType(e, "publication");
      Out(SetAttr(e, "eventType", "publication"), [EventTypeMessage("publication")])
    else if FindChild(e, QName(MODS, "dateCreated")).Some? then
      SetEventType(e, "production");
      Out(SetAttr(e, "eventType", "production"), [EventTypeMessage("production")])
    else Out(e, [])
  }

  lemma SetEventType(e: Element, t: string)
    ensures Attr(SetAttr(e, "eventType", t), "eventType") == Some(t)
    ensures SameAttrsExcept(SetAttr(e, "eventType", t), e, "eventType")
  {
    SetAttrGet(e, "eventType", t, "eventType");
    SetAttrOthers(e, "eventType", t);
  }

  /** An `originInfo` keeps no `eventType` only when none was there and none
      of the three rules applies; a member that had one keeps it. */
  lemma FixEventTypeOneSpec(e: Element)
    ensures Attr(FixEventTypeOne(e).val, "eventType").None? <==>
      Attr(e, "eventType").None? && !ElectronicEdition(e)
      && FindChild(e, QName(MODS, "dateIssued")).None? && FindChild(e, QName(MODS, "dateCreated")).None?
    ensures Attr(e, "eventType").Some? ==> Attr(FixEventTypeOne(e).val, "eventType") == Attr(e, "eventType")
    ensures Attr(e, "eventType").None? && ElectronicEdition(e) ==>
      Attr(FixEventTypeOne(e).val, "eventType") == Some("digitization")
      && FixEventTypeOne(e).warnings == ["Fixed eventType for electronic ed."]
    ensures Attr(e, "eventType").None? && !ElectronicEdition(e) && Issued(e) ==>
      Attr(FixEventTypeOne(e).val, "eventType") == Some("publication")
      && FixEventTypeOne(e).warnings == ["Fixed eventType for an issued origin"]
    ensures Attr(e, "eventType").None? && !ElectronicEdition(e) && !Issued(e) && Created(e) ==>
      Attr(FixEventTypeOne(e).val, "eventType") == Some("production")
      && FixEventTypeOne(e).warnings == ["Fixed eventType for a created origin"]
    ensures Unfixable(e) ==> FixEventTypeOne(e) == Out(e, [])
  {
    if Attr(e, "eventType").Some? {
    } else if ElectronicEdition(e) {
      SetEventType(e, "digitization");
    } else if Issued(e) {
      SetEventType(e, "publication");
    } else if Created(e) {
      SetEventType(e, "production");
    }
  }

  /** The `originInfo` has a `dateIssued`, or a `dateCreated`, child. */
  predicate Issued(e: Element) { FindChild(e, QName(MODS, "dateIssued")).Some? }
  predicate Created(e: Element) { FindChild(e, QName(MODS, "dateCreated")).Some? }

  /** An `originInfo` that `fix_event_type` cannot give an event type: it has
      none, is not an electronic edition and has no `dateIssued` or
      `dateCreated` child. */
  predicate Unfixable(e: Element) {
    && Attr(e, "eventType").None? && !ElectronicEdition(e)
    && FindChild(e, QName(MODS, "dateIssued")).None? && FindChild(e, QName(MODS, "dateCreated")).None?
  }

  /** `fix_event_type` leaves such a group as it is, without warnings. */
  lemma {:induction false} FixEventTypeKeepsUnfixable(g: Group)
    requires forall i :: 0 <= i < |g| ==> Unfixable(g[i])
    ensures FixEventType(g) == Out(g, [])
  {
    forall i | 0 <= i < |g|
      ensures FixEventType(g).val[i] == g[i]
    {
      assert Unfixable(g[i]);
    }
    assert FixEventType(g).val == g;
    if g != [] {
      var n := |g| - 1;
      assert forall i :: 0 <= i < n ==> g[..n][i] == g[i];
      FixEventTypeKeepsUnfixable(g[..n]);
      assert Unfixable(g[n]);
      assert EventTypeWarnings(g) == EventTypeWarnings(g[..n]) + FixEventTypeOne(g[n]).warnings;
    }
  }

  function EventTypeWarnings(g: Group): (ws: seq<string>)
    ensures |ws| <= |g|
  {
    if g == [] then [] else EventTypeWarnings(g[..|g| - 1]) + FixEventTypeOne(g[|g| - 1]).warnings
  }

  /** `fix_event_type()` over the whole group. */
  function FixEventType(g: Group): (r: Out<Group>)
    ensures |r.val| == |g|
    ensures forall i :: 0 <= i < |g| ==> r.val[i] == FixEventTypeOne(g[i]).val
    ensures r.warnings == EventTypeWarnings(g)
  {
    Out(seq(|g|, i requires 0 <= i < |g| => FixEventTypeOne(g[i]).val), EventTypeWarnings(g))
  }

  // ---------------------------------------------------------- script terms

  const SCRIPT_TERM_WARNING := "Changed scriptTerm authority to lower case"

  /** The member after `fix_script_term()`, when it has an `authority`. */
  function ScriptTermFixed(e: Element): (r: Element)
    ensures SameShape(r, e) && r.text == e.text
  {
    if Attr(e, "authority") == Some("ISO15924") then SetAttr(e, "authority", "iso15924") else e
  }

  /** `fix_script_term()` for one member: `authority="ISO15924"` becomes
      lower case; a member without `authority` raises KeyError. */
  function FixScriptTermOne(e: Element): (r: Result<Out<Element>>)
    ensures r.Err? <==> Attr(e, "authority").None?
    ensures r.Err? ==> r.error == KeyError("authority")
    ensures r.Ok? ==> r.value.val == ScriptTermFixed(e)
    ensures r.Ok? ==> r.value.warnings == if Attr(e, "authority") == Some("ISO15924") then [SCRIPT_TERM_WARNING] else []
  {
    match Attr(e, "authority")
    case None => Err(KeyError("authority"))
    case Some(a) =>
      if a == "ISO15924" then Ok(Out(SetAttr(e, "authority", "iso15924"), [SCRIPT_TERM_WARNING]))
      else Ok(Out(e, []))
  }

  /** Only the upper-case `ISO15924` changes, to lower case; every other
      attribute stays. */
  lemma ScriptTermFixedSpec(e: Element, name: string)
    ensures Attr(e, "authority") == Some("ISO15924") ==> Attr(ScriptTermFixed(e), "authority") == Some("iso15924")
    ensures Attr(e, "authority") != Some("ISO15924") ==> ScriptTermFixed(e) == e
    ensures name != "authority" ==> Attr(ScriptTermFixed(e), name) == Attr(e, name)
  {
    SetAttrGet(e, "authority", "iso15924", name);
    SetAttrGet(e, "authority", "iso15924", "authority");
  }

  function ScriptTermWarnings(g: Group): (ws: seq<string>)
    ensures forall w :: w in ws ==> w == SCRIPT_TERM_WARNING
  {
    if g == [] then []
    else
      ScriptTermWarnings(g[..|g| - 1])
      + if Attr(g[|g| - 1], "authority") == Some("ISO15924") then [SCRIPT_TERM_WARNING] else []
  }

  /** `fix_script_term()` over the whole group, member after member: the
      first member without an `authority` raises, which discards the whole
      conversion. */
  function FixScriptTerm(g: Group): (r: Result<Out<Group>>)
    ensures r.Ok? ==> |r.value.val| == |g|
  {
    if g == [] then Ok(Out([], []))
    else
      var front :- FixScriptTerm(g[..|g| - 1]);
      var last :- FixScriptTermOne(g[|g| - 1]);
      Ok(Out(front.val + [last.val], front.warnings + last.warnings))
  }

  /** `fix_script_term` fails exactly when some member lacks `authority`;
      otherwise it fixes every member and warns once per upper-case
      `ISO15924`. */
  lemma {:induction false} FixScriptTermSpec(g: Group)
    ensures FixScriptTerm(g).Err? <==> exists e :: e in g && Attr(e, "authority").None?
    ensures FixScriptTerm(g).Err? ==> FixScriptTerm(g).error == KeyError("authority")
    ensures FixScriptTerm(g).Ok? ==> forall i :: 0 <= i < |g| ==> FixScriptTerm(g).value.val[i] == ScriptTermFixed(g[i])
    ensures FixScriptTerm(g).Ok? ==> FixScriptTerm(g).value.warnings == ScriptTermWarnings(g)
  {
    if g != [] {
      var g', x := g[..|g| - 1], g[|g| - 1];
      FixScriptTermSpec(g');
      Snoc(g);
      if FixScriptTerm(g').Err? {
        var e :| e in g' && Attr(e, "authority").None?;
        assert e in g;
      } else if Attr(x, "authority").None? {
        assert x in g;
      } else {
        assert forall e :: e in g' ==> Attr(e, "authority").Some?;
        forall e | e in g
          ensures Attr(e, "authority").Some?
        {
          if e != x {
            assert e in g';
          }
        }
      }
    }
  }

  // --------------------------------------------------------------- sorting

  /** The members whose flag is `want`, in order. */
  function FilterBy(g: Group, p: Element -> bool, want: bool): (r: Group)
    ensures |r| <= |g|
  {
    if g == [] then [] else FilterBy(g[..|g| - 1], p, want) + (if p(g[|g| - 1]) == want then [g[|g| - 1]] else [])
  }

  lemma {:induction false} FilterByFlag(g: Group, p: Element -> bool, want: bool)
    ensures forall x :: x in FilterBy(g, p, want) ==> p(x) == want
  {
    if g != [] {
      FilterByFlag(g[..|g| - 1], p, want);
    }
  }

  /** `sort(key=p)` / `sort(key=p, reverse=True)` for a boolean key: a stable
      sort puts the `False` members first (the `True` ones with `reverse`),
      each part in its original order. */
  function SortByFlag(g: Group, p: Element -> bool, reverse: bool): (r: Group)
  {
    if reverse then FilterBy(g, p, true) + FilterBy(g, p, false)
    else FilterBy(g, p, false) + FilterBy(g, p, true)
  }

  lemma {:induction false} FilterByParts(g: Group, p: Element -> bool)
    ensures multiset(FilterBy(g, p, true)) + multiset(FilterBy(g, p, false)) == multiset(g)
  {
    if g != [] {
      var g', x := g[..|g| - 1], g[|g| - 1];
      FilterByParts(g', p);
      var t, f := FilterBy(g', p, true), FilterBy(g', p, false);
      var mt, mf := multiset(t), multiset(f);
      assert mt + mf == multiset(g');
      assert multiset(g) == multiset(g') + multiset{x} by {
        Snoc(g);
      }
      if p(x) {
        assert FilterBy(g, p, true) == t + [x];
        assert FilterBy(g, p, false) == f + [];
        assert multiset(t + [x]) == mt + multiset{x};
        assert multiset(f + []) == mf;
      } else {
        assert FilterBy(g, p, true) == t + [];
        assert FilterBy(g, p, false) == f + [x];
        assert multiset(f + [x]) == mf + multiset{x};
        assert multiset(t + []) == mt;
      }
    }
  }

  /** The flag sort is a permutation, and with `reverse` no `False` member
      precedes a `True` one. */
  lemma SortByFlagSpec(g: Group, p: Element -> bool, reverse: bool)
    ensures multiset(SortByFlag(g, p, reverse)) == multiset(g)
    ensures forall i, j :: 0 <= i < j < |SortByFlag(g, p, reverse)| ==>
      (reverse ==> p(SortByFlag(g, p, reverse)[i]) || !p(SortByFlag(g, p, reverse)[j])) &&
      (!reverse ==> !p(SortByFlag(g, p, reverse)[i]) || p(SortByFlag(g, p, reverse)[j]))
  {
    FilterByParts(g, p);
    FilterByFlag(g, p, true);
    FilterByFlag(g, p, false);
    var a, b := FilterBy(g, p, reverse), FilterBy(g, p, !reverse);
    assert SortByFlag(g, p, reverse) == a + b;
    forall i, j | 0 <= i < j < |a + b|
      ensures (reverse ==> p((a + b)[i]) || !p((a + b)[j])) && (!reverse ==> !p((a + b)[i]) || p((a + b)[j]))
    {
      if i < |a| {
        assert (a + b)[i] in a;
      } else {
        assert (a + b)[i] in b && (a + b)[j] in b;
      }
    }
  }

  /** The key `dateIssued`/`dateCreated` are sorted by: `keyDate="yes"`. */
  predicate KeyDate(e: Element) { Attr(e, "keyDate") == Some("yes") }

  // ------------------------------------------------- one member at a time

  /* The loops of the class `TagGroup` walk the group front to back; each
     lemma unfolds one fold at one more member. */

  lemma FilterPrefix(tag: string, g: Group, i: nat, cond: Element -> bool, warn: Option<string>)
    requires i < |g|
    ensures Filter(tag, g[..i + 1], cond, warn) == FilterStep(tag, Filter(tag, g[..i], cond, warn), g[i], cond, warn)
  {
    assert g[..i + 1][..i] == g[..i];
  }

  lemma TextPrefix(g: Group, i: nat, sep: string)
    requires i < |g|
    ensures Text(g[..i + 1], sep) == TextStep(Text(g[..i], sep), g[i], sep)
  {
    assert g[..i + 1][..i] == g[..i];
  }

  lemma RelabelWarningsPrefix(g: Group, i: nat)
    requires i < |g|
    ensures RelabelWarnings(g[..i + 1]) == RelabelWarnings(g[..i]) + Relabel(g[i]).warnings
  {
    assert g[..i + 1][..i] == g[..i];
  }

  lemma ClassifyAllPrefix(g: Group, i: nat)
    requires i < |g|
    ensures ClassifyAll(g[..i + 1]) ==
      var r := ClassifyAll(g[..i]);
      var x := Classify(g[i]);
      Out(r.val + (if x.val.Some? then [x.val.value] else []), r.warnings + x.warnings)
  {
    assert g[..i + 1][..i] == g[..i];
  }

  lemma EventTypeWarningsPrefix(g: Group, i: nat)
    requires i < |g|
    ensures EventTypeWarnings(g[..i + 1]) == EventTypeWarnings(g[..i]) + FixEventTypeOne(g[i]).warnings
  {
    assert g[..i + 1][..i] == g[..i];
  }

  lemma FixScriptTermPrefix(g: Group, i: nat)
    requires i < |g|
    ensures FixScriptTerm(g[..i + 1]) ==
      match FixScriptTerm(g[..i])
      case Err(err) => Err(err)
      case Ok(front) =>
        match FixScriptTermOne(g[i])
        case Err(err) => Err(err)
        case Ok(last) => Ok(Out(front.val + [last.val], front.warnings + last.warnings))
  {
    assert g[..i + 1][..i] == g[..i];
  }

  /** A member without `authority` makes every longer prefix fail. */
  lemma {:induction false} FixScriptTermStops(g: Group, i: nat)
    requires i < |g| && FixScriptTermOne(g[i]).Err?
    ensures FixScriptTerm(g).Err?
    decreases |g|
  {
    if i < |g| - 1 {
      FixScriptTermStops(g[..|g| - 1], i);
    } else {
      Snoc(g);
    }
  }

  lemma AttrItemsPrefix(g: Group, i: nat)
    requires i < |g|
    ensures AttrItems(g[..i + 1]) == AttrItems(g[..i]) + LocalItems(g[i])
  {
    assert g[..i + 1][..i] == g[..i];
  }

  lemma CountsOfPrefix(s: seq<Element>, t: seq<Element>, j: nat)
    requires j < |t|
    ensures CountsOf(s + t[..j + 1]) == Bump(CountsOf(s + t[..j]), CountKey(t[j]))
  {
    var u := s + t[..j + 1];
    assert |u| > 0;
    assert CountsOf(u) == Bump(CountsOf(u[..|u| - 1]), CountKey(u[|u| - 1]));
    assert u[|u| - 1] == t[j];
    assert u[..|u| - 1] == s + t[..j];
  }
}
