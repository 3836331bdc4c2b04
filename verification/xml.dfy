/** The in-memory element tree the converters walk: an element has a
    namespace-qualified tag, an ordered attribute dictionary, an optional text
    and a sequence of child elements. */
module Xml {
  import opened Wrappers
  import opened Dicts

  const MODS := "http://www.loc.gov/mods/v3"
  const METS := "http://www.loc.gov/METS/"
  const XLINK := "http://www.w3.org/1999/xlink"

  /** A tag or attribute name; `ns == ""` stands for "no namespace". */
  datatype QName = QName(ns: string, local: string)

  /** Clark notation `{ns}local`, the form in which the tree reports a tag. */
  function Clark(q: QName): (s: string)
    ensures q.ns == "" ==> s == q.local
    ensures q.ns != "" ==> |s| == |q.ns| + |q.local| + 2 && s[0] == '{'
  {
    if q.ns == "" then q.local else "{" + q.ns + "}" + q.local
  }

  datatype Element = Element(
    tag: QName,
    attrib: Dict<QName, string>,
    text: Option<string>,
    children: seq<Element>)

  /** An element whose tag is `local` in namespace `ns`. */
  predicate Is(e: Element, ns: string, local: string) {
    e.tag == QName(ns, local)
  }

  /** `e.attrib.get(name)` for an attribute without namespace. */
  function Attr(e: Element, name: string): Option<string>
  {
    Get(e.attrib, QName("", name))
  }

  /** `e.attrib[name] = v`. */
  function SetAttr(e: Element, name: string, v: string): (r: Element)
    ensures r.tag == e.tag && r.text == e.text && r.children == e.children
  {
    e.(attrib := Put(e.attrib, QName("", name), v))
  }

  /** After `e.attrib[name] = v`, `name` has the value `v` and every other
      attribute is as before. */
  lemma SetAttrGet(e: Element, name: string, v: string, other: string)
    ensures Attr(SetAttr(e, name, v), other) == if other == name then Some(v) else Attr(e, other)
  {
    PutGet(e.attrib, QName("", name), v, QName("", other));
  }

  /** `a` and `b` agree on every attribute other than the un-namespaced
      `name`, namespaced ones included. */
  ghost predicate SameAttrsExcept(a: Element, b: Element, name: string) {
    forall q :: q != QName("", name) ==> Get(a.attrib, q) == Get(b.attrib, q)
  }

  /** `e.attrib[name] = v` touches no other attribute. */
  lemma SetAttrOthers(e: Element, name: string, v: string)
    ensures SameAttrsExcept(SetAttr(e, name, v), e, name)
  {
    forall q | q != QName("", name)
      ensures Get(SetAttr(e, name, v).attrib, q) == Get(e.attrib, q)
    {
      PutGet(e.attrib, QName("", name), v, q);
    }
  }

  lemma SetAttrKeepsDict(e: Element, name: string, v: string)
    ensures IsDict(e.attrib) ==> IsDict(SetAttr(e, name, v).attrib)
  {
    PutKeepsDict(e.attrib, QName("", name), v);
  }

  /** Elements with the same tag and children have the same height. */
  lemma SameChildrenSameHeight(a: Element, b: Element)
    requires a.children == b.children
    ensures Height(a) == Height(b)
  {
  }

  /** The number of levels of the tree rooted at `e`; the converters recurse on
      elements of strictly smaller height. */
  function Height(e: Element): (h: nat)
    ensures h >= 1
    decreases e, 1
  {
    1 + MaxHeight(e.children)
  }

  function MaxHeight(s: seq<Element>): (h: nat)
    ensures forall i :: 0 <= i < |s| ==> Height(s[i]) <= h
    decreases s, 0
  {
    if s == [] then 0
    else
      var a := Height(s[0]);
      var b := MaxHeight(s[1..]);
      assert forall i :: 1 <= i < |s| ==> s[i] == s[1..][i - 1];
      if a < b then b else a
  }

  /** Every element of `g` has height at most `bound`. */
  predicate Bounded(g: seq<Element>, bound: nat) {
    forall x :: x in g ==> Height(x) <= bound
  }

  lemma ChildrenBounded(e: Element)
    ensures Bounded(e.children, Height(e) - 1)
  {
  }

  /** Document-order traversal of `e` and all its descendants, `e` first
      (`e.iter()`). */
  function Iter(e: Element): (r: seq<Element>)
    ensures |r| >= 1 && r[0] == e
    decreases e, 1
  {
    [e] + IterAll(e.children)
  }

  function IterAll(s: seq<Element>): seq<Element>
    decreases s, 0
  {
    if s == [] then [] else Iter(s[0]) + IterAll(s[1..])
  }

  lemma {:induction false} IterAllAppend(a: seq<Element>, b: seq<Element>)
    ensures IterAll(a + b) == IterAll(a) + IterAll(b)
  {
    if a != [] {
      assert (a + b)[1..] == a[1..] + b;
      IterAllAppend(a[1..], b);
    } else {
      assert a + b == b;
    }
  }

  /** The traversal of one more member. */
  lemma IterAllPrefix(g: seq<Element>, i: nat)
    requires i < |g|
    ensures IterAll(g[..i + 1]) == IterAll(g[..i]) + Iter(g[i])
  {
    assert g[..i + 1] == g[..i] + [g[i]];
    IterAllAppend(g[..i], [g[i]]);
    assert [g[i]][1..] == [];
  }

  /** `e.find(tag)`: the first child with the given tag. */
  function FindChild(e: Element, tag: QName): (r: Option<Element>)
    ensures r.Some? ==> r.value in e.children && r.value.tag == tag
    ensures r.Some? ==> exists i :: (0 <= i < |e.children| && e.children[i] == r.value
      && forall j :: 0 <= j < i ==> e.children[j].tag != tag)
    ensures r.None? ==> forall c :: c in e.children ==> c.tag != tag
  {
    FirstWithTag(e.children, tag)
  }

  function FirstWithTag(s: seq<Element>, tag: QName): (r: Option<Element>)
    ensures r.Some? ==> r.value in s && r.value.tag == tag
    ensures r.Some? ==> exists i :: (0 <= i < |s| && s[i] == r.value
      && forall j :: 0 <= j < i ==> s[j].tag != tag)
    ensures r.None? ==> forall c :: c in s ==> c.tag != tag
  {
    if s == [] then None
    else if s[0].tag == tag then Some(s[0])
    else
      var r := FirstWithTag(s[1..], tag);
      if r.Some? then
        var i :| 0 <= i < |s[1..]| && s[1..][i] == r.value
          && forall j :: 0 <= j < i ==> s[1..][j].tag != tag;
        assert s[i + 1] == r.value && forall j :: 0 <= j < i + 1 ==> s[j].tag != tag;
        r
      else r
  }

  /** The elements of `s` with the given tag, in order (`findall`). */
  function WithTag(s: seq<Element>, tag: QName): (r: seq<Element>)
    ensures |r| <= |s|
    ensures forall x :: x in r <==> x in s && x.tag == tag
  {
    if s == [] then []
    else (if s[0].tag == tag then [s[0]] else []) + WithTag(s[1..], tag)
  }
}
