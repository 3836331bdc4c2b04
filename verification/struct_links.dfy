/** The logical structure map as the page converter walks it. Elements of the
    map are identified by their position in document order, which gives them
    the identity a Python set of elements relies on, and each position records
    the position of its parent, which is what `getparent()` returns. */
module StructLinks {
  import opened Wrappers
  import opened Dicts
  import opened Xml

  /** One element of the map with the position of its parent; the map element
      itself sits at position 0 and has no parent (-1). */
  datatype Node = Node(elem: Element, parent: int)

  /** The nodes of the subtree `e` in document order, `e` at position `base`
      with parent `parent`. */
  function Preorder(e: Element, parent: int, base: nat): (r: seq<Node>)
    ensures |r| >= 1 && r[0] == Node(e, parent)
    decreases e, 1
  {
    [Node(e, parent)] + PreorderAll(e.children, base, base + 1)
  }

  /** The nodes of the sibling subtrees `s`, the first at position `base`, all
      with parent `parent`. */
  function PreorderAll(s: seq<Element>, parent: int, base: nat): seq<Node>
    decreases s, 0
  {
    if s == [] then []
    else
      var first := Preorder(s[0], parent, base);
      first + PreorderAll(s[1..], parent, base + |first|)
  }

  /** The node table of the structure map `m`. */
  function Table(m: Element): (nodes: seq<Node>)
    ensures |nodes| >= 1 && Linked(nodes) && nodes[0] == Node(m, -1)
    ensures Elems(nodes) == Iter(m)
  {
    PreorderLinked(m, -1, 0);
    PreorderElems(m, -1, 0);
    Preorder(m, -1, 0)
  }

  /** Every node's parent comes before it. */
  predicate Linked(nodes: seq<Node>) {
    forall i :: 0 <= i < |nodes| ==> -1 <= nodes[i].parent < i
  }

  function Elems(nodes: seq<Node>): (r: seq<Element>)
    ensures |r| == |nodes|
    ensures forall i :: 0 <= i < |nodes| ==> r[i] == nodes[i].elem
  {
    seq(|nodes|, i requires 0 <= i < |nodes| => nodes[i].elem)
  }

  lemma {:induction false} PreorderLinked(e: Element, parent: int, base: nat)
    requires -1 <= parent < base
    ensures forall i :: 0 <= i < |Preorder(e, parent, base)| ==> -1 <= Preorder(e, parent, base)[i].parent < base + i
    decreases e, 1
  {
    PreorderAllLinked(e.children, base, base + 1);
  }

  lemma {:induction false} PreorderAllLinked(s: seq<Element>, parent: int, base: nat)
    requires -1 <= parent < base
    ensures forall i :: 0 <= i < |PreorderAll(s, parent, base)| ==> -1 <= PreorderAll(s, parent, base)[i].parent < base + i
    decreases s, 0
  {
    if s != [] {
      var first := Preorder(s[0], parent, base);
      PreorderLinked(s[0], parent, base);
      PreorderAllLinked(s[1..], parent, base + |first|);
    }
  }

  /** The table lists the elements in the order of `iter()`. */
  lemma {:induction false} PreorderElems(e: Element, parent: int, base: nat)
    ensures Elems(Preorder(e, parent, base)) == Iter(e)
    decreases e, 1
  {
    PreorderAllElems(e.children, base, base + 1);
    assert Elems(Preorder(e, parent, base)) == [e] + Elems(PreorderAll(e.children, base, base + 1));
  }

  lemma {:induction false} PreorderAllElems(s: seq<Element>, parent: int, base: nat)
    ensures Elems(PreorderAll(s, parent, base)) == IterAll(s)
    decreases s, 0
  {
    if s != [] {
      var first := Preorder(s[0], parent, base);
      var rest := PreorderAll(s[1..], parent, base + |first|);
      PreorderElems(s[0], parent, base);
      PreorderAllElems(s[1..], parent, base + |first|);
      assert Elems(first + rest) == Elems(first) + Elems(rest);
    }
  }

  /** In the table of `e`, a node with a parent is a child of its parent's
      element, and the parent lies inside the table. */
  lemma {:induction false} PreorderParent(e: Element, parent: int, base: nat)
    ensures forall i :: 1 <= i < |Preorder(e, parent, base)| ==>
      var n := Preorder(e, parent, base);
      base <= n[i].parent < base + i && n[i].elem in n[n[i].parent - base].elem.children
    decreases e, 1
  {
    var n := Preorder(e, parent, base);
    var rest := PreorderAll(e.children, base, base + 1);
    PreorderAllParent(e.children, base, base + 1);
    forall i | 1 <= i < |n|
      ensures base <= n[i].parent < base + i && n[i].elem in n[n[i].parent - base].elem.children
    {
      assert n[i] == rest[i - 1];
      if rest[i - 1].parent != base {
        assert n[n[i].parent - base] == rest[n[i].parent - (base + 1)];
      }
    }
  }

  lemma {:induction false} PreorderAllParent(s: seq<Element>, parent: int, base: nat)
    requires parent < base
    ensures forall i :: 0 <= i < |PreorderAll(s, parent, base)| ==>
      var n := PreorderAll(s, parent, base);
      (n[i].parent == parent && n[i].elem in s) ||
      (base <= n[i].parent < base + i && n[i].elem in n[n[i].parent - base].elem.children)
    decreases s, 0
  {
    if s != [] {
      var first := Preorder(s[0], parent, base);
      var rest := PreorderAll(s[1..], parent, base + |first|);
      var n := first + rest;
      PreorderParent(s[0], parent, base);
      PreorderAllParent(s[1..], parent, base + |first|);
      forall i | 0 <= i < |n|
        ensures (n[i].parent == parent && n[i].elem in s) ||
                (base <= n[i].parent < base + i && n[i].elem in n[n[i].parent - base].elem.children)
      {
        if i < |first| {
          if i > 0 {
            assert n[n[i].parent - base] == first[n[i].parent - base];
          }
        } else {
          var j := i - |first|;
          assert n[i] == rest[j];
          if rest[j].parent == parent {
            assert rest[j].elem in s[1..];
          } else {
            assert n[n[i].parent - base] == rest[n[i].parent - (base + |first|)];
          }
        }
      }
    }
  }

  /** In the table of a structure map, a node with a parent is a child of its
      parent's element: the parent position is `getparent()`. */
  lemma TableParent(m: Element, i: nat)
    requires i < |Table(m)|
    ensures var n := Table(m);
      (i == 0 <==> n[i].parent == -1) &&
      (i > 0 ==> n[i].elem in n[n[i].parent].elem.children)
  {
    PreorderParent(m, -1, 0);
  }

  predicate IsDiv(e: Element) {
    e.tag == QName(METS, "div")
  }

  /** The element matches `mets:div[@ID="id"]`. */
  predicate DivWithId(e: Element, id: string) {
    IsDiv(e) && Attr(e, "ID") == Some(id)
  }

  /** `m.findall('.//mets:div[@ID="id"]')` from position `i` on: the positions
      of the divs with that ID, in document order. */
  function DivsWithId(nodes: seq<Node>, id: string, i: nat): (r: seq<nat>)
    requires i <= |nodes|
    ensures forall x :: x in r <==> i <= x < |nodes| && DivWithId(nodes[x].elem, id)
    decreases |nodes| - i
  {
    if i == |nodes| then []
    else
      var rest := DivsWithId(nodes, id, i + 1);
      if DivWithId(nodes[i].elem, id) then [i] + rest else rest
  }

  /** The divs `getparent()` reaches from position `i` before it meets an
      element that is not a div, nearest first. The walk stops at the map
      element at the latest, which is not a div. */
  function Ancestors(nodes: seq<Node>, i: nat): (r: seq<nat>)
    requires Linked(nodes) && i < |nodes|
    ensures forall x :: x in r ==> x < i && IsDiv(nodes[x].elem)
    decreases i
  {
    var p := nodes[i].parent;
    if p < 0 || !IsDiv(nodes[p].elem) then [] else [p] + Ancestors(nodes, p)
  }

  /** The chain of ancestors has no gap: the parent of a member is the next
      member, or is not a div. */
  lemma {:induction false} AncestorsClosed(nodes: seq<Node>, i: nat, x: nat)
    requires Linked(nodes) && i < |nodes|
    requires x in Ancestors(nodes, i)
    ensures var p := nodes[x].parent;
      p >= 0 && IsDiv(nodes[p].elem) ==> p in Ancestors(nodes, i)
    decreases i
  {
    var p := nodes[i].parent;
    assert p >= 0 && IsDiv(nodes[p].elem);
    if x != p {
      AncestorsClosed(nodes, p, x);
    }
  }

  /** The generator of the page converter that walks up from a div. */
  method Parents(nodes: seq<Node>, div: nat) returns (r: seq<nat>)
    requires Linked(nodes) && div < |nodes|
    ensures r == Ancestors(nodes, div)
  {
    r := [];
    var cursor := div;
    var p := nodes[cursor].parent;
    while p >= 0 && IsDiv(nodes[p].elem)
      invariant cursor < |nodes| && p == nodes[cursor].parent && -1 <= p < cursor
      invariant r + Ancestors(nodes, cursor) == Ancestors(nodes, div)
      decreases cursor
    {
      assert Ancestors(nodes, cursor) == [p] + Ancestors(nodes, p);
      r := r + [p];
      cursor := p;
      p := nodes[cursor].parent;
    }
  }

  /** `acc.update(xs)` on a set of positions, kept in order of first
      insertion. */
  function AddAll(acc: seq<nat>, xs: seq<nat>): (r: seq<nat>)
    ensures forall x :: x in r <==> x in acc || x in xs
    ensures acc <= r
    decreases |xs|
  {
    if xs == [] then acc
    else AddAll(if xs[0] in acc then acc else acc + [xs[0]], xs[1..])
  }

  /** A set never holds a member twice. */
  lemma {:induction false} AddAllDistinct(acc: seq<nat>, xs: seq<nat>)
    requires Distinct(acc)
    ensures Distinct(AddAll(acc, xs))
    decreases |xs|
  {
    if xs != [] {
      var next := if xs[0] in acc then acc else acc + [xs[0]];
      assert Distinct(next);
      AddAllDistinct(next, xs[1..]);
    }
  }

  /** Every member of `xs` is a position of the table. */
  predicate Positions(nodes: seq<Node>, xs: seq<nat>) {
    forall x :: x in xs ==> x < |nodes|
  }

  /** The loop that collects the ancestors of the divs `divs` into `acc`. */
  function ToAdd(nodes: seq<Node>, acc: seq<nat>, divs: seq<nat>): (r: seq<nat>)
    requires Linked(nodes) && Positions(nodes, divs)
    ensures Positions(nodes, acc) ==> Positions(nodes, r)
    decreases |divs|
  {
    if divs == [] then acc
    else
      assert divs[0] in divs;
      assert forall x :: x in divs[1..] ==> x in divs;
      ToAdd(nodes, AddAll(acc, Ancestors(nodes, divs[0])), divs[1..])
  }

  /** One round of the loop over the divs. */
  lemma ToAddStep(nodes: seq<Node>, acc: seq<nat>, divs: seq<nat>, k: nat)
    requires Linked(nodes) && Positions(nodes, divs)
    requires k < |divs|
    ensures divs[k] < |nodes| && Positions(nodes, divs[k..]) && Positions(nodes, divs[k + 1..])
    ensures ToAdd(nodes, acc, divs[k..]) == ToAdd(nodes, AddAll(acc, Ancestors(nodes, divs[k])), divs[k + 1..])
  {
    assert divs[k] in divs;
    assert forall x :: x in divs[k..] ==> x in divs;
    assert divs[k..][1..] == divs[k + 1..];
    assert forall x :: x in divs[k..][1..] ==> x in divs;
    assert divs[k..] != [] && divs[k..][0] == divs[k];
  }

  lemma {:induction false} ToAddMembers(nodes: seq<Node>, acc: seq<nat>, divs: seq<nat>, y: nat)
    requires Linked(nodes) && Positions(nodes, divs)
    ensures y in ToAdd(nodes, acc, divs) <==> y in acc || exists d :: d in divs && y in Ancestors(nodes, d)
    decreases |divs|
  {
    if divs != [] {
      assert divs[0] in divs;
      assert forall x :: x in divs[1..] ==> x in divs;
      ToAddMembers(nodes, AddAll(acc, Ancestors(nodes, divs[0])), divs[1..], y);
      if y in Ancestors(nodes, divs[0]) {
        assert divs[0] in divs;
      }
      forall d | d in divs && y in Ancestors(nodes, d)
        ensures y in Ancestors(nodes, divs[0]) || exists d' :: d' in divs[1..] && y in Ancestors(nodes, d')
      {
        if d != divs[0] {
          assert d in divs[1..];
        }
      }
    }
  }

  /** The divs linked to a page together with their ancestors: `set(targets)`
      updated with the ancestors of each member, in order of first
      insertion. */
  function StructDivs(nodes: seq<Node>, targets: seq<nat>): (r: seq<nat>)
    requires Linked(nodes) && Positions(nodes, targets)
    ensures Positions(nodes, r)
  {
    var divs := AddAll([], targets);
    AddAll(divs, ToAdd(nodes, [], divs))
  }

  /** The set holds each member once. */
  lemma StructDivsDistinct(nodes: seq<Node>, targets: seq<nat>)
    requires Linked(nodes) && Positions(nodes, targets)
    ensures Distinct(StructDivs(nodes, targets))
  {
    var divs := AddAll([], targets);
    AddAllDistinct([], targets);
    AddAllDistinct(divs, ToAdd(nodes, [], divs));
  }

  /** The members are exactly the linked divs and their ancestors. */
  lemma StructDivsMembers(nodes: seq<Node>, targets: seq<nat>, y: nat)
    requires Linked(nodes) && Positions(nodes, targets)
    ensures y in StructDivs(nodes, targets) <==> y in targets || exists t :: t in targets && y in Ancestors(nodes, t)
  {
    var divs := AddAll([], targets);
    var toAdd := ToAdd(nodes, [], divs);
    ToAddMembers(nodes, [], divs, y);
    assert y in StructDivs(nodes, targets) <==> y in divs || y in toAdd;
    assert y in divs <==> y in targets;
    assert (exists d :: d in divs && y in Ancestors(nodes, d)) <==> (exists t :: t in targets && y in Ancestors(nodes, t));
  }

  /** Every member's parent that is a div is a member too: the set is closed
      upwards within the logical structure. */
  lemma StructDivsClosed(nodes: seq<Node>, targets: seq<nat>, y: nat)
    requires Linked(nodes) && Positions(nodes, targets)
    requires y in StructDivs(nodes, targets)
    ensures y < |nodes|
    ensures var p := nodes[y].parent;
      p >= 0 && IsDiv(nodes[p].elem) ==> p in StructDivs(nodes, targets)
  {
    StructDivsMembers(nodes, targets, y);
    var p := nodes[y].parent;
    if y in targets {
      if p >= 0 && IsDiv(nodes[p].elem) {
        assert p in Ancestors(nodes, y);
        StructDivsMembers(nodes, targets, p);
      }
    } else {
      var t :| t in targets && y in Ancestors(nodes, t);
      if p >= 0 && IsDiv(nodes[p].elem) {
        AncestorsClosed(nodes, t, y);
        StructDivsMembers(nodes, targets, p);
      }
    }
  }

  /** The page converter's construction of the set: the targets as a set,
      then the ancestors of every member added. */
  method StructDivsOf(nodes: seq<Node>, targets: seq<nat>) returns (r: seq<nat>)
    requires Linked(nodes) && Positions(nodes, targets)
    ensures r == StructDivs(nodes, targets)
  {
    var divs := AddAll([], targets);
    var toAdd := [];
    assert Positions(nodes, divs);
    for k := 0 to |divs|
      invariant ToAdd(nodes, toAdd, divs[k..]) == ToAdd(nodes, [], divs)
    {
      ToAddStep(nodes, toAdd, divs, k);
      var ps := Parents(nodes, divs[k]);
      toAdd := AddAll(toAdd, ps);
    }
    r := AddAll(divs, toAdd);
  }
}
