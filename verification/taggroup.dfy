/** The `TagGroup` object itself: a tag and a mutable list of elements. The
    methods keep the loops of the original and are each proved to compute the
    function of `TagGroups` that specifies them; `sort`, `fix_date`,
    `fix_event_type` and `fix_script_term` replace the object's group. */
module TagGroupObject {
  import opened Wrappers
  import opened Dicts
  import opened Xml
  import G = TagGroups

  class TagGroup {
    const tag: string
    var group: G.Group

    constructor (tag: string, group: G.Group)
      ensures this.tag == tag && this.group == group
    {
      this.tag := tag;
      this.group := group;
    }

    /** `sort(key=p, reverse=reverse)` for the boolean keys the converters
        use: the group becomes its stable sort. */
    method Sort(p: Element -> bool, reverse: bool)
      modifies this
      ensures group == G.SortByFlag(old(group), p, reverse)
      ensures multiset(group) == multiset(old(group))
    {
      G.SortByFlagSpec(group, p, reverse);
      group := G.SortByFlag(group, p, reverse);
    }

    /** `text(separator)`: the accumulator loop. */
    method Text(sep: string) returns (t: string)
      ensures t == G.Text(group, sep)
    {
      var g := group;
      t := "";
      var i := 0;
      while i < |g|
        invariant 0 <= i <= |g|
        invariant t == G.Text(g[..i], sep)
      {
        G.TextPrefix(g, i, sep);
        if t != "" {
          t := t + sep;
        }
        if g[i].text.Some? {
          t := t + g[i].text.value;
        }
        i := i + 1;
      }
      assert g[..i] == g;
    }

    /** `filter(cond, warn)`: a new object with the members that meet
        `cond`, and a warning per dropped member when `warn` is set. */
    method Filter(cond: Element -> bool, warn: Option<string>) returns (kept: TagGroup, warnings: seq<string>)
      ensures fresh(kept) && kept.tag == tag
      ensures G.Out(kept.group, warnings) == G.Filter(tag, group, cond, warn)
    {
      var g := group;
      var newGroup: G.Group := [];
      warnings := [];
      var i := 0;
      while i < |g|
        invariant 0 <= i <= |g|
        invariant newGroup == G.Filter(tag, g[..i], cond, warn).val
        invariant warnings == G.Filter(tag, g[..i], cond, warn).warnings
      {
        G.FilterPrefix(tag, g, i, cond, warn);
        var e := g[i];
        if cond(e) {
          newGroup := newGroup + [e];
        } else if G.Warns(warn) {
          warnings := warnings + [G.FilteredMessage(tag, warn.value)];
        }
        i := i + 1;
      }
      assert g[..i] == g;
      kept := new TagGroup(tag, newGroup);
    }

    /** `force_singleton(warn)`: the object itself when it has one member,
        otherwise a new one holding at most the first. */
    method ForceSingleton(warn: bool) returns (r: TagGroup, warnings: seq<string>)
      ensures r.tag == tag
      ensures G.Out(r.group, warnings) == G.ForceSingleton(tag, group, warn)
      ensures |group| == 1 ==> r == this
      ensures |group| != 1 ==> fresh(r)
    {
      if |group| == 1 {
        return this, [];
      }
      warnings := if warn then [G.ForcedMessage(tag)] else [];
      r := new TagGroup(tag, group[..if group == [] then 0 else 1]);
    }

    /** `fix_date()`: the first loop relabels `w3cdtf` members in place, the
        second builds the new group of the members with a text. */
    method FixDate() returns (warnings: seq<string>)
      modifies this
      ensures group == G.FixDate(old(group)).val
      ensures warnings == G.FixDate(old(group)).warnings
    {
      var src := group;
      var g := src;
      warnings := [];
      var i := 0;
      while i < |g|
        invariant 0 <= i <= |g| == |src|
        invariant forall j :: 0 <= j < i ==> g[j] == G.Relabel(src[j]).val
        invariant forall j :: i <= j < |g| ==> g[j] == src[j]
        invariant warnings == G.RelabelWarnings(src[..i])
      {
        G.RelabelWarningsPrefix(src, i);
        var e := g[i];
        if Attr(e, "encoding") == Some("w3cdtf") {
          warnings := warnings + [G.W3CDTF_WARNING];
          g := g[i := SetAttr(e, "encoding", "iso8601")];
        }
        i := i + 1;
      }
      assert src[..i] == src;
      assert g == G.RelabelAll(src).val;
      var newGroup, ws := ClassifyLoop(g);
      group := newGroup;
      warnings := warnings + ws;
    }

    /** `fix_event_type()`: every member without `eventType` that one of the
        three rules covers gets one, in place. */
    method FixEventType() returns (warnings: seq<string>)
      modifies this
      ensures group == G.FixEventType(old(group)).val
      ensures warnings == G.FixEventType(old(group)).warnings
    {
      var src := group;
      var g := src;
      warnings := [];
      var i := 0;
      while i < |g|
        invariant 0 <= i <= |g| == |src|
        invariant forall j :: 0 <= j < i ==> g[j] == G.FixEventTypeOne(src[j]).val
        invariant forall j :: i <= j < |g| ==> g[j] == src[j]
        invariant warnings == G.EventTypeWarnings(src[..i])
      {
        G.EventTypeWarningsPrefix(src, i);
        var r := G.FixEventTypeOne(g[i]);
        warnings := warnings + r.warnings;
        g := g[i := r.val];
        i := i + 1;
      }
      assert src[..i] == src;
      assert g == G.FixEventType(src).val;
      group := g;
    }

    /** `fix_script_term()`: `ISO15924` becomes lower case, member by member;
        a member without `authority` raises KeyError, after the members
        before it have been fixed in place. */
    method FixScriptTerm() returns (r: Result<seq<string>>)
      modifies this
      ensures r.Ok? <==> G.FixScriptTerm(old(group)).Ok?
      ensures r.Ok? ==> group == G.FixScriptTerm(old(group)).value.val
      ensures r.Ok? ==> r.value == G.FixScriptTerm(old(group)).value.warnings
      ensures r.Err? ==> r.error == KeyError("authority")
      ensures r.Err? ==> exists k :: (0 <= k < |old(group)| && G.FixScriptTerm(old(group)[..k]).Ok?
        && group == G.FixScriptTerm(old(group)[..k]).value.val + old(group)[k..])
    {
      var src := group;
      var fixed: G.Group := [];
      var warnings: seq<string> := [];
      var i := 0;
      while i < |src|
        invariant 0 <= i <= |src|
        invariant G.FixScriptTerm(src[..i]).Ok?
        invariant fixed == G.FixScriptTerm(src[..i]).value.val
        invariant warnings == G.FixScriptTerm(src[..i]).value.warnings
      {
        G.FixScriptTermPrefix(src, i);
        var one := G.FixScriptTermOne(src[i]);
        if one.Err? {
          group := fixed + src[i..];
          G.FixScriptTermStops(src, i);
          return Err(one.error);
        }
        fixed := fixed + [one.value.val];
        warnings := warnings + one.value.warnings;
        i := i + 1;
      }
      assert src[..i] == src;
      group := fixed;
      r := Ok(warnings);
    }

    /** `attributes()`: the members' attributes merged by local name, later
        ones overwriting earlier ones. */
    method Attributes() returns (attrib: Dict<string, string>)
      ensures attrib == G.Attributes(group)
    {
      var g := group;
      attrib := [];
      var i := 0;
      while i < |g|
        invariant 0 <= i <= |g|
        invariant attrib == FromItems(G.AttrItems(g[..i]))
      {
        G.AttrItemsPrefix(g, i);
        var e := g[i];
        var items := G.LocalItems(e);
        ghost var done := G.AttrItems(g[..i]);
        var j := 0;
        assert items[..0] == [] && done + [] == done;
        while j < |items|
          invariant 0 <= j <= |items|
          invariant attrib == FromItems(done + items[..j])
        {
          FromItemsOneMore(done, items, j);
          attrib := Put(attrib, items[j].0, items[j].1);
          j := j + 1;
        }
        assert items[..j] == items;
        i := i + 1;
      }
      assert g[..i] == g;
    }

    /** `subelement_counts()`: each member's traversal, element by element,
        bumps the count of the element's local name. */
    method SubelementCounts() returns (counts: Dict<string, nat>)
      ensures counts == G.SubelementCounts(group)
    {
      var g := group;
      counts := [];
      var i := 0;
      while i < |g|
        invariant 0 <= i <= |g|
        invariant counts == G.CountsOf(IterAll(g[..i]))
      {
        ghost var done := IterAll(g[..i]);
        var xs := Iter(g[i]);
        var j := 0;
        assert xs[..0] == [] && done + [] == done;
        while j < |xs|
          invariant 0 <= j <= |xs|
          invariant counts == G.CountsOf(done + xs[..j])
        {
          G.CountsOfPrefix(done, xs, j);
          counts := G.Bump(counts, G.CountKey(xs[j]));
          j := j + 1;
        }
        assert xs[..j] == xs;
        IterAllPrefix(g, i);
        i := i + 1;
      }
      assert g[..i] == g;
    }

    /** `xpath_count("//alto:String[@TAGREFS]", ...)`: the matches of each
        member's evaluation are collected and counted. */
    method TagrefsCount(doc: Element, ns: string) returns (counts: Dict<string, nat>)
      ensures counts == G.TagrefsCount(doc, group, ns)
    {
      var n := 0;
      var i := 0;
      while i < |group|
        invariant 0 <= i <= |group|
        invariant n == i * G.TaggedStrings(Iter(doc), ns)
      {
        n := n + G.TaggedStrings(Iter(doc), ns);
        i := i + 1;
      }
      counts := [(G.TAGREFS_XPATH + "-count", n)];
    }
  }

  /** The second loop of `fix_date()`: the members with a text, each fixed
      by `Classify`, in order. */
  method ClassifyLoop(g: G.Group) returns (newGroup: G.Group, ws: seq<string>)
    ensures newGroup == G.ClassifyAll(g).val && ws == G.ClassifyAll(g).warnings
  {
    newGroup := [];
    ws := [];
    var i := 0;
    while i < |g|
      invariant 0 <= i <= |g|
      invariant newGroup == G.ClassifyAll(g[..i]).val && ws == G.ClassifyAll(g[..i]).warnings
    {
      G.ClassifyAllPrefix(g, i);
      var c := G.Classify(g[i]);
      if c.val.Some? {
        newGroup := newGroup + [c.val.value];
      }
      ws := ws + c.warnings;
      i := i + 1;
    }
    assert g[..i] == g;
  }
}
