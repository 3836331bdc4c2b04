/** Properties of the converters: which rule each tag reaches, what the
    enumerated, filtered and merged keys hold, and how unknown tags are
    treated. */
module ConvertProps {
  import opened Wrappers
  import opened Strings
  import opened Dicts
  import opened Xml
  import opened Values
  import opened GroupBy
  import opened TagGroups
  import opened Rules
  import opened Convert

  /** The MODS local names with a branch of their own. */
  const MODS_RULED := [
    "location", "physicalLocation", "shelfLocator", "originInfo", "place", "placeTerm",
    "dateIssued", "dateCreated", "dateCaptured", "dateOther", "publisher", "edition",
    "classification", "recordInfo", "recordIdentifier", "identifier", "titleInfo", "title",
    "partName", "subTitle", "abstract", "subject", "genre", "language", "languageTerm",
    "scriptTerm", "relatedItem", "name", "role", "roleTerm", "namePart", "displayForm",
    "accessCondition", "typeOfResource"]

  /** The MODS local names `mods_to_dict` has a branch for. */
  const MODS_KNOWN := MODS_IGNORED + MODS_RULED

  // ------------------------------------------------------------ tag names

  /** Distinct local names give distinct MODS tags. */
  lemma ModsTagInjective(a: string, c: string)
    ensures ModsTag(a) == ModsTag(c) <==> a == c
  {
    if ModsTag(a) == ModsTag(c) {
      assert ModsTag(a)[|MODS| + 2..] == a;
      assert ModsTag(c)[|MODS| + 2..] == c;
    }
  }

  lemma MetsTagInjective(a: string, c: string)
    ensures MetsTag(a) == MetsTag(c) <==> a == c
  {
    if MetsTag(a) == MetsTag(c) {
      assert MetsTag(a)[|METS| + 2..] == a;
      assert MetsTag(c)[|METS| + 2..] == c;
    }
  }

  // ------------------------------------------------------ MODS dispatch

  /** The tags `mods_to_dict` compares against are the MODS tags of the
      local names it has a branch for. */
  lemma ModsLocalOfTag(local: string)
    ensures LocalIn(MODS, ModsTag(local)) == Some(local)
  {
    var r := LocalIn(MODS, ModsTag(local));
    if r.Some? {
      ModsTagInjective(r.value, local);
    }
  }

  /** The local names without a branch of their own reach the last one. */
  lemma UnknownBranch(local: string)
    requires local !in MODS_IGNORED && local !in MODS_RULED
    ensures ModsBranchOf(local) == NoRule
  {
  }

  lemma BranchOfName()
    ensures ModsBranchOf("name") == NameRule
  {
  }

  lemma BranchOfOriginInfo()
    ensures ModsBranchOf("originInfo") == OriginInfoRule
  {
  }

  lemma BranchOfLanguage()
    ensures ModsBranchOf("language") == LanguageRule
  {
  }

  lemma BranchOfRecordIdentifier()
    ensures ModsBranchOf("recordIdentifier") == RecordIdentifierRule
  {
  }

  /** A MODS tag whose local name has no branch reaches the unknown-tag
      branch. */
  lemma NoRuleBranch(value: Record, local: string, g: Group, doc: Element, raiseErrors: bool, b: nat)
    requires g != [] && Bounded(g, b) && ModsBranchOf(local) == NoRule
    ensures ModsRule(value, ModsTag(local), g, doc, raiseErrors, b) == Unknown(value, ModsTag(local), raiseErrors)
  {
    ModsRuleOfLocal(value, local, g, doc, raiseErrors, b);
  }

  /** So does a tag outside the MODS namespace. */
  lemma ForeignModsTag(value: Record, tag: string, g: Group, doc: Element, raiseErrors: bool, b: nat)
    requires g != [] && Bounded(g, b) && LocalIn(MODS, tag).None?
    ensures ModsRule(value, tag, g, doc, raiseErrors, b) == Unknown(value, tag, raiseErrors)
  {
  }

  /** A tag without a branch raises ValueError when `raise_errors` is set and
      is skipped otherwise. */
  lemma UnknownModsTag(value: Record, tag: string, g: Group, doc: Element, raiseErrors: bool, b: nat)
    requires g != [] && Bounded(g, b)
    requires forall l :: l in MODS_KNOWN ==> tag != ModsTag(l)
    ensures raiseErrors ==> ModsRule(value, tag, g, doc, raiseErrors, b) == Err(ValueError("Unknown tag \"" + tag + "\""))
    ensures !raiseErrors ==> ModsRule(value, tag, g, doc, raiseErrors, b) == Ok(Out(value, []))
  {
    var r := LocalIn(MODS, tag);
    if r.Some? {
      assert tag == ModsTag(r.value) && r.value !in MODS_KNOWN;
      UnknownBranch(r.value);
      NoRuleBranch(value, r.value, g, doc, raiseErrors, b);
    } else {
      ForeignModsTag(value, tag, g, doc, raiseErrors, b);
    }
  }

  /** A tag in the MODS namespace takes the branch of its local name. */
  lemma ModsRuleOfLocal(value: Record, local: string, g: Group, doc: Element, raiseErrors: bool, b: nat)
    requires g != [] && Bounded(g, b)
    ensures ModsRule(value, ModsTag(local), g, doc, raiseErrors, b)
      == ModsApply(value, ModsTag(local), ModsBranchOf(local), g, doc, raiseErrors, b)
  {
    ModsLocalOfTag(local);
  }

  /** The branch of `recordIdentifier`: `Rules.RecordIdentifier`, which
      emits no warning. */
  lemma RecordIdentifierBranch(value: Record, local: string, g: Group, doc: Element, raiseErrors: bool, b: nat)
    requires g != [] && Bounded(g, b) && ModsBranchOf(local) == RecordIdentifierRule
    ensures ModsRule(value, ModsTag(local), g, doc, raiseErrors, b) == Quiet(RecordIdentifier(value, g))
  {
    ModsRuleOfLocal(value, local, g, doc, raiseErrors, b);
  }

  /** `recordIdentifier` stores the single `gbv-ppn` or `dnb-ppn` identifier
      and rejects every other group. */
  lemma RecordIdentifierTag(value: Record, g: Group, doc: Element, raiseErrors: bool, b: nat)
    requires g != [] && Bounded(g, b)
    ensures var r := ModsRule(value, ModsTag("recordIdentifier"), g, doc, raiseErrors, b);
      && (r.Ok? <==> |g| == 1 && (ToMap(g[0].attrib) == GBV_PPN || ToMap(g[0].attrib) == DNB_PPN))
      && (|g| == 1 && ToMap(g[0].attrib) == GBV_PPN ==>
           r == Ok(Out(Put(value, "recordIdentifier", Str(TextOrEmpty(g[0]))), [])))
      && (|g| == 1 && ToMap(g[0].attrib) == DNB_PPN ==>
           r == Ok(Out(Put(value, "recordIdentifier-dnb-ppn", Str(TextOrEmpty(g[0]))), [])))
      && (r.Err? ==> r.error.ValueError?)
  {
    BranchOfRecordIdentifier();
    RecordIdentifierBranch(value, "recordIdentifier", g, doc, raiseErrors, b);
  }

  /** The branch of `name`, for any spelling of the tag that reaches it. */
  lemma NameBranch(value: Record, local: string, g: Group, doc: Element, raiseErrors: bool, b: nat)
    requires g != [] && Bounded(g, b) && ModsBranchOf(local) == NameRule
    ensures ModsRule(value, ModsTag(local), g, doc, raiseErrors, b) == ModsEnumerate(value, "name", g, doc, raiseErrors, b)
  {
    ModsRuleOfLocal(value, local, g, doc, raiseErrors, b);
  }

  /** Every `name` member is converted and numbered. */
  lemma NameTag(value: Record, g: Group, doc: Element, raiseErrors: bool, b: nat)
    requires g != [] && Bounded(g, b)
    ensures ModsRule(value, ModsTag("name"), g, doc, raiseErrors, b) == ModsEnumerate(value, "name", g, doc, raiseErrors, b)
  {
    BranchOfName();
    NameBranch(value, "name", g, doc, raiseErrors, b);
  }

  // --------------------------------------------------------- enumeration

  /** Numbering fails only with the error of a member that fails to convert. */
  lemma {:induction false} ModsEnumerateErr(value: Record, prefix: string, g: Group, doc: Element, raiseErrors: bool, b: nat)
    requires Bounded(g, b) && ModsEnumerate(value, prefix, g, doc, raiseErrors, b).Err?
    ensures exists i :: 0 <= i < |g| && ModsToDict(g[i], doc, raiseErrors) == Err(ModsEnumerate(value, prefix, g, doc, raiseErrors, b).error)
  {
    var n := |g| - 1;
    var acc := ModsEnumerate(value, prefix, g[..n], doc, raiseErrors, b);
    if acc.Err? {
      ModsEnumerateErr(value, prefix, g[..n], doc, raiseErrors, b);
      var i :| 0 <= i < n && ModsToDict(g[..n][i], doc, raiseErrors) == Err(acc.error);
      assert g[..n][i] == g[i];
    } else {
      assert ModsToDict(g[n], doc, raiseErrors).Err?;
    }
  }

  /** After a successful numbering, member `i` converted and is stored under
      `prefix + str(i)`. */
  lemma {:induction false} ModsEnumerateGet(value: Record, prefix: string, g: Group, doc: Element, raiseErrors: bool, b: nat, i: nat)
    requires Bounded(g, b) && ModsEnumerate(value, prefix, g, doc, raiseErrors, b).Ok? && i < |g|
    ensures ModsToDict(g[i], doc, raiseErrors).Ok?
    ensures Get(ModsEnumerate(value, prefix, g, doc, raiseErrors, b).value.val, prefix + NatToString(i))
      == Some(Rec(ModsToDict(g[i], doc, raiseErrors).value.val))
  {
    var n := |g| - 1;
    var acc := ModsEnumerate(value, prefix, g[..n], doc, raiseErrors, b);
    var d := ModsToDict(g[n], doc, raiseErrors);
    assert acc.Ok? && d.Ok?;
    PutGet(acc.value.val, prefix + NatToString(n), Rec(d.value.val), prefix + NatToString(i));
    if i < n {
      PrefixedKeys(prefix, NatToString(n), NatToString(i));
      NatToStringInjective(n, i);
      ModsEnumerateGet(value, prefix, g[..n], doc, raiseErrors, b, i);
      assert g[..n][i] == g[i];
    }
  }

  /** Keys other than `prefix + str(i)` keep their values. */
  lemma {:induction false} ModsEnumerateOther(value: Record, prefix: string, g: Group, doc: Element, raiseErrors: bool, b: nat, k: string)
    requires Bounded(g, b) && ModsEnumerate(value, prefix, g, doc, raiseErrors, b).Ok?
    requires forall i: nat :: i < |g| ==> k != prefix + NatToString(i)
    ensures Get(ModsEnumerate(value, prefix, g, doc, raiseErrors, b).value.val, k) == Get(value, k)
  {
    if g != [] {
      var n := |g| - 1;
      var acc := ModsEnumerate(value, prefix, g[..n], doc, raiseErrors, b);
      var d := ModsToDict(g[n], doc, raiseErrors);
      assert acc.Ok? && d.Ok?;
      PutGet(acc.value.val, prefix + NatToString(n), Rec(d.value.val), k);
      ModsEnumerateOther(value, prefix, g[..n], doc, raiseErrors, b, k);
    }
  }

  /** The explicitly ignored tags never raise and change nothing. */
  lemma IgnoredModsTag(value: Record, local: string, g: Group, doc: Element, raiseErrors: bool, b: nat)
    requires g != [] && Bounded(g, b)
    requires local in MODS_IGNORED
    ensures ModsRule(value, ModsTag(local), g, doc, raiseErrors, b) == Ok(Out(value, []))
  {
    ModsLocalOfTag(local);
  }
  // ----------------------------------------------------------- originInfo

  lemma OriginInfoBranch(value: Record, local: string, g: Group, doc: Element, raiseErrors: bool, b: nat)
    requires g != [] && Bounded(g, b) && ModsBranchOf(local) == OriginInfoRule
    ensures ModsRule(value, ModsTag(local), g, doc, raiseErrors, b) == OriginInfo(value, ModsTag(local), g, doc, raiseErrors, b)
  {
    ModsRuleOfLocal(value, local, g, doc, raiseErrors, b);
  }

  /** A filter that rejects every member keeps none and warns once per
      member. */
  lemma {:induction false} FilterDropsAll(tag: string, g: Group, cond: Element -> bool, warn: string)
    requires warn != "" && forall i :: 0 <= i < |g| ==> !cond(g[i])
    ensures Filter(tag, g, cond, Some(warn)) == Out([], seq(|g|, _ => FilteredMessage(tag, warn)))
  {
    if g != [] {
      var n := |g| - 1;
      FilterDropsAll(tag, g[..n], cond, warn);
      assert !cond(g[n]);
      assert seq(n, _ => FilteredMessage(tag, warn)) + [FilteredMessage(tag, warn)]
        == seq(|g|, _ => FilteredMessage(tag, warn));
    }
  }

  /** The test with a single `originInfo` holding only a `place`: when no
      member can be given an event type, every member is filtered out with
      the "has no eventType" warning and nothing is stored. */
  lemma OriginInfoUnfixable(value: Record, tag: string, g: Group, doc: Element, raiseErrors: bool, b: nat)
    requires Bounded(g, b) && forall i :: 0 <= i < |g| ==> Unfixable(g[i])
    ensures OriginInfo(value, tag, g, doc, raiseErrors, b)
      == Ok(Out(value, seq(|g|, _ => FilteredMessage(tag, "has no eventType"))))
  {
    var w := seq(|g|, _ => FilteredMessage(tag, "has no eventType"));
    FixEventTypeKeepsUnfixable(g);
    var fx := FixEventType(g);
    assert forall i :: 0 <= i < |g| ==> !HasEventType(g[i]);
    FilterDropsAll(tag, g, HasEventType, "has no eventType");
    var f := Filter(tag, fx.val, HasEventType, Some("has no eventType"));
    assert f == Out([], w);
    assert SortedGroupBy(f.val, EventTypeKey) == [];
    assert fx.warnings + f.warnings + [] == w;
  }

  /** The `originInfo` tag reaches that rule. */
  lemma OriginInfoTag(value: Record, g: Group, doc: Element, raiseErrors: bool, b: nat)
    requires g != [] && Bounded(g, b)
    ensures ModsRule(value, ModsTag("originInfo"), g, doc, raiseErrors, b)
      == OriginInfo(value, ModsTag("originInfo"), g, doc, raiseErrors, b)
  {
    BranchOfOriginInfo();
    OriginInfoBranch(value, "originInfo", g, doc, raiseErrors, b);
  }

  // ------------------------------------------------------------- language

  lemma LanguageBranch(value: Record, local: string, g: Group, doc: Element, raiseErrors: bool, b: nat)
    requires g != [] && Bounded(g, b) && ModsBranchOf(local) == LanguageRule
    ensures ModsRule(value, ModsTag(local), g, doc, raiseErrors, b) == Nest(value, "language", [], MergeSubTagsToSet(g, doc, b))
  {
    ModsRuleOfLocal(value, local, g, doc, raiseErrors, b);
  }

  /** All `language` members are merged into the one record under
      `language`. */
  lemma LanguageTag(value: Record, g: Group, doc: Element, raiseErrors: bool, b: nat)
    requires g != [] && Bounded(g, b)
    ensures ModsRule(value, ModsTag("language"), g, doc, raiseErrors, b) == Nest(value, "language", [], MergeSubTagsToSet(g, doc, b))
  {
    BranchOfLanguage();
    LanguageBranch(value, "language", g, doc, raiseErrors, b);
  }

  lemma {:induction false} SubDictsLength(g: Group, doc: Element, b: nat)
    requires Bounded(g, b) && SubDicts(g, doc, b).Ok?
    ensures |SubDicts(g, doc, b).value.val| == |g|
  {
    if g != [] {
      var n := |g| - 1;
      assert SubDicts(g[..n], doc, b).Ok?;
      SubDictsLength(g[..n], doc, b);
    }
  }

  /** Member `i`'s record is its conversion with `raise_errors=True`. */
  lemma {:induction false} SubDictsGet(g: Group, doc: Element, b: nat, i: nat)
    requires Bounded(g, b) && SubDicts(g, doc, b).Ok? && i < |g|
    ensures ModsToDict(g[i], doc, true).Ok?
    ensures |SubDicts(g, doc, b).value.val| == |g|
      && SubDicts(g, doc, b).value.val[i] == ModsToDict(g[i], doc, true).value.val
  {
    SubDictsLength(g, doc, b);
    var n := |g| - 1;
    var acc := SubDicts(g[..n], doc, b);
    var d := ModsToDict(g[n], doc, true);
    assert acc.Ok? && d.Ok?;
    assert SubDicts(g, doc, b).value.val == acc.value.val + [d.value.val];
    SubDictsLength(g[..n], doc, b);
    if i != n {
      SubDictsGet(g[..n], doc, b, i);
      assert g[..n][i] == g[i];
      assert SubDicts(g, doc, b).value.val[i] == acc.value.val[i];
    }
  }

  /** The merged record holds, under every key some member's record has, the
      set of the values merged for it, and no other key. */
  lemma MergeSubTagsGet(g: Group, doc: Element, b: nat, k: string)
    requires Bounded(g, b) && MergeSubTagsToSet(g, doc, b).Ok?
    ensures SubDicts(g, doc, b).Ok?
    ensures var ds := SubDicts(g, doc, b).value.val;
      && ((exists i :: 0 <= i < |ds| && k in Keys(ds[i])) ==> MergeValues(ds, k).Ok?)
      && Get(MergeSubTagsToSet(g, doc, b).value.val, k) ==
        if exists i :: 0 <= i < |ds| && k in Keys(ds[i]) then Some(Set(MergeValues(ds, k).value)) else None
  {
    var ds := SubDicts(g, doc, b).value.val;
    MergeAllGet(ds, SubTags(ds), k);
    AllKeysMembers(ds, k);
  }
  // ----------------------------------------------------------- MODS fold

  /** An unknown tag's group is skipped when `raise_errors` is off: the
      record is the one the groups before it built. */
  lemma ModsFoldSkipsUnknown(groups: seq<(string, Group)>, doc: Element, b: nat)
    requires groups != [] && WellGrouped(groups, b)
    requires forall l :: l in MODS_KNOWN ==> groups[|groups| - 1].0 != ModsTag(l)
    ensures ModsFold(groups, doc, false, b) == ModsFold(groups[..|groups| - 1], doc, false, b)
  {
    var n := |groups| - 1;
    var acc := ModsFold(groups[..n], doc, false, b);
    if acc.Ok? {
      UnknownModsTag(acc.value.val, groups[n].0, groups[n].1, doc, false, b);
      assert acc.value.warnings + [] == acc.value.warnings;
    }
  }

  /** With `raise_errors` on, an unknown tag makes the conversion fail. */
  lemma ModsFoldRaisesUnknown(groups: seq<(string, Group)>, doc: Element, b: nat)
    requires groups != [] && WellGrouped(groups, b)
    requires forall l :: l in MODS_KNOWN ==> groups[|groups| - 1].0 != ModsTag(l)
    ensures ModsFold(groups, doc, true, b).Err?
  {
    var n := |groups| - 1;
    var acc := ModsFold(groups[..n], doc, true, b);
    if acc.Ok? {
      UnknownModsTag(acc.value.val, groups[n].0, groups[n].1, doc, true, b);
    }
  }

  /** An element without children converts to the empty record. */
  lemma LeafToDict(e: Element, doc: Element, raiseErrors: bool)
    requires e.children == []
    ensures ModsToDict(e, doc, raiseErrors) == Ok(Out([], []))
    ensures MetsToDict(e, doc, raiseErrors) == Ok(Out([], []))
    ensures AltoToDict(e, doc, raiseErrors) == Ok(Out([], []))
  {
    assert GroupsOf(e) == [];
  }

  // ------------------------------------------------------ dispatch, descend

  /** `_to_dict` picks the converter by the root's namespace and rejects any
      other namespace. */
  lemma ToDictDispatch(root: Element, doc: Element, raiseErrors: bool)
    ensures root.tag.ns == MODS ==> ToDict(root, doc, raiseErrors) == ModsToDict(root, doc, raiseErrors)
    ensures root.tag.ns == METS ==> ToDict(root, doc, raiseErrors) == MetsToDict(root, doc, raiseErrors)
    ensures root.tag.ns in ALTO_NAMESPACES ==> ToDict(root, doc, raiseErrors) == AltoToDict(root, doc, raiseErrors)
    ensures root.tag.ns != MODS && root.tag.ns != METS && root.tag.ns !in ALTO_NAMESPACES ==>
      ToDict(root, doc, raiseErrors) == Err(ValueError("Unknown namespace " + NamespaceName(root.tag.ns)))
  {
    assert MODS != METS && MODS !in ALTO_NAMESPACES && METS !in ALTO_NAMESPACES;
  }

  /** `descend` fails with ValueError unless the group has one member, which
      it converts. */
  lemma DescendSpec(g: Group, doc: Element, raiseErrors: bool, b: nat)
    requires Bounded(g, b)
    ensures |g| == 1 ==> Descend(g, doc, raiseErrors, b) == ToDict(g[0], doc, raiseErrors)
    ensures |g| != 1 ==> Descend(g, doc, raiseErrors, b).Err? && Descend(g, doc, raiseErrors, b).error.ValueError?
  {
  }

  // ---------------------------------------------------------------- METS

  lemma MetsLocalOfTag(local: string)
    ensures LocalIn(METS, MetsTag(local)) == Some(local)
  {
    var r := LocalIn(METS, MetsTag(local));
    if r.Some? {
      MetsTagInjective(r.value, local);
    }
  }

  /** The METS local names `mets_to_dict` has a branch for. */
  const METS_KNOWN := METS_IGNORED + ["fileSec", "fileGrp"]

  /** `fileGrp` fails exactly when a member has no or an empty `USE`, and
      otherwise stores `Rules.FileGroups`' counts, without warnings. */
  lemma FileGrpTag(value: Record, g: Group, doc: Element, raiseErrors: bool, b: nat)
    requires Bounded(g, b)
    ensures MetsRule(value, MetsTag("fileGrp"), g, doc, raiseErrors, b) == Quiet(FileGroups(value, g))
    ensures MetsRule(value, MetsTag("fileGrp"), g, doc, raiseErrors, b).Ok? <==> forall e :: e in g ==> !Blank(Attr(e, "USE"))
    ensures MetsRule(value, MetsTag("fileGrp"), g, doc, raiseErrors, b).Err? ==>
      MetsRule(value, MetsTag("fileGrp"), g, doc, raiseErrors, b).error == ValueError("No USE attribute for fileGrp")
  {
    MetsLocalOfTag("fileGrp");
    FileGroupsOk(value, g);
  }

  /** The skipped METS sections never raise and change nothing. */
  lemma IgnoredMetsTag(value: Record, local: string, g: Group, doc: Element, raiseErrors: bool, b: nat)
    requires Bounded(g, b) && local in METS_IGNORED
    ensures MetsRule(value, MetsTag(local), g, doc, raiseErrors, b) == Ok(Out(value, []))
  {
    MetsLocalOfTag(local);
  }

  /** Any other METS tag is an unknown tag. */
  lemma UnknownMetsTag(value: Record, tag: string, g: Group, doc: Element, raiseErrors: bool, b: nat)
    requires Bounded(g, b)
    requires forall l :: l in METS_KNOWN ==> tag != MetsTag(l)
    ensures raiseErrors ==> MetsRule(value, tag, g, doc, raiseErrors, b) == Err(ValueError("Unknown tag \"" + tag + "\""))
    ensures !raiseErrors ==> MetsRule(value, tag, g, doc, raiseErrors, b) == Ok(Out(value, []))
  {
    var r := LocalIn(METS, tag);
    if r.Some? {
      assert r.value !in METS_KNOWN;
    }
  }

  // ---------------------------------------------------------------- ALTO

  /** A text field stores its single, attribute-free member's text under the
      local name, whatever the ALTO namespace. */
  lemma AltoTextField(value: Record, tag: string, g: Group, doc: Element, raiseErrors: bool, b: nat)
    requires g != [] && Bounded(g, b) && g[0].tag.local in ALTO_TEXT_FIELDS
    ensures var r := AltoRule(value, tag, g, doc, raiseErrors, b);
      && (r.Ok? <==> |g| == 1 && g[0].attrib == [])
      && (r.Ok? ==> r.value == Out(Put(value, g[0].tag.local, Str(TextOrEmpty(g[0]))), []))
      && (r.Err? ==> r.error.ValueError?)
  {
    assert g[0].tag.local !in ALTO_PLAIN_DESCENTS;
  }

  /** `Page`, `Styles` and `Tags` are none of the names tested before them. */
  lemma LaterAltoNames(local: string)
    requires local == "Page" || local == "Styles" || local == "Tags"
    ensures local !in ALTO_PLAIN_DESCENTS && local !in ALTO_TEXT_FIELDS && local !in ALTO_ENUMERATED
    ensures local != "OCRProcessing" && local != "processingSoftware"
  {
  }

  /** `Page` needs a single member and stores its page record. */
  lemma AltoPage(value: Record, tag: string, g: Group, doc: Element, raiseErrors: bool, b: nat)
    requires g != [] && Bounded(g, b) && g[0].tag.local == "Page"
    ensures var r := AltoRule(value, tag, g, doc, raiseErrors, b);
      && (r.Ok? <==> |g| == 1)
      && (r.Ok? ==> r.value == Out(Put(value, "Page", Rec(PageOf(doc, g, g[0].tag.ns))), []))
      && (r.Err? ==> r.error.ValueError?)
  {
    LaterAltoNames(g[0].tag.local);
    PageRecordSpec(doc, g);
  }

  /** `Tags` stores the element counts of all members. */
  lemma AltoTags(value: Record, tag: string, g: Group, doc: Element, raiseErrors: bool, b: nat)
    requires g != [] && Bounded(g, b) && g[0].tag.local == "Tags"
    ensures AltoRule(value, tag, g, doc, raiseErrors, b) == Ok(Out(Put(value, "Tags", Rec(TagsRecord(g))), []))
  {
    LaterAltoNames(g[0].tag.local);
  }

  /** `Styles` is skipped. */
  lemma AltoStyles(value: Record, tag: string, g: Group, doc: Element, raiseErrors: bool, b: nat)
    requires g != [] && Bounded(g, b) && g[0].tag.local == "Styles"
    ensures AltoRule(value, tag, g, doc, raiseErrors, b) == Ok(Out(value, []))
  {
    LaterAltoNames(g[0].tag.local);
  }

  /** The ALTO local names `alto_to_dict` has a branch for. */
  const ALTO_KNOWN := ALTO_PLAIN_DESCENTS + ALTO_TEXT_FIELDS + ALTO_ENUMERATED
    + ["OCRProcessing", "processingSoftware", "Page", "Styles", "Tags"]

  /** Any other local name is an unknown tag. */
  lemma AltoUnknown(value: Record, tag: string, g: Group, doc: Element, raiseErrors: bool, b: nat)
    requires g != [] && Bounded(g, b) && g[0].tag.local !in ALTO_KNOWN
    ensures raiseErrors ==> AltoRule(value, tag, g, doc, raiseErrors, b) == Err(ValueError("Unknown tag \"" + tag + "\""))
    ensures !raiseErrors ==> AltoRule(value, tag, g, doc, raiseErrors, b) == Ok(Out(value, []))
  {
  }

  /** `Processing`, `ocrProcessingStep` and `preProcessingStep` are numbered. */
  lemma AltoEnumerated(value: Record, tag: string, g: Group, doc: Element, raiseErrors: bool, b: nat)
    requires g != [] && Bounded(g, b) && g[0].tag.local in ALTO_ENUMERATED
    ensures AltoRule(value, tag, g, doc, raiseErrors, b) == AltoEnumerate(value, g[0].tag.local, g, doc, raiseErrors, b)
  {
    assert g[0].tag.local !in ALTO_PLAIN_DESCENTS && g[0].tag.local !in ALTO_TEXT_FIELDS;
  }

  /** Numbering fails only with the error of a member that fails to convert. */
  lemma {:induction false} AltoEnumerateErr(value: Record, prefix: string, g: Group, doc: Element, raiseErrors: bool, b: nat)
    requires Bounded(g, b) && AltoEnumerate(value, prefix, g, doc, raiseErrors, b).Err?
    ensures exists i :: 0 <= i < |g| && AltoToDict(g[i], doc, raiseErrors) == Err(AltoEnumerate(value, prefix, g, doc, raiseErrors, b).error)
  {
    var n := |g| - 1;
    var acc := AltoEnumerate(value, prefix, g[..n], doc, raiseErrors, b);
    if acc.Err? {
      AltoEnumerateErr(value, prefix, g[..n], doc, raiseErrors, b);
      var i :| 0 <= i < n && AltoToDict(g[..n][i], doc, raiseErrors) == Err(acc.error);
      assert g[..n][i] == g[i];
    } else {
      assert AltoToDict(g[n], doc, raiseErrors).Err?;
    }
  }

  /** After a successful numbering, member `i` converted and is stored under
      `<name>` followed by `i`. */
  lemma {:induction false} AltoEnumerateGet(value: Record, prefix: string, g: Group, doc: Element, raiseErrors: bool, b: nat, i: nat)
    requires Bounded(g, b) && AltoEnumerate(value, prefix, g, doc, raiseErrors, b).Ok? && i < |g|
    ensures AltoToDict(g[i], doc, raiseErrors).Ok?
    ensures Get(AltoEnumerate(value, prefix, g, doc, raiseErrors, b).value.val, prefix + NatToString(i))
      == Some(Rec(AltoToDict(g[i], doc, raiseErrors).value.val))
  {
    var n := |g| - 1;
    var acc := AltoEnumerate(value, prefix, g[..n], doc, raiseErrors, b);
    var d := AltoToDict(g[n], doc, raiseErrors);
    assert acc.Ok? && d.Ok?;
    PutGet(acc.value.val, prefix + NatToString(n), Rec(d.value.val), prefix + NatToString(i));
    if i < n {
      PrefixedKeys(prefix, NatToString(n), NatToString(i));
      NatToStringInjective(n, i);
      AltoEnumerateGet(value, prefix, g[..n], doc, raiseErrors, b, i);
      assert g[..n][i] == g[i];
    }
  }
}
