/** `_to_dict`, `mods_to_dict`, `mets_to_dict`, `alto_to_dict`, `descend` and
    `merge_sub_tags_to_set`: a document element becomes a nested record. Each
    converter groups the element's children by tag (`sorted_groupby`) and
    folds the groups into the record with the rule for the tag; rules that
    descend call `_to_dict` on a child again.

    The converters are mutually recursive. They terminate because each call
    goes to an element of smaller height: `b` bounds the heights of the
    elements a fold or a rule works on and is one less than the height of
    the element being converted. An exception is an `Err`, which drops the
    warnings collected so far. */
module Convert {
  import opened Wrappers
  import opened Strings
  import opened Dicts
  import opened Xml
  import opened Values
  import opened GroupBy
  import opened TagGroups
  import opened Rules

  /** The ALTO namespaces `_to_dict` accepts. */
  const ALTO_NAMESPACES := [
    "http://schema.ccs-gmbh.com/ALTO",
    "http://www.loc.gov/standards/alto/",
    "http://www.loc.gov/standards/alto/ns-v2#",
    "http://www.loc.gov/standards/alto/ns-v4#"]

  /** ALTO elements stored as their text. */
  const ALTO_TEXT_FIELDS := [
    "MeasurementUnit", "processingDateTime", "processingAgency", "processingStepDescription",
    "processingStepSettings", "softwareCreator", "softwareName", "softwareVersion",
    "fileName", "fileIdentifier"]

  /** ALTO elements whose attribute-free single instance is descended into. */
  const ALTO_PLAIN_DESCENTS := ["Description", "sourceImageInformation", "Layout"]

  /** ALTO elements numbered `<name>0`, `<name>1`, ... */
  const ALTO_ENUMERATED := ["Processing", "ocrProcessingStep", "preProcessingStep"]

  /** METS sections that are skipped. */
  const METS_IGNORED := ["amdSec", "dmdSec", "metsHdr", "structLink", "structMap"]

  /** The Clark-notation tag strings the converters compare group keys to. */
  function ModsTag(local: string): string { Clark(QName(MODS, local)) }
  function MetsTag(local: string): string { Clark(QName(METS, local)) }

  /** The local name of a Clark-notation tag in namespace `ns`, if it is in
      that namespace. */
  function LocalIn(ns: string, tag: string): (r: Option<string>)
    requires ns != ""
    ensures r.Some? ==> tag == Clark(QName(ns, r.value))
    ensures r.None? ==> forall l :: tag != Clark(QName(ns, l))
  {
    var p := "{" + ns + "}";
    if |p| <= |tag| && tag[..|p|] == p then
      assert tag == p + tag[|p|..];
      Some(tag[|p|..])
    else
      assert forall l :: (p + l)[..|p|] == p;
      None
  }

  /** `attrgetter('tag')`: the group key of an element. */
  function TagKey(x: Element): string { Clark(x.tag) }

  /** The groups `sorted_groupby(e, key=attrgetter('tag'))` yields. */
  function GroupsOf(e: Element): seq<(string, Group)> { SortedGroupBy(e.children, TagKey) }

  /** Every group is non-empty and its members' heights are at most `b`. */
  predicate WellGrouped(groups: seq<(string, Group)>, b: nat) {
    forall i :: 0 <= i < |groups| ==> groups[i].1 != [] && Bounded(groups[i].1, b)
  }

  lemma GroupedBounded(s: Group, key: Element -> string, b: nat)
    requires Bounded(s, b)
    ensures WellGrouped(SortedGroupBy(s, key), b)
  {
    SortedGroupBySpec(s, key);
  }

  lemma ChildGroupsBounded(e: Element)
    ensures WellGrouped(GroupsOf(e), Height(e) - 1)
  {
    ChildrenBounded(e);
    GroupedBounded(e.children, TagKey, Height(e) - 1);
  }

  /** `str(namespace)` in the error message, `None` for no namespace. */
  function NamespaceName(ns: string): string { if ns == "" then "None" else ns }

  predicate NotFormer(e: Element) { Attr(e, "type") != Some("former") }
  predicate HasEventType(e: Element) { Attr(e, "eventType").Some? }
  predicate Untyped(e: Element) { Attr(e, "type").None? }

  /** `lambda g: g.attrib['eventType']`, used once every member has one. */
  function EventTypeKey(e: Element): string {
    match Attr(e, "eventType")
    case Some(t) => t
    case None => ""
  }

  /** `lambda g: g.attrib['type']`, used once every member has one. */
  function TypeKey(e: Element): string {
    match Attr(e, "type")
    case Some(t) => t
    case None => ""
  }

  /** A rule that assigns nothing. */
  function Pass(value: Record): Result<Out<Record>> { Ok(Out(value, [])) }

  /** The unknown-tag branch: raise, or skip the group. */
  function Unknown(value: Record, tag: string, raiseErrors: bool): Result<Out<Record>> {
    if raiseErrors then Err(UnknownTag(tag)) else Ok(Out(value, []))
  }

  // ------------------------------------------------------------ dispatch

  /** `_to_dict(root, raise_errors)`: the converter for the root's namespace. */
  function ToDict(root: Element, doc: Element, raiseErrors: bool): Result<Out<Record>>
    decreases Height(root), 4, 0, 0
  {
    if root.tag.ns == MODS then ModsToDict(root, doc, raiseErrors)
    else if root.tag.ns == METS then MetsToDict(root, doc, raiseErrors)
    else if root.tag.ns in ALTO_NAMESPACES then AltoToDict(root, doc, raiseErrors)
    else Err(ValueError("Unknown namespace " + NamespaceName(root.tag.ns)))
  }

  /** `descend(raise_errors)`: the single member, converted. */
  function Descend(g: Group, doc: Element, raiseErrors: bool, b: nat): Result<Out<Record>>
    requires Bounded(g, b)
    decreases b + 1, 0, 0, 0
  {
    var s :- IsSingleton(g);
    assert s[0] in g;
    ToDict(s[0], doc, raiseErrors)
  }

  /** A record stored under `key`, with the warnings of the rule before it. */
  function Nest(value: Record, key: string, ws: seq<string>, d: Result<Out<Record>>): Result<Out<Record>> {
    var r :- d;
    Ok(Out(Put(value, key, Rec(r.val)), ws + r.warnings))
  }

  // ---------------------------------------------------------------- MODS

  /** `mods_to_dict(mods, raise_errors)`. */
  function ModsToDict(e: Element, doc: Element, raiseErrors: bool): Result<Out<Record>>
    decreases Height(e), 3, 0, 0
  {
    ChildGroupsBounded(e);
    ModsFold(GroupsOf(e), doc, raiseErrors, Height(e) - 1)
  }

  /** The loop over the groups: each rule sees the record built by the groups
      before it. */
  function ModsFold(groups: seq<(string, Group)>, doc: Element, raiseErrors: bool, b: nat): Result<Out<Record>>
    requires WellGrouped(groups, b)
    decreases b + 1, 2, 0, |groups|
  {
    if groups == [] then Ok(Out([], []))
    else
      var last := groups[|groups| - 1];
      var acc :- ModsFold(groups[..|groups| - 1], doc, raiseErrors, b);
      var step :- ModsRule(acc.val, last.0, last.1, doc, raiseErrors, b);
      Ok(Out(step.val, acc.warnings + step.warnings))
  }

  /** The branches of `mods_to_dict`'s `if`/`elif` chain; tags with the same
      treatment share one, parameterised by the key they write. */
  datatype ModsBranch =
    | LocationRule | PhysicalLocationRule | ShelfLocatorRule | OriginInfoRule | PlaceRule
    | PlaceTermRule | KeyDateRule(key: string) | SingleDateRule(key: string)
    | ForcedTextRule(key: string, warn: bool) | ClassificationRule | RecordInfoRule
    | RecordIdentifierRule | IdentifierRule | TitleInfoRule | PlainTextRule(key: string)
    | AbstractRule | SubjectRule | GenreRule | LanguageRule | LanguageTermRule | ScriptTermRule
    | RelatedItemRule | NameRule | RoleRule | RoleTermRule | NamePartRule | AccessConditionRule
    | PassRule | NoRule

  /** The MODS local names whose branch is `pass`. */
  const MODS_IGNORED := [
    "note", "part", "topic", "cartographics", "geographic", "temporal", "nameIdentifier",
    "physicalDescription", "extension", "mods"]

  /** The branch the chain takes for a MODS tag with this local name; the
      chain tests distinct names, so the `pass` branches can be tested
      first. */
  function ModsBranchOf(local: string): ModsBranch {
    if local in MODS_IGNORED then PassRule
    else if local == "location" then LocationRule
    else if local == "physicalLocation" then PhysicalLocationRule
    else if local == "shelfLocator" then ShelfLocatorRule
    else if local == "originInfo" then OriginInfoRule
    else if local == "place" then PlaceRule
    else if local == "placeTerm" then PlaceTermRule
    else if local == "dateIssued" || local == "dateCreated" then KeyDateRule(local)
    else if local == "dateCaptured" || local == "dateOther" then SingleDateRule(local)
    else if local == "publisher" then ForcedTextRule(local, false)
    else if local == "edition" then ForcedTextRule(local, true)
    else if local == "classification" then ClassificationRule
    else if local == "recordInfo" then RecordInfoRule
    else if local == "recordIdentifier" then RecordIdentifierRule
    else if local == "identifier" then IdentifierRule
    else if local == "titleInfo" then TitleInfoRule
    else if local == "title" || local == "partName" then PlainTextRule(local)
    else if local == "subTitle" then ForcedTextRule(local, true)
    else if local == "abstract" then AbstractRule
    else if local == "subject" then SubjectRule
    else if local == "genre" then GenreRule
    else if local == "language" then LanguageRule
    else if local == "languageTerm" then LanguageTermRule
    else if local == "scriptTerm" then ScriptTermRule
    else if local == "relatedItem" then RelatedItemRule
    else if local == "name" then NameRule
    else if local == "role" then RoleRule
    else if local == "roleTerm" then RoleTermRule
    else if local == "namePart" then NamePartRule
    else if local == "displayForm" then PlainTextRule(local)
    else if local == "accessCondition" then AccessConditionRule
    else if local == "typeOfResource" then PlainTextRule(local)
    else NoRule
  }

  /** The rule for `tag`: `tag == '{http://www.loc.gov/mods/v3}<local>'`
      holds exactly when the tag lies in the MODS namespace with that local
      name, so the chain is decided by the local name. */
  function ModsRule(value: Record, tag: string, g: Group, doc: Element, raiseErrors: bool, b: nat): Result<Out<Record>>
    requires g != [] && Bounded(g, b)
    decreases b + 1, 1, 1, 0
  {
    match LocalIn(MODS, tag)
    case None => Unknown(value, tag, raiseErrors)
    case Some(local) => ModsApply(value, tag, ModsBranchOf(local), g, doc, raiseErrors, b)
  }

  /** The body of each branch. */
  function ModsApply(value: Record, tag: string, branch: ModsBranch, g: Group, doc: Element, raiseErrors: bool, b: nat): Result<Out<Record>>
    requires g != [] && Bounded(g, b)
    decreases b + 1, 1, 0, 0
  {
    match branch
    case LocationRule =>
      var f := Filter(tag, g, NotFormer, None);
      var a :- HasAttributes(f.val, [map[], Attrs([("type", "current")])]);
      Nest(value, "location", [], Descend(a, doc, raiseErrors, b))
    case PhysicalLocationRule => Ok(Out(PhysicalLocation(value, tag, g), []))
    case ShelfLocatorRule => ShelfLocator(value, tag, g)
    case OriginInfoRule => OriginInfo(value, tag, g, doc, raiseErrors, b)
    case PlaceRule =>
      var f := ForceSingleton(tag, g, false);
      var h :- HasNoAttributes(f.val);
      Nest(value, "place", [], Descend(h, doc, raiseErrors, b))
    case PlaceTermRule => Quiet(SingletonText(value, "placeTerm", g, [Attrs([("type", "text")])]))
    case KeyDateRule(key) => Ok(KeyDateText(value, key, tag, g))
    case SingleDateRule(key) => SingleDateText(value, key, g)
    case ForcedTextRule(key, warn) => ForcedText(value, key, tag, g, warn)
    case ClassificationRule => Quiet(Classification(value, g))
    case RecordInfoRule =>
      var s :- IsSingleton(g);
      var h :- HasNoAttributes(s);
      Nest(value, "recordInfo", [], Descend(h, doc, raiseErrors, b))
    case RecordIdentifierRule => Quiet(RecordIdentifier(value, g))
    case IdentifierRule => Quiet(Identifiers(value, g))
    case TitleInfoRule =>
      var f := Filter(tag, g, Untyped, None);
      var s :- IsSingleton(f.val);
      var h :- HasNoAttributes(s);
      Nest(value, "titleInfo", [], Descend(h, doc, raiseErrors, b))
    case PlainTextRule(key) => Quiet(PlainText(value, key, g))
    case AbstractRule => Quiet(AllText(value, "abstract", g))
    case SubjectRule => Subjects(value, tag, g, FirstSeen(AttrValues(g, "authority")), doc, raiseErrors, b)
    case GenreRule => Ok(Out(Genre(value, g), []))
    case LanguageRule => Nest(value, "language", [], MergeSubTagsToSet(g, doc, b))
    case LanguageTermRule => Quiet(CodeSet(value, "languageTerm", g, ISO639))
    case ScriptTermRule => ScriptTerm(value, g)
    case RelatedItemRule =>
      if exists e :: e in g && Attr(e, "type").None? then Err(KeyError("type"))
      else
        GroupedBounded(g, TypeKey, b);
        RelatedItems(value, SortedGroupBy(g, TypeKey), doc, raiseErrors, b)
    case NameRule => ModsEnumerate(value, "name", g, doc, raiseErrors, b)
    case RoleRule =>
      var h :- HasNoAttributes(g);
      Nest(value, "role", [], MergeSubTagsToSet(h, doc, b))
    case RoleTermRule => Quiet(CodeSet(value, "roleTerm", g, MARCRELATOR))
    case NamePartRule => Ok(Out(NameParts(value, g), []))
    case AccessConditionRule => Quiet(AccessConditions(value, g))
    case PassRule => Pass(value)
    case NoRule => Unknown(value, tag, raiseErrors)
  }

  /** `originInfo`: event types are fixed, members still without one are
      dropped with a warning, and the rest are grouped by event type and
      numbered within their group. */
  function OriginInfo(value: Record, tag: string, g: Group, doc: Element, raiseErrors: bool, b: nat): Result<Out<Record>>
    requires Bounded(g, b)
    decreases b + 1, 0, 2, 0
  {
    var fx := FixEventType(g);
    ShapesBounded(g, fx.val, b);
    var f := Filter(tag, fx.val, HasEventType, Some("has no eventType"));
    GroupedBounded(f.val, EventTypeKey, b);
    var r :- OriginInfos(value, SortedGroupBy(f.val, EventTypeKey), doc, raiseErrors, b);
    Ok(Out(r.val, fx.warnings + f.warnings + r.warnings))
  }

  function OriginInfos(value: Record, groups: seq<(string, Group)>, doc: Element, raiseErrors: bool, b: nat): Result<Out<Record>>
    requires WellGrouped(groups, b)
    decreases b + 1, 0, 1, |groups|
  {
    if groups == [] then Ok(Out(value, []))
    else
      var last := groups[|groups| - 1];
      var acc :- OriginInfos(value, groups[..|groups| - 1], doc, raiseErrors, b);
      var r :- ModsEnumerate(acc.val, "originInfo-" + last.0, last.1, doc, raiseErrors, b);
      Ok(Out(r.val, acc.warnings + r.warnings))
  }

  /** `for n, e in enumerate(group): value[prefix + str(n)] = mods_to_dict(e)`. */
  function ModsEnumerate(value: Record, prefix: string, g: Group, doc: Element, raiseErrors: bool, b: nat): Result<Out<Record>>
    requires Bounded(g, b)
    decreases b + 1, 0, 0, |g|
  {
    if g == [] then Ok(Out(value, []))
    else
      var n := |g| - 1;
      assert g[n] in g;
      var acc :- ModsEnumerate(value, prefix, g[..n], doc, raiseErrors, b);
      var d :- ModsToDict(g[n], doc, raiseErrors);
      Ok(Out(Put(acc.val, prefix + NatToString(n), Rec(d.val)), acc.warnings + d.warnings))
  }

  /** `subject`: per authority (or none), the forced single member's record. */
  function Subjects(value: Record, tag: string, g: Group, auths: seq<Option<string>>, doc: Element, raiseErrors: bool, b: nat): Result<Out<Record>>
    requires Bounded(g, b)
    decreases b + 1, 0, 1, |auths|
  {
    if auths == [] then Ok(Out(value, []))
    else
      var a := auths[|auths| - 1];
      var acc :- Subjects(value, tag, g, auths[..|auths| - 1], doc, raiseErrors, b);
      var f := ForceSingleton(tag, WithAttr(g, "authority", a), true);
      Nest(acc.val, AuthorityKey("subject", a), acc.warnings + f.warnings, Descend(f.val, doc, raiseErrors, b))
  }

  /** `relatedItem`: the single `original` or `host` item is descended into;
      other types are skipped. */
  function RelatedItems(value: Record, groups: seq<(string, Group)>, doc: Element, raiseErrors: bool, b: nat): Result<Out<Record>>
    requires WellGrouped(groups, b)
    decreases b + 1, 0, 1, |groups|
  {
    if groups == [] then Ok(Out(value, []))
    else
      var last := groups[|groups| - 1];
      var acc :- RelatedItems(value, groups[..|groups| - 1], doc, raiseErrors, b);
      if last.0 == "original" || last.0 == "host" then
        Nest(acc.val, "relatedItem-" + last.0, acc.warnings, Descend(last.1, doc, raiseErrors, b))
      else Ok(acc)
  }

  /** `merge_sub_tags_to_set()`: the members are converted (always raising on
      unknown tags) and every key's truthy values are merged into one set. */
  function MergeSubTagsToSet(g: Group, doc: Element, b: nat): Result<Out<Record>>
    requires Bounded(g, b)
    decreases b + 1, 0, 1, 0
  {
    var ds :- SubDicts(g, doc, b);
    var merged :- MergeAll(ds.val, SubTags(ds.val));
    Ok(Out(merged, ds.warnings))
  }

  /** `[mods_to_dict(e) for e in group]`. */
  function SubDicts(g: Group, doc: Element, b: nat): Result<Out<seq<Record>>>
    requires Bounded(g, b)
    decreases b + 1, 0, 0, |g|
  {
    if g == [] then Ok(Out([], []))
    else
      var n := |g| - 1;
      assert g[n] in g;
      var acc :- SubDicts(g[..n], doc, b);
      var d :- ModsToDict(g[n], doc, true);
      Ok(Out(acc.val + [d.val], acc.warnings + d.warnings))
  }

  // ---------------------------------------------------------------- METS

  /** `mets_to_dict(mets, raise_errors)`. */
  function MetsToDict(e: Element, doc: Element, raiseErrors: bool): Result<Out<Record>>
    decreases Height(e), 3, 0, 0
  {
    ChildGroupsBounded(e);
    MetsFold(GroupsOf(e), doc, raiseErrors, Height(e) - 1)
  }

  function MetsFold(groups: seq<(string, Group)>, doc: Element, raiseErrors: bool, b: nat): Result<Out<Record>>
    requires WellGrouped(groups, b)
    decreases b + 1, 2, 0, |groups|
  {
    if groups == [] then Ok(Out([], []))
    else
      var last := groups[|groups| - 1];
      var acc :- MetsFold(groups[..|groups| - 1], doc, raiseErrors, b);
      var step :- MetsRule(acc.val, last.0, last.1, doc, raiseErrors, b);
      Ok(Out(step.val, acc.warnings + step.warnings))
  }

  function MetsRule(value: Record, tag: string, g: Group, doc: Element, raiseErrors: bool, b: nat): Result<Out<Record>>
    requires Bounded(g, b)
    decreases b + 1, 1, 0, 0
  {
    match LocalIn(METS, tag)
    case None => Unknown(value, tag, raiseErrors)
    case Some(local) =>
      if local in METS_IGNORED then Pass(value)
      else if local == "fileSec" then Nest(value, "fileSec", [], Descend(g, doc, raiseErrors, b))
      else if local == "fileGrp" then Quiet(FileGroups(value, g))
      else Unknown(value, tag, raiseErrors)
  }

  // ---------------------------------------------------------------- ALTO

  /** `alto_to_dict(alto, raise_errors)`. */
  function AltoToDict(e: Element, doc: Element, raiseErrors: bool): Result<Out<Record>>
    decreases Height(e), 3, 0, 0
  {
    ChildGroupsBounded(e);
    AltoFold(GroupsOf(e), doc, raiseErrors, Height(e) - 1)
  }

  function AltoFold(groups: seq<(string, Group)>, doc: Element, raiseErrors: bool, b: nat): Result<Out<Record>>
    requires WellGrouped(groups, b)
    decreases b + 1, 2, 0, |groups|
  {
    if groups == [] then Ok(Out([], []))
    else
      var last := groups[|groups| - 1];
      var acc :- AltoFold(groups[..|groups| - 1], doc, raiseErrors, b);
      var step :- AltoRule(acc.val, last.0, last.1, doc, raiseErrors, b);
      Ok(Out(step.val, acc.warnings + step.warnings))
  }

  /** The ALTO rules dispatch on the local name alone, so every ALTO version
      is read the same way. */
  function AltoRule(value: Record, tag: string, g: Group, doc: Element, raiseErrors: bool, b: nat): Result<Out<Record>>
    requires g != [] && Bounded(g, b)
    decreases b + 1, 1, 0, 0
  {
    var local := g[0].tag.local;
    if local in ALTO_PLAIN_DESCENTS then
      var s :- IsSingleton(g);
      var h :- HasNoAttributes(s);
      Nest(value, local, [], Descend(h, doc, raiseErrors, b))
    else if local in ALTO_TEXT_FIELDS then Quiet(PlainText(value, local, g))
    else if local == "OCRProcessing" || local == "processingSoftware" then
      Nest(value, local, [], Descend(g, doc, raiseErrors, b))
    else if local in ALTO_ENUMERATED then AltoEnumerate(value, local, g, doc, raiseErrors, b)
    else if local == "Page" then
      var page :- PageRecord(doc, g);
      Ok(Out(Put(value, "Page", Rec(page)), []))
    else if local == "Styles" then Pass(value)
    else if local == "Tags" then Ok(Out(Put(value, "Tags", Rec(TagsRecord(g))), []))
    else Unknown(value, tag, raiseErrors)
  }

  /** `for n, e in enumerate(group): value[f'{localname}{n}'] = alto_to_dict(e)`. */
  function AltoEnumerate(value: Record, prefix: string, g: Group, doc: Element, raiseErrors: bool, b: nat): Result<Out<Record>>
    requires Bounded(g, b)
    decreases b + 1, 0, 0, |g|
  {
    if g == [] then Ok(Out(value, []))
    else
      var n := |g| - 1;
      assert g[n] in g;
      var acc :- AltoEnumerate(value, prefix, g[..n], doc, raiseErrors, b);
      var d :- AltoToDict(g[n], doc, raiseErrors);
      Ok(Out(Put(acc.val, prefix + NatToString(n), Rec(d.val)), acc.warnings + d.warnings))
  }
}
