# mods4pandas core, modelled in Dafny

mods4pandas turns METS/MODS metadata and ALTO OCR files into flat tables.
Three converters do the work:

- `mods_to_dict` and `mets_to_dict` turn a MODS or METS element into a nested dictionary.
- `alto_to_dict` does the same for an ALTO document.
- `pages_to_dict` builds one record per physical page of a METS file: its files and the logical structure types it belongs to.

The converters group the children of an element by tag (`sorted_groupby`).
A `TagGroup` then checks and repairs each group: singletons, attributes, dates, event types and script terms.
The nested records are flattened (`flatten`) and written into SQLite tables (`insert_into_db`).
The tables later become Parquet files, with column types chosen from the recorded Python types (`convert_db_to_parquet`).

This project models that core and proves properties of it:

| file | module | models |
|---|---|---|
| wrappers.dfy | Wrappers | `Option`, `Result`, and the Python exceptions the core raises, by kind and message |
| strings.dfy | Strings | decimal `str`/`int` conversions, `str.join`, ASCII `lower()` |
| dicts.dfy | Dicts | Python dictionaries as association lists in insertion order: `d[k] = v`, `d.get`, `dict(items)`, `update` |
| xml.dfy | Xml | lxml elements: qualified tag, attribute dictionary, optional text, children, and `iter()` |
| values.dfy | Values | the values a record holds (`None`, `str`, `int`, `set`, nested `dict`), `bool()`, `type().__name__` |
| dates.dfy | Dates | the two date patterns of `TagGroup` and the German-to-ISO rewrite |
| groupby.dfy | GroupBy | `sorted_groupby`: a stable `sorted` followed by `itertools.groupby` |
| taggroups.dfy | TagGroups | every `TagGroup` method as a function on the member list, with warnings returned alongside |
| taggroup.dfy | TagGroupObject | the `TagGroup` class itself; its methods' loops are proved against `TagGroups` |
| rules.dfy | Rules | the per-tag rules of the converters (`recordIdentifier`, `identifier`, `fileGrp`, `Page`, `merge_sub_tags_to_set`, ...) |
| convert.dfy | Convert | `mods_to_dict`, `mets_to_dict`, `alto_to_dict`, `_to_dict` and `descend`, mutually recursive over the element tree |
| convert_props.dfy | ConvertProps | the dispatch of each converter and the outcome of its branches |
| convert_keys.dfy | ConvertKeys | the numbered `originInfo-<eventType><n>` keys and the `subject[-<authority>]` keys of `mods_to_dict` |
| flatten.dfy | Flatten | `flatten` |
| sink.dfy | Sink | `valid_column_key`, `column_names_csv`, the module-level schema state of `insert_into_db`/`insert_into_db_multiple` (as a `Database` class), and the type dispatch of `convert_db_to_parquet` |
| struct_links.dfy | StructLinks | the logical structure map as a table of nodes with parent links (`getparent()`), the ancestor generator and the `struct_divs` set |
| pages.dfy | Pages | `pages_to_dict` |

Each `TagGroup` method that mutates the group or loops has two parts:

- a function in `TagGroups` that states its result;
- a method of the class `TagGroupObject.TagGroup` whose loop is proved to compute that function.

`pages_to_dict` is built the same way:

- the functions of `Pages` state the records;
- the methods `Pages.FptrColumns`, `Pages.StructLog`, `Pages.TypeColumns`, `Pages.PageDict` and `Pages.PagesToDict` carry its loops.

The converters and the schema code differ in how they raise errors:

- A converter returns `Result`. An exception ends the conversion, and the warnings gathered so far are dropped with it.
- The asserts of `insert_into_db` become `AssertionError` results of `Sink.Database.Insert`. The state changes already made stay, as they do in Python.

Where the project's documentation and its code differ, the model follows the code:

- A column's type is recorded from the first value seen under its key, even when that value is `None`. The type `NoneType` then makes `convert_db_to_parquet` raise NotImplementedError.
- A column of type `set` is skipped by the conversion (`continue`) and keeps its text, instead of being reported as unsupported.

## Model

| member | source | states |
|---|---|---|
| Values.TypeName | src/mods4pandas/lib.py:352 | the recorded type name is one of `str`, `NoneType`, `int`, `set`, `dict` |
| Dates.GermanToIso | src/mods4pandas/lib.py:122-124 | the rewritten date is `yyyy-mm-dd`, its three parts taken from the `yyyy`, `mm` and `dd` groups of the match |
| Dates.GermanToIsoIsIso | src/mods4pandas/lib.py:116-126 | a converted German date matches the ISO pattern, so a second `fix_date` accepts it as ISO |
| Dates.IsoAndGermanDisjoint | src/mods4pandas/lib.py:100-101 | no text matches both date patterns |
| Dates.GermanExample | src/mods4pandas/lib.py:138 | `06.08.1820` is a German date and becomes `1820-08-06` |
| Dates.IsoExamples | src/mods4pandas/lib.py:100 | `18XX`, `1820-08-06` and `1820` followed by a newline match the ISO pattern; `1820-08`, `XX20` and the empty text do not |
| GroupBy.Sort | src/mods4pandas/lib.py:270 | `sorted` returns a permutation of its input |
| GroupBy.SortSorted | src/mods4pandas/lib.py:270 | the result of `sorted` is ordered by key |
| GroupBy.SortStable | src/mods4pandas/lib.py:270 | `sorted` is stable: the members with one key keep their relative order |
| GroupBy.Insert | src/mods4pandas/lib.py:270 | inserting one member adds exactly that member to the multiset |
| GroupBy.Runs | src/mods4pandas/lib.py:270 | `groupby` yields non-empty runs, none exactly for an empty input, and the first run starts with the first member |
| GroupBy.ConcatRuns | src/mods4pandas/lib.py:270 | the runs put back together give the input |
| GroupBy.RunsOfSorted | src/mods4pandas/lib.py:263-270 | on sorted input, each run is exactly the members with its key, and the run keys increase strictly |
| GroupBy.SortedGroupBySpec | src/mods4pandas/lib.py:263-270 | each group holds exactly the members with its key, in their original order; the keys increase strictly, so no key has two groups; every member's key has a group |
| TagGroups.IsSingleton | src/mods4pandas/lib.py:44-47 | succeeds, returning the group unchanged, exactly when the group has one member; otherwise ValueError |
| TagGroups.HasAttributes | src/mods4pandas/lib.py:52-57 | succeeds, returning the group, exactly when every member's attribute dictionary equals one of the allowed ones, order-insensitively; otherwise ValueError |
| TagGroups.HasNoAttributesSpec | src/mods4pandas/lib.py:49-50 | `has_no_attributes` succeeds exactly when no member has any attribute |
| TagGroups.Filter | src/mods4pandas/lib.py:82-90 | the result holds exactly the members that meet the condition; there is one "Filtered" warning per dropped member when `warn` is truthy, and none otherwise |
| TagGroups.FilterAppend | src/mods4pandas/lib.py:82-90 | filtering distributes over concatenation, so the kept members keep their order |
| TagGroups.FilterAllPass | src/mods4pandas/lib.py:82-90 | a group whose members all pass comes back unchanged and without warnings |
| TagGroups.ForceSingleton | src/mods4pandas/lib.py:92-98 | a one-member group is returned as it is, silently; any other group is cut to at most its first member, with the "Forced single instance" warning exactly when `warn` is set |
| TagGroups.ForceThenSingleton | src/mods4pandas/lib.py:92-98 | after `force_singleton`, `is_singleton` fails only for an empty group |
| TagGroups.TextIsJoin | src/mods4pandas/lib.py:67-74 | when every member has a non-empty text, `text(sep)` is `sep.join` of the texts |
| TagGroups.TextNonEmpty | src/mods4pandas/lib.py:67-74 | a first member with a text makes `text()` non-empty |
| TagGroups.TextSkipsOnlyLeadingEmpty | src/mods4pandas/lib.py:67-74 | a text-less member at the front adds nothing, but one in the middle still adds a separator |
| TagGroups.TextSet | src/mods4pandas/lib.py:76-77 | every member's text, `None` included, is in the set, and the set holds only hashable values |
| TagGroups.TextSetExact | src/mods4pandas/lib.py:76-77 | a value is in the text set exactly when some member's text is that value |
| TagGroups.FilterByParts | src/mods4pandas/lib.py:63-65 | the members with a true key and those with a false key together are a permutation of the group |
| TagGroups.SortByFlagSpec | src/mods4pandas/lib.py:63-65 | sorting by a boolean key is a permutation; with `reverse` no false member precedes a true one, without it no true member precedes a false one |
| TagGroups.Attributes | src/mods4pandas/lib.py:201-214 | the merged attributes form a dictionary: each local name occurs once |
| TagGroups.AttributesLastWins | src/mods4pandas/lib.py:209-214 | each local name holds the value of its last occurrence in document order, and only names that occur are keys |
| TagGroups.AttributesOfPlainElement | src/mods4pandas/lib.py:201-214 | for one element whose attributes have no namespace, the result is the element's attributes in their order |
| TagGroups.LocalItemsDistinct | src/mods4pandas/lib.py:212 | distinct un-namespaced attributes keep distinct local names |
| TagGroups.BumpGet | src/mods4pandas/lib.py:222 | `counts[key] = counts.get(key, 0) + 1` adds one to that key's count and changes no other count |
| TagGroups.CountsExact | src/mods4pandas/lib.py:216-223 | each count is exactly the number of traversed elements with that local name; a name that does not occur has no key |
| TagGroups.SubelementCountsExact | src/mods4pandas/lib.py:216-223 | the same for the traversals of the members, the members themselves included |
| TagGroups.TagrefsCount | src/mods4pandas/lib.py:249-259 | the result has one key, the expression followed by `-count`; for one member its value is the number of `String` elements with `TAGREFS` in the whole document |
| TagGroups.Relabel | src/mods4pandas/lib.py:105-109 | `encoding="w3cdtf"` becomes `iso8601`, with the w3cdtf warning; the tag, children, text and every other attribute stay; a member without it is returned unchanged and without a warning |
| TagGroups.RelabelAll | src/mods4pandas/lib.py:105-109 | the first loop relabels member by member, and its warnings are the members' warnings |
| TagGroups.Classify | src/mods4pandas/lib.py:112-129 | a member is dropped, with the empty-date warning, exactly when it has no text; a kept member keeps its tag, children and every attribute but `encoding`; its text is rewritten from German to ISO when it is a German date and not an ISO one, and kept otherwise; its encoding becomes `iso8601` for an ISO or German date and is kept otherwise; a canonical ISO date draws no warning, any other text exactly one: "Added iso8601 encoding to date …" for an ISO date, "Converted date … to iso8601 encoding" for a German one, `Not a iso8601 date: "…"` otherwise |
| TagGroups.ClassifySilence | src/mods4pandas/lib.py:112-129 | a canonical date (encoding `iso8601` and an ISO text) passes unchanged and silently; every other member with a text draws exactly one warning |
| TagGroups.ClassifyCanonicalises | src/mods4pandas/lib.py:116-126 | a member with an ISO or a German date comes out with encoding `iso8601` and an ISO text |
| TagGroups.ClassifyAllSpec | src/mods4pandas/lib.py:111-130 | the second loop keeps exactly the members with a text, in order: member `j` of the result is the `j`-th member with a text, classified on its own |
| TagGroups.Texted | src/mods4pandas/lib.py:112-115 | the members with a text, as many as there are, and nothing else |
| TagGroups.ClassifyAllOrder | src/mods4pandas/lib.py:111-130 | the order part of the above, by induction over the loop |
| TagGroups.ClassifyAllMembers | src/mods4pandas/lib.py:111-130 | every kept member is the classification of a member of the group |
| TagGroups.TextedMap | src/mods4pandas/lib.py:105-115 | a member-by-member rewrite that keeps every text, such as the first loop, commutes with keeping the members with a text |
| TagGroups.FixDateSpec | src/mods4pandas/lib.py:103-130 | `fix_date` keeps exactly the members with a text, in order: member `j` of the result is the `j`-th member with a text, relabelled and classified, and its text is that member's date rewritten from German to ISO where it is German; no `w3cdtf` encoding is left behind and every subtree is kept |
| TagGroups.FixDateOrder | src/mods4pandas/lib.py:103-130 | the order and text part of the above |
| TagGroups.FixDateKeeps | src/mods4pandas/lib.py:103-130 | the no-`w3cdtf` and subtree part of the above |
| TagGroups.FixDateQuiet | src/mods4pandas/lib.py:103-130 | on canonical members `fix_date` changes nothing and warns nothing |
| TagGroups.FixDateIdempotent | src/mods4pandas/lib.py:103-130 | when every text is missing or a date in either form, every member comes out canonical, and a second `fix_date` is a silent no-op |
| TagGroups.FixDateGermanExample | src/mods4pandas/lib.py:122-126 | `06.08.1820` without an encoding becomes `1820-08-06` with encoding `iso8601`, and the "Converted date" warning is given |
| TagGroups.FixEventTypeOne | src/mods4pandas/lib.py:147-170 | tag, children, text and every attribute but `eventType` stay; a member that has an `eventType` is returned unchanged and silently; exactly one warning when a missing `eventType` gets set, none otherwise, and that warning names the rule that set it |
| TagGroups.FixEventTypeOneSpec | src/mods4pandas/lib.py:147-170 | a member without `eventType` gets `digitization` when it is an electronic edition of the Staatsbibliothek, else `publication` when it has a `dateIssued`, else `production` when it has a `dateCreated`, each with its own warning ("Fixed eventType for electronic ed.", "… for an issued origin", "… for a created origin"), and stays without one, unchanged and silently, exactly when none of these applies; an existing one is kept |
| TagGroups.SetEventType | src/mods4pandas/lib.py:152-166 | setting `eventType` gives it the value and keeps every other attribute |
| TagGroups.FixEventTypeKeepsUnfixable | src/mods4pandas/lib.py:143-171 | a group of members none of the rules covers comes back unchanged and without warnings |
| TagGroups.FixEventType | src/mods4pandas/lib.py:143-171 | member `i` of the result is member `i` fixed on its own, and the warnings are theirs in order |
| TagGroups.FixScriptTermOne | src/mods4pandas/lib.py:173-179 | KeyError(`authority`) exactly when the member has no `authority`; otherwise `ISO15924` is lower-cased with one warning |
| TagGroups.ScriptTermFixedSpec | src/mods4pandas/lib.py:176-177 | only the authority `ISO15924` changes, to `iso15924`; every other attribute stays |
| TagGroups.FixScriptTermSpec | src/mods4pandas/lib.py:173-179 | fails with KeyError(`authority`) exactly when some member has no authority; otherwise every member is fixed on its own, with the warnings in order |
| TagGroups.FixScriptTermStops | src/mods4pandas/lib.py:173-179 | a member without an authority makes the whole call fail |
| TagGroups.WithTextSameTexts | src/mods4pandas/lib.py:112-115 | groups with the same texts position by position keep the same number of members |
| TagGroupObject.TagGroup.constructor | src/mods4pandas/lib.py:34-36 | the object holds the given tag and group |
| TagGroupObject.TagGroup.Sort | src/mods4pandas/lib.py:63-65 | the group becomes its stable sort by the boolean key, a permutation of the old group |
| TagGroupObject.TagGroup.Text | src/mods4pandas/lib.py:67-74 | the accumulator loop returns `TagGroups.Text` of the group |
| TagGroupObject.TagGroup.Filter | src/mods4pandas/lib.py:82-90 | the loop returns a new object with the same tag, whose group and warnings are those of `TagGroups.Filter` |
| TagGroupObject.TagGroup.ForceSingleton | src/mods4pandas/lib.py:92-98 | returns the object itself for one member and a new object otherwise, with the group and warnings of `TagGroups.ForceSingleton` |
| TagGroupObject.TagGroup.FixDate | src/mods4pandas/lib.py:103-141 | the two loops leave the group and warnings of `TagGroups.FixDate` |
| TagGroupObject.ClassifyLoop | src/mods4pandas/lib.py:111-130 | the second loop of `fix_date` builds the group and warnings of `TagGroups.ClassifyAll` |
| TagGroupObject.TagGroup.FixEventType | src/mods4pandas/lib.py:143-171 | the in-place loop leaves the group and warnings of `TagGroups.FixEventType` |
| TagGroupObject.TagGroup.FixScriptTerm | src/mods4pandas/lib.py:173-179 | on success the group and warnings of `TagGroups.FixScriptTerm`; on KeyError the members before the failing one are already fixed in place and the rest are untouched |
| TagGroupObject.TagGroup.Attributes | src/mods4pandas/lib.py:201-214 | the nested loop returns `TagGroups.Attributes` |
| TagGroupObject.TagGroup.SubelementCounts | src/mods4pandas/lib.py:216-223 | the nested loop returns `TagGroups.SubelementCounts` |
| TagGroupObject.TagGroup.TagrefsCount | src/mods4pandas/lib.py:249-259 | the loop returns `TagGroups.TagrefsCount` |
| Rules.TextOfOne | src/mods4pandas/lib.py:67-74 | the text of a one-member group is that member's text, or `''` for none |
| Rules.WithAttr | src/mods4pandas/mods4pandas.py:97 | the sub-group holds exactly the members whose attribute equals the authority |
| Rules.FirstSeen | src/mods4pandas/mods4pandas.py:95-96 | the set of authorities lists each authority once and nothing else |
| Rules.SingletonText | src/mods4pandas/mods4pandas.py:71 | `is_singleton().has_attributes(...).text()` succeeds exactly for one member with allowed attributes, and stores that member's text |
| Rules.PlainText | src/mods4pandas/mods4pandas.py:121 | `is_singleton().has_no_attributes().text()` succeeds exactly for one attribute-free member, and stores its text |
| Rules.CodeSet | src/mods4pandas/mods4pandas.py:155-158 | `languageTerm` and `roleTerm` succeed exactly when every member has the required attributes, and store the text set |
| Rules.RecordIdentifier | src/mods4pandas/mods4pandas.py:101-108 | a single `gbv-ppn` identifier is stored under `recordIdentifier`, a single `dnb-ppn` one under `recordIdentifier-dnb-ppn`; every other group raises ValueError |
| Rules.Authorities | src/mods4pandas/mods4pandas.py:95 | `e.attrib['authority']` is read for every member, in order |
| Rules.FileGrpKeyInjective | src/mods4pandas/mods4pandas.py:252 | distinct `USE` values give distinct `fileGrp-...-count` keys |
| Rules.FileGroupsOk | src/mods4pandas/mods4pandas.py:247-252 | `fileGrp` fails exactly when a member's `USE` is missing or empty, with ValueError |
| Rules.FileGroupsCounts | src/mods4pandas/mods4pandas.py:247-252 | each `USE` key holds the child count of the last file group with that `USE` |
| Rules.AccessConditionsOk | src/mods4pandas/mods4pandas.py:201-205 | `accessCondition` fails exactly when a member's `type` is missing or empty, with ValueError |
| Rules.AccessConditionsValues | src/mods4pandas/mods4pandas.py:201-205 | otherwise each type key holds the text of the last member of that type |
| Rules.IdentifiersOk | src/mods4pandas/mods4pandas.py:109-113 | `identifier` fails exactly when a member does not carry exactly one attribute, `type`; the error is ValueError or KeyError(`type`) |
| Rules.IdentifiersValues | src/mods4pandas/mods4pandas.py:109-113 | otherwise each type key holds the text of the last member of that type |
| Rules.AuthorityKeyInjective | src/mods4pandas/mods4pandas.py:134-151 | different authorities, or an authority and none, give different keys |
| Rules.AuthoritiesVisited | src/mods4pandas/mods4pandas.py:134-137 | the loop visits exactly the members' authorities, `None` included, and each has a member |
| Rules.GenreSetsHas | src/mods4pandas/mods4pandas.py:148-151 | the loop stores, under each visited authority's key, the set of texts of the members with that authority |
| Rules.GenreSetsOther | src/mods4pandas/mods4pandas.py:148-151 | the loop changes no other key |
| Rules.GenreSpec | src/mods4pandas/mods4pandas.py:147-151 | `genre`: under `genre-<authority>`, or `genre` for a member without one, the set of texts of the members with that authority; no other key changes |
| Rules.NamedAuthorities | src/mods4pandas/mods4pandas.py:95-96 | when every member has an authority, the loop visits exactly the members' authorities |
| Rules.ClassificationSetsHas | src/mods4pandas/mods4pandas.py:96-98 | the loop stores, under each visited authority's key, the set of texts of the members with that authority |
| Rules.ClassificationSetsOther | src/mods4pandas/mods4pandas.py:96-98 | the loop changes no other key |
| Rules.ClassificationSpec | src/mods4pandas/mods4pandas.py:94-98 | `classification` raises KeyError(`authority`) exactly when some member has no `authority`; otherwise `classification-<authority>` holds the set of texts of the members with that authority, for each member's authority, and no other key changes |
| Rules.ClassificationHas | src/mods4pandas/mods4pandas.py:94-98 | the stored sets of the above |
| Rules.ClassificationOther | src/mods4pandas/mods4pandas.py:94-98 | the unchanged keys of the above |
| Rules.ClassificationKeyUnused | src/mods4pandas/mods4pandas.py:95-98 | a key that is no member's authority key is not the key of any visited authority |
| Rules.MergeValuesErr | src/mods4pandas/lib.py:188-198 | merging one key fails, as unhashable, exactly when some sub-dictionary holds a non-empty dictionary under it |
| Rules.MergeValuesMembers | src/mods4pandas/lib.py:188-198 | the merged set holds exactly the values some sub-dictionary contributes: each truthy value, a set by its members |
| Rules.AllKeysMembers | src/mods4pandas/lib.py:186 | a key is among the sub-tags exactly when some sub-dictionary has it |
| Rules.MergeAllErr | src/mods4pandas/lib.py:187-198 | merging fails only with the error of one of the keys |
| Rules.MergeAllGet | src/mods4pandas/lib.py:187-198 | the merged dictionary holds one set per sub-tag and no other key |
| Rules.MergeScriptTermsExample | src/mods4pandas/lib.py:192-197 | script-term sets `{215, 217}` and `{216}` merge into `{215, 216, 217}` |
| Rules.OccurrencesOfOtherKey | src/mods4pandas/lib.py:221 | a key not ending in `-count` is never counted |
| Rules.CountValuesGet | src/mods4pandas/lib.py:216-223 | the counts, as record values, hold the count of every local name that occurs and no other key |
| Rules.IntFieldGet | src/mods4pandas/alto4pandas.py:92-97 | `WIDTH` or `HEIGHT` is converted with `int()` in place, or deleted when that raises ValueError; every other key is unchanged |
| Rules.SizedAttributesGet | src/mods4pandas/alto4pandas.py:91-97 | the page attributes by local name, with `WIDTH` and `HEIGHT` as integers when they parse |
| Rules.PageOfGet | src/mods4pandas/alto4pandas.py:89-102 | the `Page` record holds the `TAGREFS` count under its key, else the element count, else the sized attribute, as the later `update` overrides the earlier |
| Rules.PageRecordSpec | src/mods4pandas/alto4pandas.py:89-102 | `Page` succeeds exactly for a single member; otherwise ValueError |
| Rules.TagsSpec | src/mods4pandas/alto4pandas.py:106-108 | the `Tags` record is exactly the element counts |
| ConvertProps.ModsLocalOfTag | src/mods4pandas/mods4pandas.py:38 | a MODS tag yields back its local name |
| ConvertProps.ModsRuleOfLocal | src/mods4pandas/mods4pandas.py:36-215 | a tag in the MODS namespace takes the branch of its local name |
| ConvertProps.UnknownBranch | src/mods4pandas/mods4pandas.py:211-215 | a local name without a branch of its own reaches the final branch |
| ConvertProps.NoRuleBranch | src/mods4pandas/mods4pandas.py:211-215 | a MODS tag without a branch is an unknown tag |
| ConvertProps.ForeignModsTag | src/mods4pandas/mods4pandas.py:211-215 | so is a tag outside the MODS namespace |
| ConvertProps.UnknownModsTag | src/mods4pandas/mods4pandas.py:211-215 | an unknown tag raises `ValueError('Unknown tag "..."')` when `raise_errors` is set, and is skipped otherwise |
| ConvertProps.ModsFoldSkipsUnknown | src/mods4pandas/mods4pandas.py:35-215 | with `raise_errors` off, an unknown tag's group leaves the record as the earlier groups built it |
| ConvertProps.ModsFoldRaisesUnknown | src/mods4pandas/mods4pandas.py:211-213 | with `raise_errors` on, an unknown tag makes the conversion fail |
| ConvertProps.IgnoredModsTag | src/mods4pandas/mods4pandas.py:126-210 | the explicitly ignored tags (`note`, `part`, `topic`, `cartographics`, `geographic`, `temporal`, `nameIdentifier`, `physicalDescription`, `extension`, nested `mods`) never raise and change nothing |
| ConvertProps.RecordIdentifierTag | src/mods4pandas/mods4pandas.py:101-108 | the `recordIdentifier` branch stores the single `gbv-ppn` or `dnb-ppn` identifier without warnings, and rejects every other group with ValueError |
| ConvertProps.NameTag | src/mods4pandas/mods4pandas.py:174-176 | the `name` branch converts and numbers every member |
| ConvertProps.ModsEnumerateErr | src/mods4pandas/mods4pandas.py:174-176 | numbering fails only with the error of a member that fails to convert |
| ConvertProps.ModsEnumerateGet | src/mods4pandas/mods4pandas.py:174-176 | after numbering, member `i`'s record is stored under `name` followed by `i` |
| ConvertProps.ModsEnumerateOther | src/mods4pandas/mods4pandas.py:174-176 | every other key keeps its value |
| ConvertProps.FilterDropsAll | src/mods4pandas/lib.py:82-90 | a filter that rejects every member keeps none and warns once per member |
| ConvertProps.OriginInfoUnfixable | src/mods4pandas/mods4pandas.py:59-67 | `originInfo` members without an `eventType` that cannot be fixed are dropped, each with the "has no eventType" warning, and nothing is stored |
| ConvertProps.OriginInfoTag | src/mods4pandas/mods4pandas.py:59-67 | the `originInfo` tag takes that branch |
| ConvertProps.LanguageTag | src/mods4pandas/mods4pandas.py:152-154 | all `language` members are merged into the one record under `language` |
| ConvertProps.SubDictsGet | src/mods4pandas/lib.py:185 | member `i`'s sub-dictionary is its `mods_to_dict` conversion with `raise_errors` on |
| ConvertProps.MergeSubTagsGet | src/mods4pandas/lib.py:181-199 | the merged record holds, under every key some member's record has, the merged set for that key, and no other key |
| ConvertProps.LeafToDict | src/mods4pandas/mods4pandas.py:33-36 | an element without children converts to the empty record, in each of the three converters |
| ConvertProps.ToDictDispatch | src/mods4pandas/lib.py:273-290 | `_to_dict` picks the converter by the root's namespace, and raises `ValueError('Unknown namespace ...')` for any other namespace |
| ConvertProps.DescendSpec | src/mods4pandas/lib.py:79-80 | `descend` converts the single member, and fails with ValueError unless there is exactly one |
| ConvertProps.FileGrpTag | src/mods4pandas/mods4pandas.py:247-252 | the `fileGrp` branch fails exactly when a member's `USE` is missing or empty, and otherwise stores the counts without warnings |
| ConvertProps.IgnoredMetsTag | src/mods4pandas/mods4pandas.py:234-243 | the skipped METS sections never raise and change nothing |
| ConvertProps.UnknownMetsTag | src/mods4pandas/mods4pandas.py:253-258 | any other METS tag raises when `raise_errors` is set and is skipped otherwise |
| ConvertProps.AltoTextField | src/mods4pandas/alto4pandas.py:49-85 | a text field stores the text of its single, attribute-free member under its local name, whatever the ALTO namespace; otherwise ValueError |
| ConvertProps.AltoPage | src/mods4pandas/alto4pandas.py:89-102 | `Page` needs a single member and stores its page record |
| ConvertProps.AltoStyles | src/mods4pandas/alto4pandas.py:104-105 | `Styles` is skipped |
| ConvertProps.AltoTags | src/mods4pandas/alto4pandas.py:106-108 | `Tags` stores the element counts of all members |
| ConvertProps.AltoUnknown | src/mods4pandas/alto4pandas.py:109-114 | any other local name raises when `raise_errors` is set and is skipped otherwise |
| ConvertProps.AltoEnumerated | src/mods4pandas/alto4pandas.py:53-62 | `Processing`, `ocrProcessingStep` and `preProcessingStep` are numbered |
| ConvertProps.AltoEnumerateErr | src/mods4pandas/alto4pandas.py:55-56 | numbering fails only with the error of a member that fails to convert |
| ConvertProps.AltoEnumerateGet | src/mods4pandas/alto4pandas.py:55-56 | after numbering, member `i`'s record is stored under the local name followed by `i` |
| ConvertKeys.OriginInfosStep | src/mods4pandas/mods4pandas.py:65-67 | each event type's numbering continues the record of the event types before it |
| ConvertKeys.OriginInfosGet | src/mods4pandas/mods4pandas.py:65-67 | member `n` of group `i` converts and is stored under `originInfo-<type><n>`, unless a later group writes that key |
| ConvertKeys.OriginInfosOther | src/mods4pandas/mods4pandas.py:65-67 | a key no group writes keeps its value |
| ConvertKeys.OriginInfosErr | src/mods4pandas/mods4pandas.py:65-67 | the numbering fails only with the error of a member that fails to convert |
| ConvertKeys.OriginInfoGroups | src/mods4pandas/mods4pandas.py:64-67 | `originInfo` numbers the event-type groups of the members kept after `fix_event_type` and the filter |
| ConvertKeys.GroupOfEventType | src/mods4pandas/mods4pandas.py:65 | the members of one event type form one group, and the groups after it have larger event types |
| ConvertKeys.OriginInfoGet | src/mods4pandas/mods4pandas.py:59-67 | the `n`-th kept `originInfo` of event type `t` converts and is stored under `originInfo-<t><n>`, unless an event type sorted after `t` writes the same key |
| ConvertKeys.OriginInfoOther | src/mods4pandas/mods4pandas.py:59-67 | no key other than `originInfo-<t><n>` for a kept member's event type and a number below that type's count changes |
| ConvertKeys.OriginInfoErr | src/mods4pandas/mods4pandas.py:59-67 | `originInfo` fails only with the error of a kept member that fails to convert |
| ConvertKeys.DescendForced | src/mods4pandas/mods4pandas.py:138 | `force_singleton().descend()` of a non-empty group converts its first member |
| ConvertKeys.SubjectsStep | src/mods4pandas/mods4pandas.py:135-138 | each authority's record is stored after the authorities before it |
| ConvertKeys.SubjectsHas | src/mods4pandas/mods4pandas.py:135-138 | each visited authority with a member has the record of its first member under its key |
| ConvertKeys.SubjectsOther | src/mods4pandas/mods4pandas.py:135-138 | the loop changes no other key |
| ConvertKeys.SubjectsErr | src/mods4pandas/mods4pandas.py:135-138 | the loop fails only with the error of some authority's first member |
| ConvertKeys.SubjectGet | src/mods4pandas/mods4pandas.py:133-138 | `subject`: under `subject-<authority>`, or `subject` for a member without one, the record of the first member with that authority |
| ConvertKeys.SubjectOther | src/mods4pandas/mods4pandas.py:133-138 | `subject` changes no key other than its members' authority keys |
| ConvertKeys.SubjectErr | src/mods4pandas/mods4pandas.py:133-138 | `subject` fails only with the error of the first member of some authority |
| Flatten.JoinKey | src/mods4pandas/lib.py:302-305 | under a non-empty parent the key is the parent, the separator and the key; at the top level the key is unchanged |
| Flatten.Flatten | src/mods4pandas/lib.py:293-312 | the result is a dictionary: each key once (its content is fixed by `Flatten.FlattenOne` and `Flatten.FlattenAppend`) |
| Flatten.FlattenShape | src/mods4pandas/lib.py:299-312 | no nested record remains, and under a non-empty parent every key starts with the parent and the separator |
| Flatten.FlattenOfFlat | src/mods4pandas/lib.py:293-312 | a dictionary without nested dictionaries flattens to itself |
| Flatten.FlattenIdempotent | src/mods4pandas/lib.py:293-312 | flattening twice is flattening once |
| Flatten.FlattenOne | src/mods4pandas/lib.py:301-310 | a plain value keeps its key joined under the parent; a nested record is replaced by its own flattened items under its key |
| Flatten.FlattenItemsAppend | src/mods4pandas/lib.py:299-310 | the loop's items for `d1 + d2` are those of `d1` followed by those of `d2` |
| Flatten.FlattenAppend | src/mods4pandas/lib.py:293-312 | flattening `d1 + d2` is flattening `d1` and then assigning the items of `d2` in order: a key `d2` produces has `d2`'s flattened value, every other key keeps `d1`'s, and the keys of `d1` come first |
| Sink.ValidColumnKey | src/mods4pandas/lib.py:315-319 | a valid key is non-empty and holds no double quote and no comma |
| Sink.ValidColumnKeyChars | src/mods4pandas/lib.py:316 | a key is valid exactly when it is one or more characters of the class, optionally followed by one final newline, which Python's `$` allows |
| Sink.ColumnNamesCsv | src/mods4pandas/lib.py:321-327 | the list is empty exactly when there are no columns |
| Sink.ColumnNamesRoundTrip | src/mods4pandas/lib.py:321-327 | names without double quotes read back from their column list |
| Sink.ValidColumnsRoundTrip | src/mods4pandas/lib.py:315-327 | valid column keys read back from the list they are written into |
| Sink.CreateLoopOk | src/mods4pandas/lib.py:336-340 | the first loop succeeds exactly when every key is valid, and then the column list is the keys in order |
| Sink.CreateLoopErr | src/mods4pandas/lib.py:337-339 | otherwise the first loop stops at the first invalid key, with the keys before it already appended |
| Sink.AlterLoopGrows | src/mods4pandas/lib.py:343-347 | the second loop only appends: the old columns stay in front and every new column is a valid key |
| Sink.AlterLoopStatements | src/mods4pandas/lib.py:343-347 | each added column gets its `ALTER TABLE`, in order |
| Sink.AlterLoopDistinct | src/mods4pandas/lib.py:343-347 | the second loop never appends a column twice |
| Sink.AlterLoopOk | src/mods4pandas/lib.py:343-347 | the second loop succeeds exactly when every key that is not yet a column is valid |
| Sink.AlterLoopAllPresent | src/mods4pandas/lib.py:343-347 | when every key is already a column, the second loop does nothing |
| Sink.Missing | src/mods4pandas/lib.py:343-344 | the keys that are not yet columns, in order |
| Sink.AlterLoopColumns | src/mods4pandas/lib.py:343-347 | over distinct keys, the second loop run to its end appends exactly the keys that were not columns, in order |
| Sink.TypesLoopGet | src/mods4pandas/lib.py:350-352 | a key keeps the type it already had, or gets the type name of its value in the record |
| Sink.InsertOk | src/mods4pandas/lib.py:332-364 | an insert fails exactly when a key that is not yet a column is not a valid column name |
| Sink.InsertErr | src/mods4pandas/lib.py:332-364 | the failing key is a key of the record that is neither a column nor valid, and the assertion carries it |
| Sink.InsertColumnsGrow | src/mods4pandas/lib.py:332-347 | columns are only ever appended, each new one is a valid key, and none appears twice |
| Sink.InsertColumnsOk | src/mods4pandas/lib.py:332-347 | after a successful insert the columns are exactly the old ones and the record's keys; for a dictionary, the old columns followed by its keys that were not columns yet, in the record's order |
| Sink.InsertStatements | src/mods4pandas/lib.py:335-364 | a successful insert executes `CREATE TABLE` for a table without columns, otherwise one `ALTER TABLE` per added column, and then one `INSERT` of the record's row under the record's keys |
| Sink.RowValues | src/mods4pandas/lib.py:357-364 | the inserted row holds `str(d[c])` for each key `c` of the record, in order |
| Sink.InsertTypes | src/mods4pandas/lib.py:349-352 | a successful insert records the type of each key seen for the first time, and keeps every recorded type |
| Sink.InsertKeepsTyped | src/mods4pandas/lib.py:332-364 | after a successful insert every column of the table has a recorded type |
| Sink.InsertAllSpec | src/mods4pandas/lib.py:366-368 | after a list inserted without failure, the old columns stay, every key of every record is a column, and every column is typed |
| Sink.InsertAllErr | src/mods4pandas/lib.py:366-368 | a failing list names an invalid key of one of its records |
| Sink.CastFor | src/mods4pandas/lib.py:377-389 | a type outside the dispatch raises NotImplementedError |
| Sink.CastForValue | src/mods4pandas/lib.py:374-389 | a column typed by a `str` or `set` value is kept, an `int` one becomes `Int64`, and one typed by `None` or a `dict` raises NotImplementedError |
| Sink.DataColumns | src/mods4pandas/lib.py:371 | the frame's columns are the table's columns without the index column |
| Sink.CastLoopSpec | src/mods4pandas/lib.py:374-389 | the conversion succeeds exactly when every column has a recorded, supported type, and then gives each column its cast, in order |
| Sink.ConvertibleTable | src/mods4pandas/lib.py:370-389 | a table whose every column was typed by a `str`, `int` or `set` value converts without error |
| Sink.AsWrittenSkipsCreate | src/mods4pandas/lib.py:336-340 | as written: a first record with an invalid second key leaves a column list without a table, and the next record only inserts into that missing table |
| Sink.NewTableStatements | src/mods4pandas/lib.py:336-340 | for a table without columns, a failing insert executes nothing and a successful one starts with `CREATE TABLE` |
| Sink.FixedKeepsTableOrder | src/mods4pandas/lib.py:336-347 | with the column list kept only once the table exists, every insert keeps the table created before it is used |
| Sink.Database.constructor | src/mods4pandas/lib.py:329-330 | the schema state starts empty |
| Sink.Database.Insert | src/mods4pandas/lib.py:332-364 | the columns, the types and the executed statements become those of the insert; a failed assertion becomes AssertionError, and the state stays as far as the loops got |
| Sink.Database.ColumnLoops | src/mods4pandas/lib.py:335-347 | the two column loops and the `CREATE TABLE` between them leave the column stage's state |
| Sink.Database.CreateColumns | src/mods4pandas/lib.py:336-339 | the first loop leaves the create loop's columns and stops at its invalid key |
| Sink.Database.AddMissingColumns | src/mods4pandas/lib.py:343-347 | the second loop leaves the alter loop's columns and statements |
| Sink.Database.SaveTypes | src/mods4pandas/lib.py:350-352 | the third loop records the type loop's types and touches nothing else |
| Sink.Database.InsertMultiple | src/mods4pandas/lib.py:366-368 | the state after the list is that of inserting each record in turn, stopped by the first failure |
| Sink.Database.ParquetCasts | src/mods4pandas/lib.py:374-389 | the conversion loop returns the cast of each frame column, or the exception it raises |
| StructLinks.Table | src/mods4pandas/mods4pandas.py:355 | the node table lists the map's elements in `iter()` order, the root first and without a parent, every parent before its children |
| StructLinks.TableParent | src/mods4pandas/mods4pandas.py:355 | a node's recorded parent is `getparent()`: the node's element is a child of its parent's element |
| StructLinks.DivsWithId | src/mods4pandas/mods4pandas.py:306-308 | the positions of exactly the `mets:div` elements with that ID |
| StructLinks.Ancestors | src/mods4pandas/mods4pandas.py:353-356 | the generator yields only enclosing divs, each at an earlier position |
| StructLinks.AncestorsClosed | src/mods4pandas/mods4pandas.py:353-356 | the chain has no gap: a member's parent is the next member or is not a div |
| StructLinks.Parents | src/mods4pandas/mods4pandas.py:353-356 | the generator's loop yields exactly the ancestors |
| StructLinks.AddAll | src/mods4pandas/mods4pandas.py:358-361 | `set.update`: the members are the union and the old members stay first |
| StructLinks.AddAllDistinct | src/mods4pandas/mods4pandas.py:358-361 | a set never holds a member twice |
| StructLinks.ToAddMembers | src/mods4pandas/mods4pandas.py:358-360 | the set to add holds exactly the ancestors of the linked divs |
| StructLinks.StructDivsDistinct | src/mods4pandas/mods4pandas.py:349-361 | `struct_divs` holds each division once |
| StructLinks.StructDivsMembers | src/mods4pandas/mods4pandas.py:349-361 | `struct_divs` is exactly the linked divs and their ancestors |
| StructLinks.StructDivsClosed | src/mods4pandas/mods4pandas.py:349-361 | a member's parent, when it is a div, is a member too |
| StructLinks.StructDivsOf | src/mods4pandas/mods4pandas.py:349-361 | the construction of `struct_divs` yields that set |
| Pages.PpnMatches | src/mods4pandas/mods4pandas.py:268 | the PPN path selects only `gbv-ppn` record identifiers |
| Pages.Ppn | src/mods4pandas/mods4pandas.py:266-270 | the PPN is the text of the first match in document order, and without a match the code's `.text` of `None` raises AttributeError |
| Pages.PpnOfUsualLayout | src/mods4pandas/mods4pandas.py:266-270 | in the usual layout, with MODS wrapped in the first `dmdSec`, the PPN is the text of its `gbv-ppn` record identifier |
| Pages.StructMap | src/mods4pandas/mods4pandas.py:273-274 | `find` returns the first child structure map of that type (no earlier child is one), and `None` only when no child map has it |
| Pages.FileItemsFrom | src/mods4pandas/mods4pandas.py:297-299 | every item pairs a file's ID with the file and its group |
| Pages.FileItemsCover | src/mods4pandas/mods4pandas.py:297-299 | every file of every group gets an item |
| Pages.FilesByIdLast | src/mods4pandas/mods4pandas.py:296-300 | looking up an ID finds the last file carrying it, in document order |
| Pages.FilesByIdFound | src/mods4pandas/mods4pandas.py:296-304 | what the look-up finds is a file with that ID, in its group |
| Pages.FilesByIdCovers | src/mods4pandas/mods4pandas.py:296-304 | an ID is missing only when no file carries it |
| Pages.BuildFilesById | src/mods4pandas/mods4pandas.py:296-300 | the loop fills the table the functions describe |
| Pages.FirstHref | src/mods4pandas/mods4pandas.py:325 | the href of the first `FLocat` child that has one (no earlier child is such an `FLocat`), and `None` only when no `FLocat` child has one |
| Pages.HrefColumn | src/mods4pandas/mods4pandas.py:326 | every file column starts with `fileGrp_` |
| Pages.FptrStep | src/mods4pandas/mods4pandas.py:317-326 | a pointer passes exactly when it is a `mets:fptr` with a `FILEID` of a known file, and then sets its file column to the href |
| Pages.FptrLoopOk | src/mods4pandas/mods4pandas.py:317-326 | the pointer loop succeeds exactly when every child of the page passes |
| Pages.FptrLoopKeeps | src/mods4pandas/mods4pandas.py:317-326 | the loop keeps the earlier columns, and every column that is not a file column keeps its value |
| Pages.FptrLoopLast | src/mods4pandas/mods4pandas.py:317-326 | each file column holds the href of the last pointer writing it |
| Pages.RestLeavesColumn | src/mods4pandas/mods4pandas.py:317-326 | a column no pointer writes keeps its value |
| Pages.FptrColumns | src/mods4pandas/mods4pandas.py:317-326 | the loop computes the pointer loop's record or exception |
| Pages.LinksTo | src/mods4pandas/mods4pandas.py:339-341 | exactly the `smLink` elements pointing to the page |
| Pages.SmLinks | src/mods4pandas/mods4pandas.py:339-341 | `findall` returns only `smLink` elements pointing to the page |
| Pages.TargetsLoop | src/mods4pandas/mods4pandas.py:343-347 | the link loop succeeds exactly when every link has a `from`, and otherwise raises TypeError from extending by `None` |
| Pages.TargetsMembers | src/mods4pandas/mods4pandas.py:343-347 | the targets are the divs below the logical map whose ID some link names |
| Pages.StructLog | src/mods4pandas/mods4pandas.py:328-347 | `get_struct_log`'s loop computes the link loop's targets |
| Pages.TypeColumn | src/mods4pandas/mods4pandas.py:367 | every type column starts with `structMap-LOGICAL_TYPE_` |
| Pages.TypeLoopSpec | src/mods4pandas/mods4pandas.py:364-367 | the type loop succeeds exactly when every division has a non-empty `TYPE`; it sets each lower-cased type column to 1 and keeps every other column |
| Pages.TypeLoopKeeps | src/mods4pandas/mods4pandas.py:364-367 | a column set to 1 stays 1 |
| Pages.TypeColumns | src/mods4pandas/mods4pandas.py:364-367 | the loop computes the type loop's record or exception |
| Pages.PageRecordHead | src/mods4pandas/mods4pandas.py:313-316 | every page record starts with `ppn` and `ID`, in that order, and no later column replaces them |
| Pages.TargetsInPage | src/mods4pandas/mods4pandas.py:339-349 | a page's targets are exactly the divisions its links name |
| Pages.PageDivs | src/mods4pandas/mods4pandas.py:349-361 | the divisions whose types are set are exactly the page's linked divisions and their ancestors |
| Pages.PageRecordOk | src/mods4pandas/mods4pandas.py:310-367 | a page converts exactly when it is a `page`, its pointers pass, its links have a `from`, and every division of its structure has a type |
| Pages.PageRecordTypes | src/mods4pandas/mods4pandas.py:363-367 | every division of the page's structure has its type column set to 1 |
| Pages.PageRecordFiles | src/mods4pandas/mods4pandas.py:317-326 | each file column holds the href of the last pointer of the page writing it |
| Pages.FileColumnNotType | src/mods4pandas/mods4pandas.py:326 | a file column is never a type column |
| Pages.PageDict | src/mods4pandas/mods4pandas.py:310-369 | the loop body builds the page record the functions describe |
| Pages.CollectSpec | src/mods4pandas/mods4pandas.py:310-371 | the page loop succeeds exactly when every page does, and then keeps their records in order; otherwise it raises the exception of the first page that fails |
| Pages.PagesOfPages | src/mods4pandas/mods4pandas.py:290-371 | with a physical map, a successful conversion has a physical sequence, a logical map and a file section, and yields one record per page, in order |
| Pages.PagesOfMultivolume | src/mods4pandas/mods4pandas.py:276-284 | without a physical map the result is empty for a multivolume logical map, and ValueError otherwise |
| Pages.PagesToDict | src/mods4pandas/mods4pandas.py:261-371 | `pages_to_dict` computes the records, or the exception, that the functions describe |

## Left out

- `mets_to_dict` and `alto_to_dict` write the partial record to standard output with `print(value)` before raising ValueError for an unknown tag (src/mods4pandas/mods4pandas.py:255, src/mods4pandas/alto4pandas.py:111); the model keeps the ValueError and leaves out the console output.
- `TagGroup.to_xml`, `__str__`: these render elements with lxml's serialiser. Errors whose message embeds that rendering (`is_singleton`, `has_attributes`, `identifier`, `accessCondition`, `fileGrp`) are modelled by kind, with the rendering left out of the message.
- TagGroups.IsSingleton: states only that the error is a ValueError, because its message embeds the rendered group.
- TagGroups.HasAttributes: states only that the error is a ValueError, for the same reason.
- Rules.SingletonText: states only that a failure is a ValueError, because its message embeds the rendered group.
- Rules.PlainText: states only that a failure is a ValueError, because its message embeds the rendered group.
- Rules.RecordIdentifier: states only that a failure is a ValueError, because its message embeds the rendered group.
- Rules.PageRecordSpec: states only that a failure is a ValueError, because its message embeds the rendered group.
- ConvertProps.RecordIdentifierTag: states only that a failure is a ValueError, because its message embeds the rendered group.
- ConvertProps.AltoTextField: states only that a failure is a ValueError, because its message embeds the rendered group.
- ConvertProps.AltoPage: states only that a failure is a ValueError, because its message embeds the rendered group.
- ConvertProps.DescendSpec: states only that a failure is a ValueError, because its message embeds the rendered group.
- `TagGroup.xpath_statistics`: floating-point statistics computed with numpy. The `Page` record of `alto_to_dict` leaves out the keys it adds.
- Rules.PageRecordSpec: states success for every single `Page` member, but `xpath_statistics` calls `float()` on every `String/@WC` below it (src/mods4pandas/lib.py:237, src/mods4pandas/alto4pandas.py:99), so a `WC` that does not parse as a float raises ValueError there; the statistics are not modelled and neither is this failure.
- ConvertProps.AltoPage: the same `float()` ValueError on an unparsable `String/@WC` is not modelled.
- Dates.IsIsoDate: `\d` in Python's `re` on `str` matches every Unicode decimal digit; the model accepts only ASCII `0`-`9`.
- Dates.IsGermanDate: the same ASCII-only reading of `\d`.
- TagGroups.Classify: a date written with non-ASCII digits is classified as not a date, where the source would treat it as one.
- ConvertKeys.OriginInfoGet: two event types can write the same key (type `a` with member 10 and type `a1` with member 0 both give `originInfo-a10`); the later event type in sorted order overwrites, so the lemma requires that no later event type writes the key.
- `TagGroup.ignore_attributes`: the identity, and so is left out of the converters.
- `topic`, `geographic`, `temporal`: the source computes `text_set()` and discards it. That call cannot raise, so these tags are modelled as ignored.
- `TagGroup.xpath_count`: modelled only for the one expression the core uses, `//alto:String[@TAGREFS]`.
- `TagGroup.sort`: modelled only for the boolean keys the converters sort by (`keyDate="yes"`).
- `warnings.warn`: the warnings are returned as lists of messages in order. When a conversion raises, its warnings are dropped.
- Set iteration order: Python iterates sets in hash order, and the model uses first-insertion order instead. This decides the key order of `classification-*`, `subject-*`, `genre-*`, `merge_sub_tags_to_set` and the type columns of a page. It also decides which of several failing members raises first.
- `str()` of a set or a dict depends on hash order; the inserted row takes it from a `repr` parameter.
- lxml: comments, processing instructions and tails are not part of the element model. Text is an optional string, and `getparent()` is a parent link in a node table of the structure map.
- XPath and ElementPath: only the paths the core uses are modelled, as functions over the tree. An ID containing a double quote, which would make the path invalid, is not modelled.
- `str.lower()`: only ASCII letters are lower-cased.
- `int()` accepts surrounding whitespace, a sign and digit groups separated by single underscores. Other Unicode digits are not modelled.
- `pages_to_dict(raise_errors)`: the parameter is unused in the source and absent from the model.
- The page loop is modelled as the list of per-page results collected up to the first exception. The loop has no other effects, so this is the same outcome.
- SQLite: the connection is modelled as the list of executed statements with their row values, not as a database. `pd.read_sql_query` is modelled as the table's column list without the index column. The `astype` and `map` conversions are named by a `Cast` tag per column, and the Parquet file is not written.
- `convert_db_to_parquet`: the `float64` and `bool` branches are modelled, but no value of the model has those type names, so no column reaches them.
- `process`, `main`, the CLI, directory walking, file I/O, the CSV warning log and the driver's catch-all exception handler are left out.
- The converters recurse over the element tree. Termination is by element height, not by a fuel bound.

## Findings

| source | as written | input that shows it | evidently intended | confidence | as-written member | corrected member |
|---|---|---|---|---|---|---|
| src/mods4pandas/lib.py:336-341 | the first loop appends each key to `current_columns[table]` before `CREATE TABLE` runs, so an assertion on a later key leaves a non-empty column list and no table | first record with keys `a` and `b,c` (the comma makes `b,c` invalid), then a record with key `a`: the second insert sees columns, skips `CREATE TABLE` and inserts into a table that does not exist | the table exists before anything refers to it; a failing first record leaves the column list empty | not executed | Sink.AsWrittenSkipsCreate | Sink.FixedKeepsTableOrder |

`Sink.Database` keeps the as-written behaviour.
`Sink.InsertFixed` keeps the column list only once `CREATE TABLE` has run, and `Sink.FixedKeepsTableOrder` proves that every statement on a table then comes after its creation.
