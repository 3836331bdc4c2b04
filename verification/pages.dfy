/** `pages_to_dict`: one record per page of the physical structure map of a
    METS document. A record holds the document's PPN, the page's ID, for every
    file pointer of the page the FLocat href of the file, in a column named
    after the file group, and an indicator column set to 1 for the type of
    every logical division linked to the page or enclosing such a division. */
module Pages {
  import opened Wrappers
  import opened Strings
  import opened Dicts
  import opened Xml
  import opened Values
  import opened StructLinks

  /** An attribute in the XLink namespace. */
  function XlinkAttr(e: Element, name: string): Option<string>
  {
    Get(e.attrib, QName(XLINK, name))
  }

  // ---------------------------------------------------------------------
  // The PPN: the text of the first element the path
  // `//mets:dmdSec[1]//mods:mods/mods:recordInfo/mods:recordIdentifier[@source="gbv-ppn"]`
  // selects, in document order.

  /** Where an element stands with respect to the path: `below` when it lies
      strictly inside a `mets:dmdSec` that is the first `mets:dmdSec` among its
      siblings, `first` when it is such a `mets:dmdSec` itself, `modsAbove`
      when its parent is a `mods:mods` lying below one, and `infoAbove` when
      its parent is a `mods:recordInfo` whose parent is such a `mods:mods`. */
  datatype Scope = Scope(below: bool, first: bool, modsAbove: bool, infoAbove: bool)

  predicate PpnIdentifier(e: Element) {
    Is(e, MODS, "recordIdentifier") && Attr(e, "source") == Some("gbv-ppn")
  }

  /** The scope of the children of `e`; whether a child is a first
      `mets:dmdSec` is decided among its siblings. */
  function Inner(e: Element, c: Scope): Scope {
    Scope(c.below || c.first, false, c.below && Is(e, MODS, "mods"), c.modsAbove && Is(e, MODS, "recordInfo"))
  }

  /** The elements of the subtree `e` that the path selects, in document
      order. */
  function PpnMatches(e: Element, c: Scope): (r: seq<Element>)
    ensures forall x :: x in r ==> PpnIdentifier(x)
    decreases e, 1
  {
    (if c.infoAbove && PpnIdentifier(e) then [e] else []) + PpnMatchesAll(e.children, Inner(e, c), false)
  }

  /** The same for the siblings `s`; `seen` says whether an earlier sibling was
      a `mets:dmdSec`. */
  function PpnMatchesAll(s: seq<Element>, c: Scope, seen: bool): (r: seq<Element>)
    ensures forall x :: x in r ==> PpnIdentifier(x)
    decreases s, 0
  {
    if s == [] then []
    else
      var dmd := Is(s[0], METS, "dmdSec");
      PpnMatches(s[0], c.(first := dmd && !seen)) + PpnMatchesAll(s[1..], c, seen || dmd)
  }

  /** The scope of the document's root element, the only child of the
      document. */
  function RootScope(mets: Element): Scope {
    Scope(false, Is(mets, METS, "dmdSec"), false, false)
  }

  /** The PPN of the document: the text of the first match. Without a match
      the code reads `.text` of `None`. */
  function Ppn(mets: Element): (r: Result<Value>)
    ensures r.Err? <==> PpnMatches(mets, RootScope(mets)) == []
    ensures r.Err? ==> r.error == AttributeError("'NoneType' object has no attribute 'text'")
    ensures r.Ok? ==> exists x :: x in PpnMatches(mets, RootScope(mets)) && PpnIdentifier(x) && r.value == OfText(x.text)
    ensures r.Ok? ==> r.value == OfText(PpnMatches(mets, RootScope(mets))[0].text)
  {
    var found := PpnMatches(mets, RootScope(mets));
    if found == [] then Err(AttributeError("'NoneType' object has no attribute 'text'"))
    else
      assert found[0] in found;
      Ok(OfText(found[0].text))
  }

  /** In the usual layout, with the MODS record in the wrapped XML data of the
      first descriptive section, the PPN is the text of its gbv-ppn record
      identifier. */
  lemma PpnOfUsualLayout(ppn: string, rest: seq<Element>)
    ensures
      var ident := Element(QName(MODS, "recordIdentifier"), [(QName("", "source"), "gbv-ppn")], Some(ppn), []);
      var info := Element(QName(MODS, "recordInfo"), [], None, [ident]);
      var mods := Element(QName(MODS, "mods"), [], None, [info]);
      var xmlData := Element(QName(METS, "xmlData"), [], None, [mods]);
      var wrap := Element(QName(METS, "mdWrap"), [], None, [xmlData]);
      var dmd := Element(QName(METS, "dmdSec"), [], None, [wrap]);
      var mets := Element(QName(METS, "mets"), [], None, [dmd] + rest);
      Ppn(mets) == Ok(Str(ppn))
  {
    var ident := Element(QName(MODS, "recordIdentifier"), [(QName("", "source"), "gbv-ppn")], Some(ppn), []);
    var info := Element(QName(MODS, "recordInfo"), [], None, [ident]);
    var mods := Element(QName(MODS, "mods"), [], None, [info]);
    var xmlData := Element(QName(METS, "xmlData"), [], None, [mods]);
    var wrap := Element(QName(METS, "mdWrap"), [], None, [xmlData]);
    var dmd := Element(QName(METS, "dmdSec"), [], None, [wrap]);
    var mets := Element(QName(METS, "mets"), [], None, [dmd] + rest);
    assert PpnIdentifier(ident);
    var c0 := RootScope(mets);
    var cDmd := Inner(mets, c0).(first := true);
    var cWrap := Inner(dmd, cDmd);
    var cData := Inner(wrap, cWrap);
    var cMods := Inner(xmlData, cData);
    var cInfo := Inner(mods, cMods);
    var cIdent := Inner(info, cInfo);
    assert cIdent.infoAbove;
    assert PpnMatches(ident, cIdent) == [ident];
    assert PpnMatchesAll([ident], cIdent, false) == [ident] + [];
    assert PpnMatches(info, cInfo) == [ident];
    assert PpnMatchesAll([info], cInfo, false) == [ident];
    assert PpnMatches(mods, cMods) == [ident];
    assert PpnMatchesAll([mods], cMods, false) == [ident];
    assert PpnMatches(xmlData, cData) == [ident];
    assert PpnMatchesAll([xmlData], cData, false) == [ident];
    assert PpnMatches(wrap, cWrap) == [ident];
    assert PpnMatchesAll([wrap], cWrap, false) == [ident];
    assert PpnMatches(dmd, cDmd) == [ident];
    assert ([dmd] + rest)[1..] == rest;
    assert PpnMatchesAll([dmd] + rest, Inner(mets, c0), false)[0] == ident;
  }

  // ---------------------------------------------------------------------
  // The sections of the document.

  /** `mets.find('./mets:structMap[@TYPE="t"]')`: the first child structure
      map of that type. */
  function StructMap(s: seq<Element>, t: string): (r: Option<Element>)
    ensures r.Some? ==> r.value in s && Is(r.value, METS, "structMap") && Attr(r.value, "TYPE") == Some(t)
    ensures r.Some? ==> exists i :: (0 <= i < |s| && s[i] == r.value
      && forall j :: 0 <= j < i ==> !(Is(s[j], METS, "structMap") && Attr(s[j], "TYPE") == Some(t)))
    ensures r.None? ==> forall c :: c in s && Is(c, METS, "structMap") ==> Attr(c, "TYPE") != Some(t)
  {
    if s == [] then None
    else if Is(s[0], METS, "structMap") && Attr(s[0], "TYPE") == Some(t) then Some(s[0])
    else
      var r := StructMap(s[1..], t);
      if r.Some? then
        var i :| 0 <= i < |s[1..]| && s[1..][i] == r.value
          && forall j :: 0 <= j < i ==> !(Is(s[1..][j], METS, "structMap") && Attr(s[1..][j], "TYPE") == Some(t));
        assert s[i + 1] == r.value;
        assert forall j :: 0 <= j < i + 1 ==> !(Is(s[j], METS, "structMap") && Attr(s[j], "TYPE") == Some(t));
        r
      else r
  }

  /** The division types of a logical map that stands for several volumes,
      which has no physical map of its own. */
  const MultivolumeTypes: seq<string> := ["multivolume_work", "MultivolumeWork", "multivolume_manuscript", "periodical"]

  predicate Multivolume(logical: Element) {
    exists c :: c in logical.children && IsDiv(c) && Attr(c, "TYPE").Some? && Attr(c, "TYPE").value in MultivolumeTypes
  }

  // ---------------------------------------------------------------------
  // The look-up table of files by ID.

  /** A `mets:file` with its `getparent()`, the file group it belongs to. */
  datatype FileEntry = FileEntry(group: Element, file: Element)

  type FileTable = Dict<Option<string>, FileEntry>

  function Groups(fileSec: Element): seq<Element> {
    WithTag(fileSec.children, QName(METS, "fileGrp"))
  }

  function Files(group: Element): seq<Element> {
    WithTag(group.children, QName(METS, "file"))
  }

  /** The items `ID -> file` of one file group, in document order. */
  function GroupItems(group: Element, files: seq<Element>): (r: FileTable)
    ensures |r| == |files|
    ensures forall i :: 0 <= i < |files| ==> r[i] == (Attr(files[i], "ID"), FileEntry(group, files[i]))
  {
    seq(|files|, i requires 0 <= i < |files| => (Attr(files[i], "ID"), FileEntry(group, files[i])))
  }

  /** The items `fileSec.iterfind('./mets:fileGrp/mets:file')` yields for the
      first `n` groups. */
  function FileItems(groups: seq<Element>, n: nat): FileTable
    requires n <= |groups|
  {
    if n == 0 then [] else FileItems(groups, n - 1) + GroupItems(groups[n - 1], Files(groups[n - 1]))
  }

  /** The table: every file under its ID, a later file replacing an earlier
      one with the same ID. */
  function FilesById(fileSec: Element): FileTable {
    var groups := Groups(fileSec);
    FromItems(FileItems(groups, |groups|))
  }

  /** Every item pairs a file's ID with the file and its group. */
  lemma {:induction false} FileItemsFrom(groups: seq<Element>, n: nat)
    requires n <= |groups|
    ensures forall p :: p in FileItems(groups, n) ==>
      p.1.group in groups && p.1.file in Files(p.1.group) && p.0 == Attr(p.1.file, "ID")
  {
    if n > 0 {
      FileItemsFrom(groups, n - 1);
      var g := groups[n - 1];
      var items := GroupItems(g, Files(g));
      forall p | p in items
        ensures p.1.group in groups && p.1.file in Files(p.1.group) && p.0 == Attr(p.1.file, "ID")
      {
        var i :| 0 <= i < |items| && items[i] == p;
        assert p.1.file == Files(g)[i];
      }
    }
  }

  /** Every file of every group gets an item. */
  lemma {:induction false} FileItemsCover(groups: seq<Element>, n: nat, i: nat, f: Element)
    requires i < n <= |groups| && f in Files(groups[i])
    ensures Attr(f, "ID") in Keys(FileItems(groups, n))
  {
    var g := groups[n - 1];
    var items := GroupItems(g, Files(g));
    KeysAppend(FileItems(groups, n - 1), items);
    if i == n - 1 {
      var j :| 0 <= j < |Files(g)| && Files(g)[j] == f;
      assert Keys(items)[j] == Attr(f, "ID");
    } else {
      FileItemsCover(groups, n - 1, i, f);
    }
  }

  /** Looking up an ID finds the last file carrying it, in document order. */
  lemma FilesByIdLast(fileSec: Element, id: string)
    ensures Get(FilesById(fileSec), Some(id)) == LastValue(FileItems(Groups(fileSec), |Groups(fileSec)|), Some(id))
  {
    UpdateKeys([], FileItems(Groups(fileSec), |Groups(fileSec)|), Some(id));
  }

  /** What the look-up finds is a file with that ID, in its group. */
  lemma FilesByIdFound(fileSec: Element, id: string)
    ensures var r := Get(FilesById(fileSec), Some(id));
      r.Some? ==> r.value.group in Groups(fileSec) && r.value.file in Files(r.value.group) && Attr(r.value.file, "ID") == Some(id)
  {
    var groups := Groups(fileSec);
    var items := FileItems(groups, |groups|);
    FilesByIdLast(fileSec, id);
    FileItemsFrom(groups, |groups|);
  }

  /** The ID is missing only when no file of any group carries it. */
  lemma FilesByIdCovers(fileSec: Element, id: string, g: Element, f: Element)
    requires g in Groups(fileSec) && f in Files(g) && Attr(f, "ID") == Some(id)
    ensures Get(FilesById(fileSec), Some(id)).Some?
  {
    var groups := Groups(fileSec);
    var i :| 0 <= i < |groups| && groups[i] == g;
    FileItemsCover(groups, |groups|, i, f);
    UpdateKeys([], FileItems(groups, |groups|), Some(id));
  }

  /** The loop that fills the table, over the files `iterfind` yields. */
  method BuildFilesById(fileSec: Element) returns (table: FileTable)
    ensures table == FilesById(fileSec)
  {
    var groups := Groups(fileSec);
    var files := FileItems(groups, |groups|);
    table := [];
    for k := 0 to |files|
      invariant table == Update([], files[..k])
    {
      FromItemsOneMore([], files, k);
      assert [] + files[..k] == files[..k] && [] + files[..k + 1] == files[..k + 1];
      table := Put(table, files[k].0, files[k].1);
    }
    assert files[..|files|] == files;
  }

  // ---------------------------------------------------------------------
  // The file pointers of a page.

  /** An `FLocat` child that carries an `xlink:href`. */
  predicate HasHref(c: Element) {
    Is(c, METS, "FLocat") && XlinkAttr(c, "href").Some?
  }

  /** `file_.xpath('mets:FLocat/@xlink:href')[0]`: the href of the first
      FLocat child that has one, or `None`. */
  function FirstHref(s: seq<Element>): (r: Option<string>)
    ensures r.Some? ==> exists c :: c in s && Is(c, METS, "FLocat") && XlinkAttr(c, "href") == r
    ensures r.Some? ==> exists i :: (0 <= i < |s| && HasHref(s[i]) && XlinkAttr(s[i], "href") == r
      && forall j :: 0 <= j < i ==> !HasHref(s[j]))
    ensures r.None? ==> forall c :: c in s && Is(c, METS, "FLocat") ==> XlinkAttr(c, "href").None?
  {
    if s == [] then None
    else if HasHref(s[0]) then XlinkAttr(s[0], "href")
    else
      var r := FirstHref(s[1..]);
      if r.Some? then
        var i :| 0 <= i < |s[1..]| && HasHref(s[1..][i]) && XlinkAttr(s[1..][i], "href") == r
          && forall j :: 0 <= j < i ==> !HasHref(s[1..][j]);
        assert s[i + 1] == s[1..][i];
        assert forall j :: 0 <= j < i + 1 ==> !HasHref(s[j]);
        r
      else r
  }

  /** The column `fileGrp_{USE}_file_FLocat_href`; a group without USE gives
      the text "None". */
  function HrefColumn(use: Option<string>): (k: string)
    ensures "fileGrp_" <= k
  {
    "fileGrp_" + (if use.Some? then use.value else "None") + "_file_FLocat_href"
  }

  /** The pointer passes the asserts of the loop and its file is in the
      table. */
  predicate FptrOk(fptr: Element, table: FileTable) {
    && Is(fptr, METS, "fptr")
    && Attr(fptr, "FILEID").Some? && Attr(fptr, "FILEID").value != ""
    && Get(table, Some(Attr(fptr, "FILEID").value)).Some?
  }

  /** The column and the value a valid pointer contributes. */
  function Column(fptr: Element, table: FileTable): string
    requires FptrOk(fptr, table)
  {
    HrefColumn(Attr(Get(table, Some(Attr(fptr, "FILEID").value)).value.group, "USE"))
  }

  function Href(fptr: Element, table: FileTable): Value
    requires FptrOk(fptr, table)
  {
    OfText(FirstHref(Get(table, Some(Attr(fptr, "FILEID").value)).value.file.children))
  }

  /** One round of the loop over the children of a page. */
  function FptrStep(rec: Record, fptr: Element, table: FileTable): (r: Result<Record>)
    ensures r.Ok? <==> FptrOk(fptr, table)
    ensures r.Ok? ==> r.value == Put(rec, Column(fptr, table), Href(fptr, table))
  {
    if !Is(fptr, METS, "fptr") then Err(AssertionError(""))
    else
      var id := Attr(fptr, "FILEID");
      if id.None? || id.value == "" then Err(AssertionError(""))
      else
        var entry := Get(table, Some(id.value));
        if entry.None? then Err(KeyError(id.value))
        else Ok(Put(rec, HrefColumn(Attr(entry.value.group, "USE")), OfText(FirstHref(entry.value.file.children))))
  }

  function FptrLoop(rec: Record, fptrs: seq<Element>, table: FileTable): Result<Record>
    decreases |fptrs|
  {
    if fptrs == [] then Ok(rec)
    else
      var next :- FptrStep(rec, fptrs[0], table);
      FptrLoop(next, fptrs[1..], table)
  }

  /** The loop succeeds exactly when every child is a valid pointer. */
  lemma {:induction false} FptrLoopOk(rec: Record, fptrs: seq<Element>, table: FileTable)
    ensures FptrLoop(rec, fptrs, table).Ok? <==> forall f :: f in fptrs ==> FptrOk(f, table)
    decreases |fptrs|
  {
    if fptrs != [] {
      assert fptrs[0] in fptrs;
      if FptrOk(fptrs[0], table) {
        FptrLoopOk(Put(rec, Column(fptrs[0], table), Href(fptrs[0], table)), fptrs[1..], table);
        assert forall g :: g in fptrs ==> g == fptrs[0] || g in fptrs[1..];
      }
    }
  }

  /** The loop keeps the earlier columns in front, and every column that is
      not a file column keeps its value. */
  lemma {:induction false} FptrLoopKeeps(rec: Record, fptrs: seq<Element>, table: FileTable)
    requires FptrLoop(rec, fptrs, table).Ok?
    ensures Keys(rec) <= Keys(FptrLoop(rec, fptrs, table).value)
    ensures forall k :: !("fileGrp_" <= k) ==> Get(FptrLoop(rec, fptrs, table).value, k) == Get(rec, k)
    decreases |fptrs|
  {
    if fptrs != [] {
      var f := fptrs[0];
      var next := Put(rec, Column(f, table), Href(f, table));
      FptrLoopKeeps(next, fptrs[1..], table);
      forall k | !("fileGrp_" <= k)
        ensures Get(next, k) == Get(rec, k)
      {
        PutGet(rec, Column(f, table), Href(f, table), k);
      }
    }
  }

  predicate AllFptrOk(fptrs: seq<Element>, table: FileTable) {
    forall f :: f in fptrs ==> FptrOk(f, table)
  }

  /** No pointer after the `i`-th writes the same column. */
  predicate LastWriter(fptrs: seq<Element>, table: FileTable, i: nat)
    requires AllFptrOk(fptrs, table) && i < |fptrs|
  {
    forall j :: i < j < |fptrs| ==> Column(fptrs[j], table) != Column(fptrs[i], table)
  }

  /** One round of the loop with a valid pointer. */
  lemma FptrLoopCons(rec: Record, fptrs: seq<Element>, table: FileTable)
    requires fptrs != [] && FptrOk(fptrs[0], table)
    ensures FptrLoop(rec, fptrs, table) == FptrLoop(Put(rec, Column(fptrs[0], table), Href(fptrs[0], table)), fptrs[1..], table)
  {
  }

  /** Each file column holds the href of the last pointer writing it. */
  lemma {:induction false} FptrLoopLast(rec: Record, fptrs: seq<Element>, table: FileTable, i: nat)
    requires AllFptrOk(fptrs, table) && i < |fptrs| && LastWriter(fptrs, table, i)
    ensures FptrLoop(rec, fptrs, table).Ok?
    ensures Get(FptrLoop(rec, fptrs, table).value, Column(fptrs[i], table)) == Some(Href(fptrs[i], table))
    decreases |fptrs|
  {
    FptrLoopOk(rec, fptrs, table);
    var f := fptrs[0];
    assert f in fptrs;
    var next := Put(rec, Column(f, table), Href(f, table));
    FptrLoopCons(rec, fptrs, table);
    var rest := fptrs[1..];
    assert forall j :: 0 <= j < |rest| ==> rest[j] == fptrs[j + 1];
    assert AllFptrOk(rest, table) by {
      assert forall g :: g in rest ==> g in fptrs;
    }
    if i == 0 {
      var k := Column(f, table);
      PutGet(rec, k, Href(f, table), k);
      RestLeavesColumn(next, rest, table, k);
    } else {
      assert fptrs[i] == rest[i - 1];
      assert LastWriter(rest, table, i - 1);
      FptrLoopLast(next, rest, table, i - 1);
    }
  }

  /** A column no later pointer writes keeps its value. */
  lemma {:induction false} RestLeavesColumn(rec: Record, fptrs: seq<Element>, table: FileTable, k: string)
    requires FptrLoop(rec, fptrs, table).Ok?
    requires forall j :: 0 <= j < |fptrs| && FptrOk(fptrs[j], table) ==> Column(fptrs[j], table) != k
    ensures Get(FptrLoop(rec, fptrs, table).value, k) == Get(rec, k)
    decreases |fptrs|
  {
    if fptrs != [] {
      var f := fptrs[0];
      assert FptrOk(f, table);
      var next := Put(rec, Column(f, table), Href(f, table));
      PutGet(rec, Column(f, table), Href(f, table), k);
      assert forall j :: 0 <= j < |fptrs[1..]| ==> fptrs[1..][j] == fptrs[j + 1];
      RestLeavesColumn(next, fptrs[1..], table, k);
    }
  }

  // ---------------------------------------------------------------------
  // The logical divisions linked to a page.

  /** The `mets:smLink` children with the given `xlink:to` of the elements of
      `s`. */
  function LinksTo(s: seq<Element>, to: string): (r: seq<Element>)
    ensures forall l :: l in r <==> l in s && Is(l, METS, "smLink") && XlinkAttr(l, "to") == Some(to)
  {
    if s == [] then []
    else (if Is(s[0], METS, "smLink") && XlinkAttr(s[0], "to") == Some(to) then [s[0]] else []) + LinksTo(s[1..], to)
  }

  /** `mets.findall('./mets:structLink/mets:smLink[@xlink:to="to"]')` over the
      root's children `s`. */
  function SmLinks(s: seq<Element>, to: string): (r: seq<Element>)
    ensures forall l :: l in r ==> Is(l, METS, "smLink") && XlinkAttr(l, "to") == Some(to)
  {
    if s == [] then []
    else (if Is(s[0], METS, "structLink") then LinksTo(s[0].children, to) else []) + SmLinks(s[1..], to)
  }

  /** A link names the division it comes from; without `xlink:from` the
      look-up returns `None`, which cannot extend a list. */
  predicate HasFrom(l: Element) {
    XlinkAttr(l, "from").Some? && XlinkAttr(l, "from").value != ""
  }

  /** The loop of `get_struct_log`: the divisions of every link, in order. */
  function TargetsLoop(nodes: seq<Node>, links: seq<Element>, acc: seq<nat>): (r: Result<seq<nat>>)
    requires |nodes| >= 1 && Positions(nodes, acc)
    ensures r.Ok? <==> forall l :: l in links ==> HasFrom(l)
    ensures r.Ok? ==> Positions(nodes, r.value)
    ensures r.Err? ==> r.error == TypeError("'NoneType' object is not iterable")
    decreases |links|
  {
    if links == [] then Ok(acc)
    else
      var from := XlinkAttr(links[0], "from");
      assert links[0] in links;
      assert forall l :: l in links[1..] ==> l in links;
      if from.None? || from.value == "" then Err(TypeError("'NoneType' object is not iterable"))
      else TargetsLoop(nodes, links[1..], acc + DivsWithId(nodes, from.value, 1))
  }

  /** The targets are the divisions below the logical map whose ID some link
      names. */
  lemma {:induction false} TargetsMembers(nodes: seq<Node>, links: seq<Element>, acc: seq<nat>, x: nat)
    requires |nodes| >= 1 && Positions(nodes, acc)
    requires TargetsLoop(nodes, links, acc).Ok?
    ensures x in TargetsLoop(nodes, links, acc).value <==>
      x in acc || (1 <= x < |nodes| && exists l :: l in links && DivWithId(nodes[x].elem, XlinkAttr(l, "from").value))
    decreases |links|
  {
    if links != [] {
      var from := XlinkAttr(links[0], "from").value;
      assert links[0] in links;
      TargetsMembers(nodes, links[1..], acc + DivsWithId(nodes, from, 1), x);
      forall l | l in links
        ensures l == links[0] || l in links[1..]
      {
      }
    }
  }

  /** `str(x)` of an optional attribute in an f-string. */
  function IdText(id: Option<string>): string {
    if id.Some? then id.value else "None"
  }

  // ---------------------------------------------------------------------
  // The structure type columns.

  /** The column `structMap-LOGICAL_TYPE_{type}`. */
  function TypeColumn(t: string): (k: string)
    ensures "structMap-LOGICAL_TYPE_" <= k
  {
    "structMap-LOGICAL_TYPE_" + t
  }

  /** The division has a non-empty TYPE, as the loop asserts. */
  predicate Typed(e: Element) {
    Attr(e, "TYPE").Some? && Attr(e, "TYPE").value != ""
  }

  /** The loop over the set of divisions. */
  function TypeLoop(rec: Record, nodes: seq<Node>, divs: seq<nat>): (r: Result<Record>)
    requires Positions(nodes, divs)
    decreases |divs|
  {
    if divs == [] then Ok(rec)
    else
      assert divs[0] in divs;
      assert forall x :: x in divs[1..] ==> x in divs;
      var t := Attr(nodes[divs[0]].elem, "TYPE");
      if t.None? then Err(AttributeError("'NoneType' object has no attribute 'lower'"))
      else if Lower(t.value) == "" then Err(AssertionError(""))
      else TypeLoop(Put(rec, TypeColumn(Lower(t.value)), Num(1)), nodes, divs[1..])
  }

  /** The loop succeeds exactly when every division has a non-empty type; it
      then sets the column of every division's lower-cased type to 1, keeps
      the earlier columns in front and every other column as it was. */
  lemma {:induction false} TypeLoopSpec(rec: Record, nodes: seq<Node>, divs: seq<nat>)
    requires Positions(nodes, divs)
    ensures TypeLoop(rec, nodes, divs).Ok? <==> forall x :: x in divs ==> Typed(nodes[x].elem)
    ensures TypeLoop(rec, nodes, divs).Ok? ==>
      var r := TypeLoop(rec, nodes, divs).value;
      && Keys(rec) <= Keys(r)
      && (forall k :: !("structMap-LOGICAL_TYPE_" <= k) ==> Get(r, k) == Get(rec, k))
      && (forall x :: x in divs ==> Get(r, TypeColumn(Lower(Attr(nodes[x].elem, "TYPE").value))) == Some(Num(1)))
    decreases |divs|
  {
    if divs != [] {
      assert divs[0] in divs;
      assert forall x :: x in divs[1..] ==> x in divs;
      var e := nodes[divs[0]].elem;
      if Typed(e) {
        var k := TypeColumn(Lower(Attr(e, "TYPE").value));
        var next := Put(rec, k, Num(1));
        TypeLoopSpec(next, nodes, divs[1..]);
        if TypeLoop(rec, nodes, divs).Ok? {
          var r := TypeLoop(rec, nodes, divs).value;
          forall j | !("structMap-LOGICAL_TYPE_" <= j)
            ensures Get(r, j) == Get(rec, j)
          {
            PutGet(rec, k, Num(1), j);
          }
          PutGet(rec, k, Num(1), k);
          TypeLoopKeeps(next, nodes, divs[1..], k);
        }
      }
    }
  }

  /** A column set to 1 stays 1. */
  lemma {:induction false} TypeLoopKeeps(rec: Record, nodes: seq<Node>, divs: seq<nat>, k: string)
    requires Positions(nodes, divs)
    requires TypeLoop(rec, nodes, divs).Ok? && Get(rec, k) == Some(Num(1))
    ensures Get(TypeLoop(rec, nodes, divs).value, k) == Some(Num(1))
    decreases |divs|
  {
    if divs != [] {
      assert divs[0] in divs;
      assert forall x :: x in divs[1..] ==> x in divs;
      var k' := TypeColumn(Lower(Attr(nodes[divs[0]].elem, "TYPE").value));
      PutGet(rec, k', Num(1), k);
      TypeLoopKeeps(Put(rec, k', Num(1)), nodes, divs[1..], k);
    }
  }

  // ---------------------------------------------------------------------
  // One page and the document.

  /** The record of one page: the asserted page type, the PPN and ID, the file
      columns, then the structure type columns of the linked divisions and
      their ancestors. `root` are the children of the document's root. */
  function PageRecord(ppn: Value, page: Element, table: FileTable, nodes: seq<Node>, root: seq<Element>): Result<Record>
    requires Linked(nodes) && |nodes| >= 1
  {
    if Attr(page, "TYPE") != Some("page") then Err(AssertionError(""))
    else
      var id := Attr(page, "ID");
      var rec :- FptrLoop(Put(Put([], "ppn", ppn), "ID", OfText(id)), page.children, table);
      var targets :- TargetsLoop(nodes, SmLinks(root, IdText(id)), []);
      TypeLoop(rec, nodes, StructDivs(nodes, targets))
  }

  /** The outcome of each page in turn. */
  function PageResults(ppn: Value, pages: seq<Element>, table: FileTable, nodes: seq<Node>, root: seq<Element>): (r: seq<Result<Record>>)
    requires Linked(nodes) && |nodes| >= 1
    ensures |r| == |pages|
    ensures forall i :: 0 <= i < |pages| ==> r[i] == PageRecord(ppn, pages[i], table, nodes, root)
  {
    seq(|pages|, i requires 0 <= i < |pages| => PageRecord(ppn, pages[i], table, nodes, root))
  }

  /** The loop over the pages: the records are appended in turn, and the
      first exception ends the loop. */
  function Collect<T>(results: seq<Result<T>>, acc: seq<T>): Result<seq<T>>
    decreases |results|
  {
    if results == [] then Ok(acc)
    else
      var x :- results[0];
      Collect(results[1..], acc + [x])
  }

  /** `pages_to_dict(mets)`. */
  function PagesOf(mets: Element): Result<seq<Record>> {
    var ppn :- Ppn(mets);
    var physical := StructMap(mets.children, "PHYSICAL");
    var logical := StructMap(mets.children, "LOGICAL");
    var fileSec := FindChild(mets, QName(METS, "fileSec"));
    if physical.None? then
      if logical.None? then Err(AttributeError("'NoneType' object has no attribute 'find'"))
      else if Multivolume(logical.value) then Ok([])
      else Err(ValueError("No structMap[@TYPE='PHYSICAL'] found (but not a multivolume work)"))
    else if logical.None? then Err(ValueError("No structMap[@TYPE='LOGICAL'] found"))
    else if fileSec.None? then Err(ValueError("No fileSec found"))
    else if physical.value.children == [] then Err(IndexError("list index out of range"))
    else
      var sequence := physical.value.children[0];
      if Attr(sequence, "TYPE") != Some("physSequence") then Err(AssertionError(""))
      else Collect(PageResults(ppn, sequence.children, FilesById(fileSec.value), Table(logical.value), mets.children), [])
  }

  // ---------------------------------------------------------------------
  // Properties of a page record and of the result.

  /** The record starts with the PPN and the page ID, in that order, and no
      later column replaces them. */
  lemma PageRecordHead(ppn: Value, page: Element, table: FileTable, nodes: seq<Node>, root: seq<Element>)
    requires Linked(nodes) && |nodes| >= 1
    requires PageRecord(ppn, page, table, nodes, root).Ok?
    ensures var rec := PageRecord(ppn, page, table, nodes, root).value;
      && |Keys(rec)| >= 2 && Keys(rec)[..2] == ["ppn", "ID"]
      && Get(rec, "ppn") == Some(ppn)
      && Get(rec, "ID") == Some(OfText(Attr(page, "ID")))
  {
    var head, rec, divs := PageRecordSteps(ppn, page, table, nodes, root);
    var out := TypeLoop(rec, nodes, divs).value;
    HeadKept(head, ppn, OfText(Attr(page, "ID")));
    assert Keys(head) <= Keys(rec) && Get(rec, "ppn") == Get(head, "ppn") && Get(rec, "ID") == Get(head, "ID") by {
      FptrLoopKeeps(head, page.children, table);
    }
    assert Keys(rec) <= Keys(out) && Get(out, "ppn") == Get(rec, "ppn") && Get(out, "ID") == Get(rec, "ID") by {
      TypeLoopSpec(rec, nodes, divs);
    }
  }

  /** The stages of a page record that succeeds: the head, the record after
      the file pointers, and the divisions whose types are set. */
  lemma PageRecordSteps(ppn: Value, page: Element, table: FileTable, nodes: seq<Node>, root: seq<Element>)
      returns (head: Record, rec: Record, divs: seq<nat>)
    requires Linked(nodes) && |nodes| >= 1
    requires PageRecord(ppn, page, table, nodes, root).Ok?
    ensures head == Put(Put([], "ppn", ppn), "ID", OfText(Attr(page, "ID")))
    ensures FptrLoop(head, page.children, table) == Ok(rec)
    ensures TargetsLoop(nodes, SmLinks(root, IdText(Attr(page, "ID"))), []).Ok?
    ensures divs == StructDivs(nodes, TargetsLoop(nodes, SmLinks(root, IdText(Attr(page, "ID"))), []).value)
    ensures Positions(nodes, divs)
    ensures PageRecord(ppn, page, table, nodes, root) == TypeLoop(rec, nodes, divs)
  {
    head := Put(Put([], "ppn", ppn), "ID", OfText(Attr(page, "ID")));
    rec := FptrLoop(head, page.children, table).value;
    var targets := TargetsLoop(nodes, SmLinks(root, IdText(Attr(page, "ID"))), []).value;
    divs := StructDivs(nodes, targets);
  }

  /** The first two columns of every page record. */
  lemma HeadKept(head: Record, ppn: Value, id: Value)
    requires head == Put(Put([], "ppn", ppn), "ID", id)
    ensures Keys(head) == ["ppn", "ID"]
    ensures Get(head, "ppn") == Some(ppn) && Get(head, "ID") == Some(id)
    ensures !("fileGrp_" <= "ppn") && !("fileGrp_" <= "ID")
    ensures !("structMap-LOGICAL_TYPE_" <= "ppn") && !("structMap-LOGICAL_TYPE_" <= "ID")
  {
    PutGet(Put([], "ppn", ppn), "ID", id, "ppn");
    PutGet(Put([], "ppn", ppn), "ID", id, "ID");
  }

  /** The division at `x` is linked to the page. */
  predicate LinkedToPage(nodes: seq<Node>, root: seq<Element>, page: Element, x: nat) {
    1 <= x < |nodes| &&
    exists l :: l in SmLinks(root, IdText(Attr(page, "ID"))) && HasFrom(l) && DivWithId(nodes[x].elem, XlinkAttr(l, "from").value)
  }

  /** The division at `y` is linked to the page or encloses a division that
      is. */
  ghost predicate InPageStructure(nodes: seq<Node>, root: seq<Element>, page: Element, y: nat)
    requires Linked(nodes)
  {
    y < |nodes| &&
    exists x :: LinkedToPage(nodes, root, page, x) && (y == x || y in Ancestors(nodes, x))
  }

  /** The targets of a page are the divisions it links to. */
  lemma TargetsInPage(nodes: seq<Node>, root: seq<Element>, page: Element, x: nat)
    requires Linked(nodes) && |nodes| >= 1
    requires TargetsLoop(nodes, SmLinks(root, IdText(Attr(page, "ID"))), []).Ok?
    ensures x in TargetsLoop(nodes, SmLinks(root, IdText(Attr(page, "ID"))), []).value <==> LinkedToPage(nodes, root, page, x)
  {
    TargetsMembers(nodes, SmLinks(root, IdText(Attr(page, "ID"))), [], x);
  }

  /** The set the page's type columns come from is the page's structure. */
  lemma PageDivs(nodes: seq<Node>, root: seq<Element>, page: Element, y: nat)
    requires Linked(nodes) && |nodes| >= 1
    requires TargetsLoop(nodes, SmLinks(root, IdText(Attr(page, "ID"))), []).Ok?
    ensures var targets := TargetsLoop(nodes, SmLinks(root, IdText(Attr(page, "ID"))), []).value;
      y in StructDivs(nodes, targets) <==> InPageStructure(nodes, root, page, y)
  {
    var targets := TargetsLoop(nodes, SmLinks(root, IdText(Attr(page, "ID"))), []).value;
    StructDivsMembers(nodes, targets, y);
    TargetsInPage(nodes, root, page, y);
    if y in StructDivs(nodes, targets) && y !in targets {
      var t :| t in targets && y in Ancestors(nodes, t);
      TargetsInPage(nodes, root, page, t);
    }
    if InPageStructure(nodes, root, page, y) {
      var x :| LinkedToPage(nodes, root, page, x) && (y == x || y in Ancestors(nodes, x));
      TargetsInPage(nodes, root, page, x);
    }
  }

  /** A page record exists exactly when the element is a page, every child a
      valid file pointer, every link to the page names its source, and every
      division of the page's structure has a type. */
  lemma PageRecordOk(ppn: Value, page: Element, table: FileTable, nodes: seq<Node>, root: seq<Element>)
    requires Linked(nodes) && |nodes| >= 1
    ensures PageRecord(ppn, page, table, nodes, root).Ok? <==>
      && Attr(page, "TYPE") == Some("page")
      && (forall f :: f in page.children ==> FptrOk(f, table))
      && (forall l :: l in SmLinks(root, IdText(Attr(page, "ID"))) ==> HasFrom(l))
      && (forall y: nat :: y < |nodes| && InPageStructure(nodes, root, page, y) ==> Typed(nodes[y].elem))
  {
    var id := Attr(page, "ID");
    var head := Put(Put([], "ppn", ppn), "ID", OfText(id));
    FptrLoopOk(head, page.children, table);
    var t := TargetsLoop(nodes, SmLinks(root, IdText(id)), []);
    if Attr(page, "TYPE") == Some("page") && FptrLoop(head, page.children, table).Ok? && t.Ok? {
      var rec := FptrLoop(head, page.children, table).value;
      var divs := StructDivs(nodes, t.value);
      assert PageRecord(ppn, page, table, nodes, root) == TypeLoop(rec, nodes, divs);
      TypeLoopSpec(rec, nodes, divs);
      forall y: nat
        ensures y in divs <==> InPageStructure(nodes, root, page, y)
      {
        PageDivs(nodes, root, page, y);
      }
    }
  }

  /** Every division of the page's structure has its type column set to 1. */
  lemma PageRecordTypes(ppn: Value, page: Element, table: FileTable, nodes: seq<Node>, root: seq<Element>, y: nat)
    requires Linked(nodes) && |nodes| >= 1
    requires PageRecord(ppn, page, table, nodes, root).Ok?
    requires InPageStructure(nodes, root, page, y)
    ensures Typed(nodes[y].elem)
    ensures Get(PageRecord(ppn, page, table, nodes, root).value, TypeColumn(Lower(Attr(nodes[y].elem, "TYPE").value))) == Some(Num(1))
  {
    var head, rec, divs := PageRecordSteps(ppn, page, table, nodes, root);
    PageDivs(nodes, root, page, y);
    TypeLoopSpec(rec, nodes, divs);
  }

  /** A file column is never a type column. */
  lemma FileColumnNotType(k: string)
    requires "fileGrp_" <= k
    ensures !("structMap-LOGICAL_TYPE_" <= k)
  {
    assert k[0] == 'f';
  }

  /** Each file column of a page holds the href of the last pointer of the
      page writing it. */
  lemma PageRecordFiles(ppn: Value, page: Element, table: FileTable, nodes: seq<Node>, root: seq<Element>, i: nat)
    requires Linked(nodes) && |nodes| >= 1
    requires PageRecord(ppn, page, table, nodes, root).Ok?
    requires i < |page.children|
    ensures AllFptrOk(page.children, table)
    ensures LastWriter(page.children, table, i) ==>
      Get(PageRecord(ppn, page, table, nodes, root).value, Column(page.children[i], table)) == Some(Href(page.children[i], table))
  {
    var head, rec, divs := PageRecordSteps(ppn, page, table, nodes, root);
    var fptrs := page.children;
    FptrLoopOk(head, fptrs, table);
    if LastWriter(fptrs, table, i) {
      var k := Column(fptrs[i], table);
      FptrLoopLast(head, fptrs, table, i);
      FileColumnNotType(k);
      TypeLoopSpec(rec, nodes, divs);
    }
  }

  /** The loop succeeds exactly when every page does, and then yields the
      records in page order after the earlier ones; otherwise it ends with
      the exception of the first page that fails. */
  lemma {:induction false} CollectSpec<T>(results: seq<Result<T>>, acc: seq<T>)
    ensures Collect(results, acc).Ok? <==> forall i :: 0 <= i < |results| ==> results[i].Ok?
    ensures Collect(results, acc).Ok? ==>
      var rs := Collect(results, acc).value;
      |rs| == |acc| + |results| && rs[..|acc|] == acc &&
      forall i :: 0 <= i < |results| ==> results[i] == Ok(rs[|acc| + i])
    ensures Collect(results, acc).Err? ==>
      exists i :: 0 <= i < |results| && results[i].Err? && Collect(results, acc).error == results[i].error &&
        forall j :: 0 <= j < i ==> results[j].Ok?
    decreases |results|
  {
    if results != [] && results[0].Ok? {
      var acc' := acc + [results[0].value];
      var rest := results[1..];
      CollectSpec(rest, acc');
      assert forall i :: 1 <= i < |results| ==> results[i] == rest[i - 1];
      if Collect(results, acc).Ok? {
        var rs := Collect(results, acc).value;
        assert rs[..|acc|] == acc'[..|acc|];
        assert rs[|acc|] == acc'[|acc|];
        forall i | 1 <= i < |results|
          ensures results[i] == Ok(rs[|acc| + i])
        {
          assert |acc'| + (i - 1) == |acc| + i;
        }
      } else {
        var i :| 0 <= i < |rest| && rest[i].Err? && Collect(rest, acc').error == rest[i].error &&
          forall j :: 0 <= j < i ==> rest[j].Ok?;
        assert results[i + 1] == rest[i];
        assert forall j :: 1 <= j < i + 1 ==> results[j] == rest[j - 1];
      }
    }
  }

  /** The physical sequence: the first child of the physical map, when there
      is one. */
  function Sequence(mets: Element): Option<Element> {
    var physical := StructMap(mets.children, "PHYSICAL");
    if physical.Some? && physical.value.children != [] then Some(physical.value.children[0]) else None
  }

  /** With the three sections present and a physical sequence, the result has
      one record per page of the sequence, in order, each the page's record
      against the file table and the logical map. */
  lemma PagesOfPages(mets: Element)
    requires PagesOf(mets).Ok?
    requires StructMap(mets.children, "PHYSICAL").Some?
    ensures Sequence(mets).Some? && Attr(Sequence(mets).value, "TYPE") == Some("physSequence")
    ensures var pages := Sequence(mets).value.children;
      var rs := PagesOf(mets).value;
      var logical := StructMap(mets.children, "LOGICAL");
      var fileSec := FindChild(mets, QName(METS, "fileSec"));
      && logical.Some? && fileSec.Some?
      && |rs| == |pages|
      && forall i :: 0 <= i < |pages| ==>
           PageRecord(Ppn(mets).value, pages[i], FilesById(fileSec.value), Table(logical.value), mets.children) == Ok(rs[i])
  {
    var results := PagesOfSteps(mets);
    CollectFromEmpty(results);
  }

  /** Collecting from nothing yields exactly the successful values. */
  lemma CollectFromEmpty<T>(results: seq<Result<T>>)
    requires Collect(results, []).Ok?
    ensures var rs := Collect(results, []).value;
      |rs| == |results| && forall i :: 0 <= i < |results| ==> results[i] == Ok(rs[i])
  {
    CollectSpec(results, []);
    var rs := Collect(results, []).value;
    forall i | 0 <= i < |results|
      ensures results[i] == Ok(rs[i])
    {
      assert results[i] == Ok(rs[0 + i]);
    }
  }

  /** The per-page results a successful conversion with a physical map
      collects. */
  lemma PagesOfSteps(mets: Element) returns (results: seq<Result<Record>>)
    requires PagesOf(mets).Ok?
    requires StructMap(mets.children, "PHYSICAL").Some?
    ensures Ppn(mets).Ok? && Sequence(mets).Some? && Attr(Sequence(mets).value, "TYPE") == Some("physSequence")
    ensures StructMap(mets.children, "LOGICAL").Some? && FindChild(mets, QName(METS, "fileSec")).Some?
    ensures results == PageResults(Ppn(mets).value, Sequence(mets).value.children,
      FilesById(FindChild(mets, QName(METS, "fileSec")).value), Table(StructMap(mets.children, "LOGICAL").value), mets.children)
    ensures PagesOf(mets) == Collect(results, [])
  {
    var logical := StructMap(mets.children, "LOGICAL").value;
    var fileSec := FindChild(mets, QName(METS, "fileSec")).value;
    results := PageResults(Ppn(mets).value, Sequence(mets).value.children, FilesById(fileSec), Table(logical), mets.children);
  }

  /** Without a physical map the result is empty when the logical map stands
      for several volumes, and an error otherwise. */
  lemma PagesOfMultivolume(mets: Element)
    requires Ppn(mets).Ok? && StructMap(mets.children, "PHYSICAL").None?
    ensures var logical := StructMap(mets.children, "LOGICAL");
      && (PagesOf(mets) == Ok([]) <==> logical.Some? && Multivolume(logical.value))
      && (logical.Some? && !Multivolume(logical.value) ==>
            PagesOf(mets) == Err(ValueError("No structMap[@TYPE='PHYSICAL'] found (but not a multivolume work)")))
  {
  }

  // ---------------------------------------------------------------------
  // The converter: the loops of `pages_to_dict`.

  /** One round of the pointer loop. */
  lemma FptrLoopStep(rec: Record, fptrs: seq<Element>, table: FileTable, i: nat)
    requires i < |fptrs|
    ensures var st := FptrStep(rec, fptrs[i], table);
      FptrLoop(rec, fptrs[i..], table) == if st.Err? then Err(st.error) else FptrLoop(st.value, fptrs[i + 1..], table)
  {
    assert fptrs[i..][0] == fptrs[i] && fptrs[i..][1..] == fptrs[i + 1..];
  }

  /** The loop `for fptr in page` that fills the file columns. */
  method FptrColumns(rec: Record, fptrs: seq<Element>, table: FileTable) returns (r: Result<Record>)
    ensures r == FptrLoop(rec, fptrs, table)
  {
    var pageDict := rec;
    for i := 0 to |fptrs|
      invariant FptrLoop(pageDict, fptrs[i..], table) == FptrLoop(rec, fptrs, table)
    {
      FptrLoopStep(pageDict, fptrs, table, i);
      var fptr := fptrs[i];
      if !Is(fptr, METS, "fptr") {
        return Err(AssertionError(""));
      }
      var fileId := Attr(fptr, "FILEID");
      if fileId.None? || fileId.value == "" {
        return Err(AssertionError(""));
      }
      var entry := Get(table, Some(fileId.value));
      if entry.None? {
        return Err(KeyError(fileId.value));
      }
      var use := Attr(entry.value.group, "USE");
      var href := FirstHref(entry.value.file.children);
      pageDict := Put(pageDict, HrefColumn(use), OfText(href));
    }
    assert fptrs[|fptrs|..] == [];
    r := Ok(pageDict);
  }

  /** One round of the link loop. */
  lemma TargetsStep(nodes: seq<Node>, links: seq<Element>, acc: seq<nat>, i: nat)
    requires |nodes| >= 1 && Positions(nodes, acc) && i < |links|
    ensures var from := XlinkAttr(links[i], "from");
      TargetsLoop(nodes, links[i..], acc) ==
        if from.None? || from.value == "" then Err(TypeError("'NoneType' object is not iterable"))
        else TargetsLoop(nodes, links[i + 1..], acc + DivsWithId(nodes, from.value, 1))
  {
    assert links[i..][0] == links[i] && links[i..][1..] == links[i + 1..];
  }

  /** `get_struct_log`: the divisions of every link to the page, in order. */
  method StructLog(nodes: seq<Node>, root: seq<Element>, to: string) returns (r: Result<seq<nat>>)
    requires |nodes| >= 1
    ensures r == TargetsLoop(nodes, SmLinks(root, to), [])
  {
    var links := SmLinks(root, to);
    var targets := [];
    for i := 0 to |links|
      invariant Positions(nodes, targets)
      invariant TargetsLoop(nodes, links[i..], targets) == TargetsLoop(nodes, links, [])
    {
      TargetsStep(nodes, links, targets, i);
      var from := XlinkAttr(links[i], "from");
      if from.None? || from.value == "" {
        return Err(TypeError("'NoneType' object is not iterable"));
      }
      targets := targets + DivsWithId(nodes, from.value, 1);
    }
    assert links[|links|..] == [];
    r := Ok(targets);
  }

  /** One round of the type loop. */
  lemma TypeLoopStep(rec: Record, nodes: seq<Node>, divs: seq<nat>, i: nat)
    requires Positions(nodes, divs) && i < |divs|
    ensures divs[i] < |nodes| && Positions(nodes, divs[i..]) && Positions(nodes, divs[i + 1..])
    ensures var t := Attr(nodes[divs[i]].elem, "TYPE");
      TypeLoop(rec, nodes, divs[i..]) ==
        if t.None? then Err(AttributeError("'NoneType' object has no attribute 'lower'"))
        else if Lower(t.value) == "" then Err(AssertionError(""))
        else TypeLoop(Put(rec, TypeColumn(Lower(t.value)), Num(1)), nodes, divs[i + 1..])
  {
    assert divs[i] in divs;
    assert forall x :: x in divs[i..] ==> x in divs;
    assert divs[i..][1..] == divs[i + 1..];
    assert forall x :: x in divs[i..][1..] ==> x in divs;
    assert divs[i..][0] == divs[i];
  }

  /** The loop that sets the structure type columns. */
  method TypeColumns(rec: Record, nodes: seq<Node>, divs: seq<nat>) returns (r: Result<Record>)
    requires Positions(nodes, divs)
    ensures r == TypeLoop(rec, nodes, divs)
  {
    var pageDict := rec;
    for i := 0 to |divs|
      invariant Positions(nodes, divs[i..])
      invariant TypeLoop(pageDict, nodes, divs[i..]) == TypeLoop(rec, nodes, divs)
    {
      TypeLoopStep(pageDict, nodes, divs, i);
      var t := Attr(nodes[divs[i]].elem, "TYPE");
      if t.None? {
        return Err(AttributeError("'NoneType' object has no attribute 'lower'"));
      }
      var type_ := Lower(t.value);
      if type_ == "" {
        return Err(AssertionError(""));
      }
      pageDict := Put(pageDict, TypeColumn(type_), Num(1));
    }
    assert divs[|divs|..] == [];
    r := Ok(pageDict);
  }

  /** The body of the page loop: the record of one page. */
  method PageDict(ppn: Value, page: Element, table: FileTable, nodes: seq<Node>, root: seq<Element>) returns (r: Result<Record>)
    requires Linked(nodes) && |nodes| >= 1
    ensures r == PageRecord(ppn, page, table, nodes, root)
  {
    if Attr(page, "TYPE") != Some("page") {
      return Err(AssertionError(""));
    }
    var id := Attr(page, "ID");
    var pageDict := Put(Put([], "ppn", ppn), "ID", OfText(id));
    pageDict :- FptrColumns(pageDict, page.children, table);
    var targets :- StructLog(nodes, root, IdText(id));
    var divs := StructDivsOf(nodes, targets);
    r := TypeColumns(pageDict, nodes, divs);
  }

  /** One round of the page loop. */
  lemma CollectStep<T>(results: seq<Result<T>>, acc: seq<T>, i: nat)
    requires i < |results|
    ensures Collect(results[i..], acc) ==
      if results[i].Err? then Err(results[i].error) else Collect(results[i + 1..], acc + [results[i].value])
  {
    assert results[i..][0] == results[i] && results[i..][1..] == results[i + 1..];
  }

  /** `pages_to_dict(mets)`. */
  method PagesToDict(mets: Element) returns (r: Result<seq<Record>>)
    ensures r == PagesOf(mets)
  {
    var ppn :- Ppn(mets);
    var physical := StructMap(mets.children, "PHYSICAL");
    var logical := StructMap(mets.children, "LOGICAL");
    var fileSec := FindChild(mets, QName(METS, "fileSec"));
    if physical.None? {
      if logical.None? {
        return Err(AttributeError("'NoneType' object has no attribute 'find'"));
      }
      if Multivolume(logical.value) {
        return Ok([]);
      }
      return Err(ValueError("No structMap[@TYPE='PHYSICAL'] found (but not a multivolume work)"));
    }
    if logical.None? {
      return Err(ValueError("No structMap[@TYPE='LOGICAL'] found"));
    }
    if fileSec.None? {
      return Err(ValueError("No fileSec found"));
    }
    if physical.value.children == [] {
      return Err(IndexError("list index out of range"));
    }
    var sequence := physical.value.children[0];
    if Attr(sequence, "TYPE") != Some("physSequence") {
      return Err(AssertionError(""));
    }
    var table := BuildFilesById(fileSec.value);
    var nodes := Table(logical.value);
    var pages := sequence.children;
    ghost var results := PageResults(ppn, pages, table, nodes, mets.children);
    assert results[0..] == results;
    var result := [];
    for i := 0 to |pages|
      invariant Collect(results[i..], result) == PagesOf(mets)
    {
      CollectStep(results, result, i);
      var rec :- PageDict(ppn, pages[i], table, nodes, mets.children);
      result := result + [rec];
    }
    assert results[|pages|..] == [];
    r := Ok(result);
  }
}
