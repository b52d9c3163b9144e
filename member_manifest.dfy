/** Member rewrite: in the `dependencies`, `dev-dependencies` and `build-dependencies`
    tables of a member manifest, every entry of a common dependency is turned into a
    `workspace = true` declaration that inherits the root's requirement. */
module MemberManifest {
  import opened Base
  import opened Toml

  const VersionKey := "version"

  /** The only top-level tables the rewrite visits, in the order it visits them;
      target-specific tables (`[target.'cfg(..)'.dependencies]`) are not among them. */
  const DependencySections: seq<string> := ["dependencies", "dev-dependencies", "build-dependencies"]

  /** `{ workspace = true }`, which replaces a plain version string. */
  const WorkspaceMarker: Item := InlineTable(Table([Entry(WorkspaceKey, Bool(true))]))

  /** The rewrite of an inline or standard table entry: drop `version`, then make
      `workspace` true unless it holds something other than a boolean. */
  function RewriteAttributes(a: Table): (r: Table)
    ensures !Has(r, VersionKey)
    ensures Get(r, WorkspaceKey) == match Get(a, WorkspaceKey)
                                    case Some(v) => if v.Bool? then Some(Bool(true)) else Some(v)
                                    case None => Some(Bool(true))
    ensures forall k | k != VersionKey && k != WorkspaceKey :: Get(r, k) == Get(a, k)
  {
    var stripped := Remove(a, VersionKey);
    match Get(stripped, WorkspaceKey)
    case None => Set(stripped, WorkspaceKey, Bool(true))
    case Some(Bool(false)) => Set(stripped, WorkspaceKey, Bool(true))
    case Some(_) => stripped
  }

  /** Whether the rewrite of an attribute table sets the `modified` flag: only inserting
      or flipping `workspace` does; dropping `version` alone does not. */
  predicate AttributesChanged(a: Table)
  {
    Get(a, WorkspaceKey) == None || Get(a, WorkspaceKey) == Some(Bool(false))
  }

  /** The rewrite of the entry of a common dependency, by its shape. */
  function RewriteItem(item: Item, names: set<string>): Item
    decreases item
  {
    match item
    case Str(_) => WorkspaceMarker
    case InlineTable(a) => InlineTable(RewriteAttributes(a))
    case StandardTable(a) => StandardTable(RewriteAttributes(a))
    case ArrayOfTables(ts) => ArrayOfTables(seq(|ts|, k requires 0 <= k < |ts| => RewriteTable(ts[k], names)))
    case _ => item
  }

  function RewriteEntry(e: Entry, names: set<string>): Entry
    decreases e
  {
    if e.key in names then Entry(e.key, RewriteItem(e.value, names)) else e
  }

  /** The whole dependencies table after the rewrite, independent of the order in
      which the names are visited: every entry keeps its key and position. */
  function RewriteTable(t: Table, names: set<string>): Table
    decreases t
  {
    Table(seq(|t.entries|, i requires 0 <= i < |t.entries| => RewriteEntry(t.entries[i], names)))
  }

  predicate ItemChanged(item: Item, names: set<string>)
    decreases item
  {
    match item
    case Str(_) => true
    case InlineTable(a) => AttributesChanged(a)
    case StandardTable(a) => AttributesChanged(a)
    case ArrayOfTables(ts) => exists k | 0 <= k < |ts| :: TableChanged(ts[k], names)
    case _ => false
  }

  /** The `modified` flag of a dependencies table. */
  predicate TableChanged(t: Table, names: set<string>)
    decreases t
  {
    exists i | 0 <= i < |t.entries| :: t.entries[i].key in names && ItemChanged(t.entries[i].value, names)
  }

  /** The attribute part of the rewrite, shared by inline and standard table entries. */
  method UpdateAttributes(a: Table) returns (a': Table, modified: bool)
    ensures a' == RewriteAttributes(a)
    ensures modified == AttributesChanged(a)
  {
    a' := a;
    if Has(a', VersionKey) {
      a' := Remove(a', VersionKey);
    }
    modified := false;
    match Get(a', WorkspaceKey)
    case None =>
      a' := Set(a', WorkspaceKey, Bool(true));
      modified := true;
    case Some(Bool(false)) =>
      a' := Set(a', WorkspaceKey, Bool(true));
      modified := true;
    case Some(_) =>
  }

  /** One arm of the `match` in `update_dependencies_table`: the entry of a common
      dependency, rewritten by its shape. */
  method UpdateDependency(item: Item, common: map<string, string>, order: seq<string>)
    returns (item': Item, modified: bool)
    requires IsKeyOrder(order, common)
    requires WellFormedItem(item)
    ensures item' == RewriteItem(item, common.Keys)
    ensures modified == ItemChanged(item, common.Keys)
    decreases item
  {
    match item
    case Str(_) =>
      item', modified := WorkspaceMarker, true;
    case InlineTable(a) =>
      var a';
      a', modified := UpdateAttributes(a);
      item' := InlineTable(a');
    case StandardTable(a) =>
      var a';
      a', modified := UpdateAttributes(a);
      item' := StandardTable(a');
    case ArrayOfTables(ts) =>
      var tables := ts;
      modified := false;
      for k := 0 to |ts|
        invariant |tables| == |ts|
        invariant forall m | 0 <= m < |ts| :: tables[m] == if m < k then RewriteTable(ts[m], common.Keys) else ts[m]
        invariant modified == exists m | 0 <= m < k :: TableChanged(ts[m], common.Keys)
      {
        var table, changed := UpdateDependenciesTable(ts[k], common, order);
        tables := tables[k := table];
        modified := modified || changed;
      }
      item' := ArrayOfTables(tables);
    case _ =>
      item', modified := item, false;
  }

  /** `update_dependencies_table`: visits the common names in the map's order and
      rewrites the entry of each one the table declares. */
  method UpdateDependenciesTable(t: Table, common: map<string, string>, order: seq<string>)
    returns (t': Table, modified: bool)
    requires IsKeyOrder(order, common)
    requires WellFormedTable(t)
    ensures t' == RewriteTable(t, common.Keys)
    ensures modified == TableChanged(t, common.Keys)
    decreases t
  {
    t' := t;
    modified := false;
    for i := 0 to |order|
      invariant |t'.entries| == |t.entries|
      invariant forall j | 0 <= j < |t.entries| ::
        t'.entries[j] == if t.entries[j].key in order[..i] then RewriteEntry(t.entries[j], common.Keys) else t.entries[j]
      invariant modified == exists j | 0 <= j < |t.entries| ::
        t.entries[j].key in order[..i] && ItemChanged(t.entries[j].value, common.Keys)
    {
      var name := order[i];
      assert order[..i + 1] == order[..i] + [name];
      var idx := IndexOf(t'.entries, name);
      if 0 <= idx {
        assert t.entries[idx].key == name && name !in order[..i];
        var item := t'.entries[idx].value;
        var item', changed := UpdateDependency(item, common, order);
        ghost var before := t';
        t' := Set(t', name, item');
        assert forall j | 0 <= j < |t.entries| && j != idx :: t.entries[j].key != name;
        modified := modified || changed;
      }
    }
    assert order[..|order|] == order;
  }

  function SectionError(section: string): string
  {
    "'" + section + "' is not a table"
  }

  /** The first of `sections` that the manifest has but not as a standard table. */
  function FirstBadSection(doc: Table, sections: seq<string>): Option<string>
  {
    if |sections| == 0 then None
    else match Get(doc, sections[0])
      case Some(item) => if item.StandardTable? then FirstBadSection(doc, sections[1..]) else Some(sections[0])
      case None => FirstBadSection(doc, sections[1..])
  }

  predicate BadSection(doc: Table, section: string)
  {
    Has(doc, section) && !Get(doc, section).value.StandardTable?
  }

  /** The sections are checked in the order dependencies, dev-dependencies, build-dependencies. */
  lemma FirstBadSectionCases(doc: Table)
    ensures FirstBadSection(doc, DependencySections) ==
      if BadSection(doc, "dependencies") then Some("dependencies")
      else if BadSection(doc, "dev-dependencies") then Some("dev-dependencies")
      else if BadSection(doc, "build-dependencies") then Some("build-dependencies")
      else None
  {
    assert DependencySections[1..] == ["dev-dependencies", "build-dependencies"];
    assert DependencySections[1..][1..] == ["build-dependencies"];
    assert DependencySections[1..][1..][1..] == [];
    assert FirstBadSection(doc, []) == None;
    assert FirstBadSection(doc, ["build-dependencies"]) ==
      if BadSection(doc, "build-dependencies") then Some("build-dependencies") else None;
  }

  function RewriteSection(e: Entry, names: set<string>): Entry
  {
    if e.key in DependencySections && e.value.StandardTable?
    then Entry(e.key, StandardTable(RewriteTable(e.value.t, names)))
    else e
  }

  predicate SectionChanged(doc: Table, section: string, names: set<string>)
  {
    exists j | 0 <= j < |doc.entries| ::
      doc.entries[j].key == section && doc.entries[j].value.StandardTable? && TableChanged(doc.entries[j].value.t, names)
  }

  /** `update_member_cargo_toml` on a parsed manifest: the rewritten document and the
      `modified` flag, or the error for the first dependency section that is not a table. */
  function RewriteMember(doc: Table, names: set<string>, path: string): Result<(Table, bool)>
  {
    match FirstBadSection(doc, DependencySections)
    case Some(section) => Err(MemberUpdate(SectionError(section), path))
    case None =>
      Ok((Table(seq(|doc.entries|, j requires 0 <= j < |doc.entries| => RewriteSection(doc.entries[j], names))),
          exists s | s in DependencySections :: SectionChanged(doc, s, names)))
  }

  /** One of the three `if let Some(deps) = doc.get_mut(..)` blocks. */
  method UpdateSection(doc: Table, section: string, common: map<string, string>, order: seq<string>, path: string)
    returns (r: Result<(Table, bool)>)
    requires IsKeyOrder(order, common)
    requires UniqueKeys(doc)
    requires forall j | 0 <= j < |doc.entries| && doc.entries[j].key == section :: WellFormedItem(doc.entries[j].value)
    ensures r.Err? <==> BadSection(doc, section)
    ensures r.Err? ==> r.error == MemberUpdate(SectionError(section), path)
    ensures r.Ok? ==> RewroteSection(doc, r.value.0, section, common.Keys)
    ensures r.Ok? ==> (r.value.1 <==> SectionChanged(doc, section, common.Keys))
  {
    match Get(doc, section)
    case None =>
      r := Ok((doc, false));
    case Some(StandardTable(deps)) =>
      var idx := IndexOf(doc.entries, section);
      var deps', changed := UpdateDependenciesTable(deps, common, order);
      r := Ok((Set(doc, section, StandardTable(deps')), changed));
      assert forall j | 0 <= j < |doc.entries| && j != idx :: doc.entries[j].key != section;
    case Some(_) =>
      r := Err(MemberUpdate(SectionError(section), path));
  }

  /** `d` is `doc` with the standard table under `section` rewritten, in place. */
  ghost predicate RewroteSection(doc: Table, d: Table, section: string, names: set<string>)
  {
    && |d.entries| == |doc.entries|
    && forall j | 0 <= j < |doc.entries| ::
      d.entries[j] == if doc.entries[j].key == section && doc.entries[j].value.StandardTable?
                      then Entry(section, StandardTable(RewriteTable(doc.entries[j].value.t, names)))
                      else doc.entries[j]
  }

  /** Rewriting one section leaves every other key where and as it was. */
  lemma RewroteSectionKeeps(doc: Table, d: Table, section: string, names: set<string>, key: string)
    requires RewroteSection(doc, d, section, names) && key != section
    ensures Get(d, key) == Get(doc, key)
    ensures SectionChanged(d, key, names) == SectionChanged(doc, key, names)
    ensures forall j | 0 <= j < |doc.entries| && doc.entries[j].key == key :: d.entries[j] == doc.entries[j]
  {
    SameKeysIndexOf(doc.entries, d.entries, key);
    if SectionChanged(doc, key, names) {
      var j :| 0 <= j < |doc.entries| && doc.entries[j].key == key && doc.entries[j].value.StandardTable?
        && TableChanged(doc.entries[j].value.t, names);
      assert d.entries[j] == doc.entries[j];
    }
    if SectionChanged(d, key, names) {
      var j :| 0 <= j < |d.entries| && d.entries[j].key == key && d.entries[j].value.StandardTable?
        && TableChanged(d.entries[j].value.t, names);
      assert d.entries[j] == doc.entries[j];
    }
  }

  lemma DependencySectionNames(key: string)
    ensures key in DependencySections <==> key == "dependencies" || key == "dev-dependencies" || key == "build-dependencies"
    ensures "dependencies" != "dev-dependencies" && "dependencies" != "build-dependencies"
    ensures "dev-dependencies" != "build-dependencies"
  {
    assert "dependencies"[0] != "dev-dependencies"[3];
    assert "dependencies"[0] != "build-dependencies"[0];
    assert "dev-dependencies"[0] != "build-dependencies"[0];
  }

  /** The three section rewrites in turn amount to the rewrite of every section at once. */
  lemma ThreeSections(doc: Table, d1: Table, d2: Table, d3: Table, names: set<string>)
    requires RewroteSection(doc, d1, "dependencies", names)
    requires RewroteSection(d1, d2, "dev-dependencies", names)
    requires RewroteSection(d2, d3, "build-dependencies", names)
    ensures d3.entries == seq(|doc.entries|, j requires 0 <= j < |doc.entries| => RewriteSection(doc.entries[j], names))
  {
    forall j | 0 <= j < |doc.entries|
      ensures d3.entries[j] == RewriteSection(doc.entries[j], names)
    {
      var e := doc.entries[j];
      DependencySectionNames(e.key);
      if e.key == "dependencies" {
        assert d1.entries[j] == RewriteSection(e, names);
        assert d3.entries[j] == d1.entries[j];
      } else if e.key == "dev-dependencies" {
        assert d1.entries[j] == e;
        assert d3.entries[j] == d2.entries[j];
      } else if e.key == "build-dependencies" {
        assert d2.entries[j] == e;
      } else {
        assert d1.entries[j] == e && d2.entries[j] == e;
      }
    }
  }

  /** `RewriteMember` section by section: the first bad section decides the error, and
      otherwise the flag is whether any of the three sections changed. */
  lemma RewriteMemberCases(doc: Table, names: set<string>, path: string)
    ensures RewriteMember(doc, names, path) ==
      if BadSection(doc, "dependencies") then Err(MemberUpdate(SectionError("dependencies"), path))
      else if BadSection(doc, "dev-dependencies") then Err(MemberUpdate(SectionError("dev-dependencies"), path))
      else if BadSection(doc, "build-dependencies") then Err(MemberUpdate(SectionError("build-dependencies"), path))
      else Ok((Table(seq(|doc.entries|, j requires 0 <= j < |doc.entries| => RewriteSection(doc.entries[j], names))),
               SectionChanged(doc, "dependencies", names) || SectionChanged(doc, "dev-dependencies", names)
               || SectionChanged(doc, "build-dependencies", names)))
  {
    FirstBadSectionCases(doc);
    DependencySectionNames("");
    assert DependencySections[0] == "dependencies";
    assert DependencySections[1] == "dev-dependencies";
    assert DependencySections[2] == "build-dependencies";
  }

  lemma SameKeysIndexOf(a: seq<Entry>, b: seq<Entry>, key: string)
    requires |a| == |b| && forall j | 0 <= j < |a| :: a[j].key == b[j].key
    ensures IndexOf(a, key) == IndexOf(b, key)
  {
    IndexOfIs(b, key, IndexOf(a, key));
  }

  /** `update_member_cargo_toml` on the parsed manifest: the three sections in turn,
      stopping at the first that is not a table. */
  method UpdateMemberManifest(doc: Table, common: map<string, string>, order: seq<string>, path: string)
    returns (r: Result<(Table, bool)>)
    requires IsKeyOrder(order, common)
    requires WellFormedTable(doc)
    ensures r == RewriteMember(doc, common.Keys, path)
  {
    var names := common.Keys;
    RewriteMemberCases(doc, names, path);
    var r1 := UpdateSection(doc, "dependencies", common, order, path);
    if r1.Err? {
      return Err(r1.error);
    }
    var d1 := r1.value.0;
    RewroteSectionKeeps(doc, d1, "dependencies", names, "dev-dependencies");
    RewroteSectionKeeps(doc, d1, "dependencies", names, "build-dependencies");
    var r2 := UpdateSection(d1, "dev-dependencies", common, order, path);
    if r2.Err? {
      return Err(r2.error);
    }
    var d2 := r2.value.0;
    RewroteSectionKeeps(d1, d2, "dev-dependencies", names, "build-dependencies");
    var r3 := UpdateSection(d2, "build-dependencies", common, order, path);
    if r3.Err? {
      return Err(r3.error);
    }
    var d3 := r3.value.0;
    var modified := r1.value.1 || r2.value.1 || r3.value.1;
    ThreeSections(doc, d1, d2, d3, names);
    return Ok((d3, modified));
  }
}
