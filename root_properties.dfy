/** Properties of the root rewrite: when it fails, what `[workspace.dependencies]` holds
    afterwards, what `modified` means, and that a second run changes nothing. */
module RootProperties {
  import opened Base
  import opened Toml
  import opened RootManifest

  /** `workspace` exists but is not a standard table. */
  predicate WorkspaceBad(doc: Table)
  {
    Has(doc, WorkspaceKey) && !Get(doc, WorkspaceKey).value.StandardTable?
  }

  /** `workspace` is a table whose `dependencies` exists but is not a standard table. */
  predicate DependenciesBad(doc: Table)
  {
    match Get(doc, WorkspaceKey)
    case Some(StandardTable(ws)) => Has(ws, DependenciesKey) && !Get(ws, DependenciesKey).value.StandardTable?
    case _ => false
  }

  /** The `[workspace.dependencies]` table of a root manifest, when both levels are tables. */
  function RootDependencies(doc: Table): Option<Table>
  {
    match Get(doc, WorkspaceKey)
    case Some(StandardTable(ws)) =>
      (match Get(ws, DependenciesKey)
       case Some(StandardTable(deps)) => Some(deps)
       case _ => None)
    case _ => None
  }

  /** The `[workspace]` table of a root manifest: an empty one when it is missing. */
  function WorkspaceTable(doc: Table): Table
  {
    match Get(doc, WorkspaceKey)
    case Some(StandardTable(ws)) => ws
    case _ => Table([])
  }

  /** The shared declarations the root manifest already has: none when the tables are missing. */
  function ExistingDependencies(doc: Table): Table
  {
    match RootDependencies(doc)
    case Some(deps) => deps
    case None => Table([])
  }

  /** The root rewrite fails exactly when `workspace` is not a table, or when
      `workspace.dependencies` is not a table and there is a name to insert. */
  lemma RootErrors(doc: Table, common: map<string, string>, order: seq<string>)
    requires Covered(order, common)
    ensures RewriteRoot(doc, common, order).Err? <==> WorkspaceBad(doc) || (DependenciesBad(doc) && |order| > 0)
    ensures WorkspaceBad(doc) ==> RewriteRoot(doc, common, order) == Err(WorkspaceUpdate(WorkspaceNotTable))
    ensures !WorkspaceBad(doc) && DependenciesBad(doc) && |order| > 0 ==>
      RewriteRoot(doc, common, order) == Err(WorkspaceUpdate(DependenciesNotTable))
  {
    if !Has(doc, WorkspaceKey) {
      assert Get(EnsureTable(doc, WorkspaceKey), WorkspaceKey) == Some(StandardTable(Table([])));
    }
  }

  /** Adding names that are all present already changes nothing. */
  lemma {:induction false} AddMissingPresent(deps: Table, common: map<string, string>, order: seq<string>)
    requires Covered(order, common)
    requires forall i | 0 <= i < |order| :: Has(deps, order[i])
    ensures AddMissing(deps, common, order) == deps
    decreases |order|
  {
    if |order| > 0 {
      var prefix := order[..|order| - 1];
      assert forall i | 0 <= i < |prefix| :: prefix[i] == order[i];
      AddMissingPresent(deps, common, prefix);
    }
  }

  /** After a successful rewrite with at least one common name, `[workspace.dependencies]`
      is a table in which every common name resolves: to the root's own declaration when
      there was one (never overwritten), otherwise to the representative requirement.
      Every other key, at both levels, keeps its value and its position; new entries
      only ever come after the existing ones. */
  lemma RootLookup(doc: Table, common: map<string, string>, order: seq<string>)
    requires IsKeyOrder(order, common)
    requires RewriteRoot(doc, common, order).Ok?
    requires !DependenciesBad(doc)
    ensures var d := RewriteRoot(doc, common, order).value.0;
      && (forall k | k != WorkspaceKey :: Get(d, k) == Get(doc, k))
      && RootDependencies(d).Some?
      && (forall name :: Get(RootDependencies(d).value, name) ==
            if Has(ExistingDependencies(doc), name) then Get(ExistingDependencies(doc), name)
            else if name in common then Some(Str(common[name]))
            else None)
      && ExistingDependencies(doc).entries <= RootDependencies(d).value.entries
      && |doc.entries| <= |d.entries|
      && (forall j | 0 <= j < |doc.entries| && doc.entries[j].key != WorkspaceKey :: d.entries[j] == doc.entries[j])
      && (forall k | k != DependenciesKey :: Get(WorkspaceTable(d), k) == Get(WorkspaceTable(doc), k))
      && |WorkspaceTable(doc).entries| <= |WorkspaceTable(d).entries|
      && (forall j | 0 <= j < |WorkspaceTable(doc).entries| && WorkspaceTable(doc).entries[j].key != DependenciesKey ::
            WorkspaceTable(d).entries[j] == WorkspaceTable(doc).entries[j])
  {
    var d := RewriteRoot(doc, common, order).value.0;
    var doc1 := EnsureTable(doc, WorkspaceKey);
    var ws := Get(doc1, WorkspaceKey).value.t;
    var ws1 := EnsureTable(ws, DependenciesKey);
    var deps := Get(ws1, DependenciesKey).value.t;
    var deps' := AddMissing(deps, common, order);
    assert deps == ExistingDependencies(doc);
    assert RootDependencies(d) == Some(deps');
    forall name
      ensures Get(deps', name) ==
        if Has(deps, name) then Get(deps, name) else if name in common then Some(Str(common[name])) else None
    {
      assert Get(deps', name) == Added(deps, common, order, name);
    }
    var ws2 := Set(ws1, DependenciesKey, StandardTable(deps'));
    assert d == Set(doc1, WorkspaceKey, StandardTable(ws2));
    assert WorkspaceTable(doc) == ws;
    assert WorkspaceTable(d) == ws2;
  }

  /** `modified` is true exactly when some common name was not declared in the root yet. */
  lemma RootModified(doc: Table, common: map<string, string>, order: seq<string>)
    requires IsKeyOrder(order, common)
    requires RewriteRoot(doc, common, order).Ok?
    ensures RewriteRoot(doc, common, order).value.1 <==> exists name | name in common :: !Has(ExistingDependencies(doc), name)
  {
    var doc1 := EnsureTable(doc, WorkspaceKey);
    var ws := Get(doc1, WorkspaceKey).value.t;
    var ws1 := EnsureTable(ws, DependenciesKey);
    if Get(ws1, DependenciesKey).value.StandardTable? {
      var deps := Get(ws1, DependenciesKey).value.t;
      assert deps == ExistingDependencies(doc);
      if exists name | name in common :: !Has(deps, name) {
        var name :| name in common && !Has(deps, name);
        var i :| 0 <= i < |order| && order[i] == name;
        assert AnyMissing(deps, order);
      }
    }
  }

  /** With a non-empty common set, an unmodified root comes back exactly as it was. */
  lemma RootUnchangedUnlessModified(doc: Table, common: map<string, string>, order: seq<string>)
    requires IsKeyOrder(order, common)
    requires RewriteRoot(doc, common, order).Ok? && !RewriteRoot(doc, common, order).value.1
    requires |order| > 0
    ensures RewriteRoot(doc, common, order).value.0 == doc
  {
    var doc1 := EnsureTable(doc, WorkspaceKey);
    var ws := Get(doc1, WorkspaceKey).value.t;
    var ws1 := EnsureTable(ws, DependenciesKey);
    var deps := Get(ws1, DependenciesKey).value.t;
    assert forall i | 0 <= i < |order| :: Has(deps, order[i]);
    assert Has(deps, order[0]);
    AddMissingPresent(deps, common, order);
    assert Has(doc, WorkspaceKey) && doc1 == doc;
    assert Has(ws, DependenciesKey) && ws1 == ws;
    SetSame(ws1, DependenciesKey, StandardTable(deps));
    SetSame(doc1, WorkspaceKey, StandardTable(ws1));
  }

  /** A second run on the rewritten root, in any key order, succeeds, changes nothing and
      reports nothing. */
  lemma RootIdempotent(doc: Table, common: map<string, string>, order: seq<string>, order2: seq<string>)
    requires IsKeyOrder(order, common) && IsKeyOrder(order2, common)
    requires RewriteRoot(doc, common, order).Ok?
    ensures var d := RewriteRoot(doc, common, order).value.0;
      RewriteRoot(d, common, order2) == Ok((d, false))
  {
    var d := RewriteRoot(doc, common, order).value.0;
    RootErrors(doc, common, order);
    if DependenciesBad(doc) {
      KeyOrderEmpty(order, common);
      KeyOrderEmpty(order2, common);
      assert Has(doc, WorkspaceKey) && EnsureTable(doc, WorkspaceKey) == doc;
    } else {
      RootLookup(doc, common, order);
      var deps' := RootDependencies(d).value;
      assert forall i | 0 <= i < |order2| :: Has(deps', order2[i]);
      AddMissingPresent(deps', common, order2);
      var ws' := Get(d, WorkspaceKey).value.t;
      assert EnsureTable(d, WorkspaceKey) == d;
      assert EnsureTable(ws', DependenciesKey) == ws';
      SetSame(ws', DependenciesKey, StandardTable(deps'));
      SetSame(d, WorkspaceKey, StandardTable(ws'));
      assert !AnyMissing(deps', order2);
    }
  }

  /** A root manifest without `[workspace]` gets both tables, holding the common name. */
  lemma CreatesWorkspaceTables()
    ensures var doc := Table([Entry("package", StandardTable(Table([])))]);
      RewriteRoot(doc, map["serde" := "1.0"], ["serde"]) ==
        Ok((Table([Entry("package", StandardTable(Table([]))),
                   Entry("workspace", StandardTable(Table([
                     Entry("dependencies", StandardTable(Table([Entry("serde", Str("1.0"))])))])))]),
            true))
  {
    var doc := Table([Entry("package", StandardTable(Table([])))]);
    var common := map["serde" := "1.0"];
    assert IndexOf(doc.entries, WorkspaceKey) == -1;
    var doc1 := Table(doc.entries + [Entry(WorkspaceKey, StandardTable(Table([])))]);
    assert EnsureTable(doc, WorkspaceKey) == doc1;
    assert IndexOf(doc1.entries, WorkspaceKey) == 1;
    var ws1 := Table([Entry(DependenciesKey, StandardTable(Table([])))]);
    assert IndexOf(Table([]).entries, DependenciesKey) == -1;
    assert EnsureTable(Table([]), DependenciesKey) == ws1;
    assert IndexOf(Table([]).entries, "serde") == -1;
    assert ["serde"][..0] == [];
    assert AddMissing(Table([]), common, ["serde"]) == Table([Entry("serde", Str("1.0"))]);
    assert AnyMissing(Table([]), ["serde"]);
    assert IndexOf(ws1.entries, DependenciesKey) == 0;
    var ws2 := Table([Entry(DependenciesKey, StandardTable(Table([Entry("serde", Str("1.0"))])))]);
    assert Set(ws1, DependenciesKey, StandardTable(Table([Entry("serde", Str("1.0"))]))) == ws2;
    assert Set(doc1, WorkspaceKey, StandardTable(ws2)) == Table([doc.entries[0], Entry(WorkspaceKey, StandardTable(ws2))]);
  }
}
