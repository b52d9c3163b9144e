/** Root rewrite: the root manifest gains a `[workspace.dependencies]` table holding one
    plain requirement string per common dependency it does not already declare. */
module RootManifest {
  import opened Base
  import opened Toml

  const DependenciesKey := "dependencies"
  const WorkspaceNotTable := "'workspace' is not a table"
  const DependenciesNotTable := "'workspace.dependencies' is not a table"

  /** The names of `order` all have a representative in `common`. */
  predicate Covered(order: seq<string>, common: map<string, string>)
  {
    forall i | 0 <= i < |order| :: order[i] in common
  }

  /** What a lookup of `k` sees once the names of `order` are added to `deps`. */
  function Added(deps: Table, common: map<string, string>, order: seq<string>, k: string): Option<Item>
    requires Covered(order, common)
  {
    if Has(deps, k) then Get(deps, k) else if k in order then Some(Str(common[k])) else None
  }

  /** `deps` after `entry(name).or_insert(req)` for each name of `order` in turn: a missing
      name is appended with its representative, a present one is never overwritten. */
  function AddMissing(deps: Table, common: map<string, string>, order: seq<string>): (r: Table)
    requires Covered(order, common)
    ensures forall k :: Get(r, k) == Added(deps, common, order, k)
    ensures |deps.entries| <= |r.entries| && r.entries[..|deps.entries|] == deps.entries
    decreases |order|
  {
    if |order| == 0 then deps
    else
      var d := AddMissing(deps, common, order[..|order| - 1]);
      var name := order[|order| - 1];
      if Has(d, name) then d else Set(d, name, Str(common[name]))
  }

  /** The `modified` flag of the root rewrite: some name of `order` was missing. */
  predicate AnyMissing(deps: Table, order: seq<string>)
  {
    exists i | 0 <= i < |order| :: !Has(deps, order[i])
  }

  /** `if !t.contains_key(key) { t[key] = Table::new() }`: an existing entry, whatever
      its shape, is left alone; a missing one becomes an empty standard table. */
  function EnsureTable(t: Table, key: string): (r: Table)
    ensures Get(r, key) == if Has(t, key) then Get(t, key) else Some(StandardTable(Table([])))
    ensures forall k | k != key :: Get(r, k) == Get(t, k)
    ensures Has(t, key) ==> r == t
    ensures !Has(t, key) ==> r.entries == t.entries + [Entry(key, StandardTable(Table([])))]
  {
    if Has(t, key) then t else Set(t, key, StandardTable(Table([])))
  }

  /** `update_root_cargo_toml` on the parsed root manifest, visiting the common names
      in `order`: the rewritten document and the `modified` flag, or the error. */
  function RewriteRoot(doc: Table, common: map<string, string>, order: seq<string>): Result<(Table, bool)>
    requires Covered(order, common)
  {
    var doc1 := EnsureTable(doc, WorkspaceKey);
    match Get(doc1, WorkspaceKey)
    case Some(StandardTable(ws)) =>
      var ws1 := EnsureTable(ws, DependenciesKey);
      (match Get(ws1, DependenciesKey)
       case Some(StandardTable(deps)) =>
         var ws2 := Set(ws1, DependenciesKey, StandardTable(AddMissing(deps, common, order)));
         Ok((Set(doc1, WorkspaceKey, StandardTable(ws2)), AnyMissing(deps, order)))
       case _ =>
         // the check sits inside the loop, so it only fires when there is a name to add
         if |order| == 0 then Ok((doc1, false)) else Err(WorkspaceUpdate(DependenciesNotTable)))
    case _ => Err(WorkspaceUpdate(WorkspaceNotTable))
  }

  /** The loop of `update_root_cargo_toml`: `entry(name).or_insert_with(..)` for each
      common name in the map's order, noting whether anything was inserted. */
  method InsertMissing(deps: Table, common: map<string, string>, order: seq<string>)
    returns (deps': Table, modified: bool)
    requires IsKeyOrder(order, common)
    ensures deps' == AddMissing(deps, common, order)
    ensures modified == AnyMissing(deps, order)
  {
    deps' := deps;
    modified := false;
    for i := 0 to |order|
      invariant deps' == AddMissing(deps, common, order[..i])
      invariant modified <==> AnyMissing(deps, order[..i])
    {
      var name := order[i];
      InsertStep(deps, common, order, i);
      if !Has(deps', name) {
        deps' := Set(deps', name, Str(common[name]));
        modified := true;
      }
    }
    assert order[..|order|] == order;
  }

  /** One more name: `AddMissing` and `AnyMissing` on the next prefix of `order`. */
  lemma InsertStep(deps: Table, common: map<string, string>, order: seq<string>, i: nat)
    requires IsKeyOrder(order, common) && i < |order|
    ensures var d := AddMissing(deps, common, order[..i]);
      && AddMissing(deps, common, order[..i + 1]) == (if Has(d, order[i]) then d else Set(d, order[i], Str(common[order[i]])))
      && (AnyMissing(deps, order[..i + 1]) <==> AnyMissing(deps, order[..i]) || !Has(d, order[i]))
  {
    var name := order[i];
    var d := AddMissing(deps, common, order[..i]);
    assert order[..i + 1][..i] == order[..i];
    assert order[..i + 1][i] == name;
    assert name !in order[..i];
    assert Has(d, name) == Has(deps, name) by {
      assert Get(d, name) == Added(deps, common, order[..i], name);
    }
    if !Has(deps, name) {
      assert order[..i + 1][i] == name;
    }
    if AnyMissing(deps, order[..i + 1]) {
      var j :| 0 <= j < i + 1 && !Has(deps, order[..i + 1][j]);
      if j < i {
        assert order[..i][j] == order[..i + 1][j];
      }
    }
  }

  /** `update_root_cargo_toml` after parsing: create the tables it needs, then insert
      each missing common name, in the map's order. */
  method UpdateRootManifest(doc: Table, common: map<string, string>, order: seq<string>)
    returns (r: Result<(Table, bool)>)
    requires IsKeyOrder(order, common)
    ensures r == RewriteRoot(doc, common, order)
  {
    var doc' := EnsureTable(doc, WorkspaceKey);
    var wsItem := Get(doc', WorkspaceKey).value;
    if !wsItem.StandardTable? {
      return Err(WorkspaceUpdate(WorkspaceNotTable));
    }
    var ws := EnsureTable(wsItem.t, DependenciesKey);
    var depsItem := Get(ws, DependenciesKey).value;
    if !depsItem.StandardTable? {
      // the source looks the table up inside the loop, so only a name to insert fails
      if |order| == 0 {
        return Ok((doc', false));
      }
      return Err(WorkspaceUpdate(DependenciesNotTable));
    }
    var deps, modified := InsertMissing(depsItem.t, common, order);
    ws := Set(ws, DependenciesKey, StandardTable(deps));
    doc' := Set(doc', WorkspaceKey, StandardTable(ws));
    return Ok((doc', modified));
  }
}
