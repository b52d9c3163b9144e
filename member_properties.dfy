/** Properties of the member rewrite: what a lookup sees afterwards, idempotence, the
    error cases, and worked examples of each entry shape. */
module MemberProperties {
  import opened Base
  import opened Toml
  import opened MemberManifest

  /** `modified` is set for an attribute table exactly when `workspace` ends up with a
      different value than it had: inserted, or flipped from false. */
  lemma AttributesChangedIffWorkspaceWritten(a: Table)
    ensures AttributesChanged(a) <==> Get(RewriteAttributes(a), WorkspaceKey) != Get(a, WorkspaceKey)
  {
    match Get(a, WorkspaceKey)
    case None =>
    case Some(v) =>
      assert Get(RewriteAttributes(a), WorkspaceKey) == (if v.Bool? then Some(Bool(true)) else Some(v));
  }

  /** A second rewrite of an attribute table changes nothing and reports nothing. */
  lemma AttributesIdempotent(a: Table)
    ensures RewriteAttributes(RewriteAttributes(a)) == RewriteAttributes(a)
    ensures !AttributesChanged(RewriteAttributes(a))
  {
    var r := RewriteAttributes(a);
    assert Remove(r, VersionKey) == r;
    assert Get(r, WorkspaceKey).Some? && Get(r, WorkspaceKey) != Some(Bool(false));
  }

  /** Rewriting a rewritten dependencies table is the identity, and reports no change. */
  lemma {:induction false} TableIdempotent(t: Table, names: set<string>)
    ensures RewriteTable(RewriteTable(t, names), names) == RewriteTable(t, names)
    ensures !TableChanged(RewriteTable(t, names), names)
    decreases t, 1
  {
    var r := RewriteTable(t, names);
    forall i | 0 <= i < |t.entries|
      ensures RewriteEntry(r.entries[i], names) == r.entries[i]
      ensures !(r.entries[i].key in names && ItemChanged(r.entries[i].value, names))
    {
      var e := t.entries[i];
      assert r.entries[i] == RewriteEntry(e, names);
      if e.key in names {
        ItemIdempotent(e.value, names);
        assert r.entries[i] == Entry(e.key, RewriteItem(e.value, names));
      } else {
        assert r.entries[i] == e;
      }
    }
  }

  lemma {:induction false} ItemIdempotent(item: Item, names: set<string>)
    ensures RewriteItem(RewriteItem(item, names), names) == RewriteItem(item, names)
    ensures !ItemChanged(RewriteItem(item, names), names)
    decreases item, 0
  {
    match item
    case Str(_) =>
      var marker := Table([Entry(WorkspaceKey, Bool(true))]);
      assert Get(marker, WorkspaceKey) == Some(Bool(true));
      assert Remove(marker, VersionKey) == marker;
    case InlineTable(a) =>
      AttributesIdempotent(a);
    case StandardTable(a) =>
      AttributesIdempotent(a);
    case ArrayOfTables(ts) =>
      var rs := seq(|ts|, k requires 0 <= k < |ts| => RewriteTable(ts[k], names));
      forall k | 0 <= k < |ts|
        ensures RewriteTable(rs[k], names) == rs[k] && !TableChanged(rs[k], names)
      {
        TableIdempotent(ts[k], names);
      }
    case _ =>
  }

  /** What a lookup sees after the rewrite: the entry of a common name is rewritten by
      its shape, every other entry is untouched, and no key appears or disappears. */
  lemma TableLookup(t: Table, names: set<string>, key: string)
    ensures Get(RewriteTable(t, names), key) ==
      match Get(t, key)
      case None => None
      case Some(v) => Some(if key in names then RewriteItem(v, names) else v)
  {
    var r := RewriteTable(t, names);
    forall j | 0 <= j < |t.entries|
      ensures r.entries[j].key == t.entries[j].key
    {
      assert r.entries[j] == RewriteEntry(t.entries[j], names);
    }
    SameKeysIndexOf(t.entries, r.entries, key);
  }

  /** A member manifest is refused exactly when one of the three dependency sections is
      present but not a table; the error names the first such section in visiting order. */
  lemma MemberErrors(doc: Table, names: set<string>, path: string)
    ensures RewriteMember(doc, names, path).Err? <==> exists s | s in DependencySections :: BadSection(doc, s)
    ensures RewriteMember(doc, names, path).Err? ==>
      exists s | s in DependencySections :: BadSection(doc, s) &&
        RewriteMember(doc, names, path).error == MemberUpdate(SectionError(s), path)
  {
    RewriteMemberCases(doc, names, path);
    DependencySectionNames("");
    assert DependencySections[0] == "dependencies";
    assert DependencySections[1] == "dev-dependencies";
    assert DependencySections[2] == "build-dependencies";
  }

  lemma SectionIdempotent(e: Entry, names: set<string>)
    ensures RewriteSection(RewriteSection(e, names), names) == RewriteSection(e, names)
    ensures RewriteSection(e, names).key == e.key
    ensures RewriteSection(e, names).value.StandardTable? == e.value.StandardTable?
    ensures e.value.StandardTable? && e.key in DependencySections ==>
      !TableChanged(RewriteSection(e, names).value.t, names)
  {
    if e.key in DependencySections && e.value.StandardTable? {
      TableIdempotent(e.value.t, names);
    }
  }

  /** The rewritten document keeps every key, position and section shape, and each of
      its entries is a fixed point of the section rewrite. */
  lemma MemberRewriteShape(doc: Table, names: set<string>, d: Table)
    requires d.entries == seq(|doc.entries|, j requires 0 <= j < |doc.entries| => RewriteSection(doc.entries[j], names))
    ensures forall s | s in DependencySections :: BadSection(d, s) == BadSection(doc, s) && !SectionChanged(d, s, names)
    ensures d.entries == seq(|d.entries|, j requires 0 <= j < |d.entries| => RewriteSection(d.entries[j], names))
  {
    forall j | 0 <= j < |doc.entries|
      ensures RewriteSection(d.entries[j], names) == d.entries[j]
      ensures d.entries[j].key == doc.entries[j].key
      ensures d.entries[j].value.StandardTable? == doc.entries[j].value.StandardTable?
    {
      SectionIdempotent(doc.entries[j], names);
    }
    forall s | s in DependencySections
      ensures BadSection(d, s) == BadSection(doc, s) && !SectionChanged(d, s, names)
    {
      SameKeysIndexOf(doc.entries, d.entries, s);
      forall j | 0 <= j < |d.entries| && d.entries[j].key == s && d.entries[j].value.StandardTable?
        ensures !TableChanged(d.entries[j].value.t, names)
      {
        SectionIdempotent(doc.entries[j], names);
      }
    }
  }

  /** Running the member rewrite on its own output succeeds, changes nothing and does
      not report the file as modified. */
  lemma MemberIdempotent(doc: Table, names: set<string>, path: string)
    requires RewriteMember(doc, names, path).Ok?
    ensures var d := RewriteMember(doc, names, path).value.0;
      RewriteMember(d, names, path) == Ok((d, false))
  {
    var d := RewriteMember(doc, names, path).value.0;
    RewriteMemberCases(doc, names, path);
    MemberRewriteShape(doc, names, d);
    RewriteMemberCases(d, names, path);
    DependencySectionNames("");
    assert DependencySections[0] == "dependencies";
    assert DependencySections[1] == "dev-dependencies";
    assert DependencySections[2] == "build-dependencies";
    assert Table(d.entries) == d;
  }

  /** `foo = "1.0"` and `bar = { version = "2.0", features = [..] }`, both common: `foo`
      becomes the marker, `bar` keeps its features, loses its version and gains
      `workspace = true` at the end, and the table is reported as modified. */
  lemma StringAndInlineExample()
    ensures var t := Table([Entry("foo", Str("1.0")),
                            Entry("bar", InlineTable(Table([Entry("version", Str("2.0")), Entry("features", OtherValue)])))]);
      && RewriteTable(t, {"foo", "bar"}) ==
         Table([Entry("foo", WorkspaceMarker),
                Entry("bar", InlineTable(Table([Entry("features", OtherValue), Entry("workspace", Bool(true))])))])
      && TableChanged(t, {"foo", "bar"})
  {
    var a := Table([Entry("version", Str("2.0")), Entry("features", OtherValue)]);
    var stripped := Table([Entry("features", OtherValue)]);
    assert IndexOf(a.entries, VersionKey) == 0;
    assert Remove(a, VersionKey) == stripped;
    assert IndexOf(stripped.entries, WorkspaceKey) == -1;
    assert RewriteAttributes(a) == Table([Entry("features", OtherValue), Entry("workspace", Bool(true))]);
    var t := Table([Entry("foo", Str("1.0")), Entry("bar", InlineTable(a))]);
    assert ItemChanged(t.entries[0].value, {"foo", "bar"});
  }

  /** With `workspace = true` already present, dropping `version` alone does not set
      `modified`: the entry is rewritten in memory, but the manifest is not written. */
  lemma VersionOnlyRemovalNotReported()
    ensures var item := InlineTable(Table([Entry("version", Str("1")), Entry("workspace", Bool(true))]));
      && RewriteItem(item, {"serde"}) == InlineTable(Table([Entry("workspace", Bool(true))]))
      && RewriteItem(item, {"serde"}) != item
      && !ItemChanged(item, {"serde"})
  {
    var a := Table([Entry("version", Str("1")), Entry("workspace", Bool(true))]);
    var stripped := Table([Entry("workspace", Bool(true))]);
    assert IndexOf(a.entries, VersionKey) == 0;
    assert Remove(a, VersionKey) == stripped;
    assert IndexOf(a.entries, WorkspaceKey) == 1;
    assert Get(stripped, WorkspaceKey) == Some(Bool(true));
  }

  /** Each element of an array of tables is treated as a dependencies table of its own:
      its `version` is kept, because no common name is a key inside it. */
  lemma ArrayElementsAreDependencyTables()
    ensures var item := ArrayOfTables([Table([Entry("version", Str("1"))])]);
      RewriteItem(item, {"serde"}) == item && !ItemChanged(item, {"serde"})
  {
    var inner := Table([Entry("version", Str("1"))]);
    assert RewriteTable(inner, {"serde"}).entries[0] == inner.entries[0];
    assert RewriteTable(inner, {"serde"}) == inner;
    assert !TableChanged(inner, {"serde"});
  }
}
