/** The driver (`run`): find the common dependencies, rewrite the root manifest, then
    every member manifest in workspace order, stopping at the first failure. The
    manifest files are state of the workspace; reading and parsing one either fails or
    yields its document, and writing one replaces it with the rewritten document. */
module Engine {
  import opened Base
  import opened Toml
  import opened Frequency
  import opened RootManifest
  import opened MemberManifest

  /** A manifest file as `read_to_string` followed by `parse::<DocumentMut>` sees it. */
  datatype ManifestFile = Unreadable | Unparsable | Parsed(doc: Table)

  /** A parsed manifest has unique keys at every level, as TOML requires. */
  predicate WellFormedFile(f: ManifestFile)
  {
    f.Parsed? ==> WellFormedTable(f.doc)
  }

  /** `update_member_cargo_toml` on one member file: the read and parse errors name the
      file; otherwise the rewrite of its document. */
  function MemberOutcome(f: ManifestFile, names: set<string>, path: string): Result<(Table, bool)>
  {
    match f
    case Unreadable => Err(Io(path))
    case Unparsable => Err(TomlParse(path))
    case Parsed(doc) => RewriteMember(doc, names, path)
  }

  /** The outcome of every member file, in workspace order. */
  function Outcomes(files: seq<ManifestFile>, paths: seq<string>, names: set<string>): seq<Result<(Table, bool)>>
    requires |paths| == |files|
  {
    seq(|files|, i requires 0 <= i < |files| => MemberOutcome(files[i], names, paths[i]))
  }

  /** Index of the first failing outcome, or the length when none fails. */
  function FirstError(outs: seq<Result<(Table, bool)>>): (r: nat)
    ensures r <= |outs|
    ensures r < |outs| ==> outs[r].Err?
    ensures forall i | 0 <= i < r :: outs[i].Ok?
  {
    if |outs| == 0 then 0
    else if outs[0].Err? then 0
    else 1 + FirstError(outs[1..])
  }

  /** `updated_count`: how many of the outcomes are successes that modified their file. */
  function CountModified(outs: seq<Result<(Table, bool)>>): (r: nat)
    ensures r <= |outs|
  {
    if |outs| == 0 then 0
    else CountModified(outs[..|outs| - 1]) + (if Modified(outs[|outs| - 1]) then 1 else 0)
  }

  predicate Modified(out: Result<(Table, bool)>)
  {
    out.Ok? && out.value.1
  }

  /** The count is the number of modifying outcomes, counted as a set of positions. */
  lemma {:induction false} CountModifiedIsCardinality(outs: seq<Result<(Table, bool)>>)
    ensures CountModified(outs) == |set i | 0 <= i < |outs| && Modified(outs[i])|
  {
    if |outs| > 0 {
      var n := |outs| - 1;
      var prefix := outs[..n];
      CountModifiedIsCardinality(prefix);
      var before := set i | 0 <= i < n && Modified(prefix[i]);
      var after := set i | 0 <= i < |outs| && Modified(outs[i]);
      assert before == set i | 0 <= i < n && Modified(outs[i]);
      if Modified(outs[n]) {
        assert after == before + {n};
      } else {
        assert after == before;
      }
    }
  }

  class Workspace {
    /** The workspace members in `workspace_members` order, with their dependency lists. */
    const packages: seq<Package>
    const rootPath: string
    /** The manifest path of each member, in the same order. */
    const memberPaths: seq<string>
    var root: ManifestFile
    var members: seq<ManifestFile>

    predicate Valid()
      reads this
    {
      |memberPaths| == |packages| && |members| == |packages|
    }

    constructor(packages: seq<Package>, rootPath: string, memberPaths: seq<string>,
                root: ManifestFile, members: seq<ManifestFile>)
      requires |memberPaths| == |packages| && |members| == |packages|
      ensures Valid()
      ensures this.packages == packages && this.rootPath == rootPath && this.memberPaths == memberPaths
      ensures this.root == root && this.members == members
    {
      this.packages := packages;
      this.rootPath := rootPath;
      this.memberPaths := memberPaths;
      this.root := root;
      this.members := members;
    }

    /** `run` after the metadata has been read. `common` and `order` are the common
        dependencies and the order in which the map hands out their names; `stop` is the
        position of the first member that failed, or the number of members. */
    method Run(minOccurrences: nat) returns (r: Result<nat>, ghost common: map<string, string>,
                                             ghost order: seq<string>, ghost stop: nat)
      requires Valid()
      requires WellFormedFile(root) && forall i | 0 <= i < |members| :: WellFormedFile(members[i])
      modifies this
      ensures Valid()
      ensures common == CommonDependencies(packages, minOccurrences) && IsKeyOrder(order, common)
      // no common dependency: nothing is touched
      ensures common == map[] ==> r == Ok(0) && root == old(root) && members == old(members)
      // the root comes first; if it fails, no file is touched
      ensures common != map[] && old(root) == Unreadable ==>
        r == Err(Io(rootPath)) && root == old(root) && members == old(members)
      ensures common != map[] && old(root) == Unparsable ==>
        r == Err(TomlParse(rootPath)) && root == old(root) && members == old(members)
      ensures common != map[] && old(root).Parsed? && RewriteRoot(old(root).doc, common, order).Err? ==>
        r == Err(RewriteRoot(old(root).doc, common, order).error) && root == old(root) && members == old(members)
      // otherwise the root is always written back, then the members follow in order
      ensures common != map[] && old(root).Parsed? && RewriteRoot(old(root).doc, common, order).Ok? ==>
        var outs := Outcomes(old(members), memberPaths, common.Keys);
        && root == Parsed(RewriteRoot(old(root).doc, common, order).value.0)
        && stop == FirstError(outs)
        && (stop < |outs| ==> r == Err(outs[stop].error))
        && (stop == |outs| ==> r == Ok(CountModified(outs)))
        && |members| == |outs|
        && (forall i | 0 <= i < |outs| ::
              members[i] == if i < stop && outs[i].value.1 then Parsed(outs[i].value.0) else old(members)[i])
    {
      var c := FindCommonDependencies(packages, minOccurrences);
      common := c;
      if c == map[] {
        order := [];
        stop := 0;
        r := Ok(0);
        return;
      }
      var ord := KeyOrder(c);
      order := ord;
      stop := 0;
      if root.Unreadable? {
        r := Err(Io(rootPath));
        return;
      } else if root.Unparsable? {
        r := Err(TomlParse(rootPath));
        return;
      }
      var rootResult := UpdateRootManifest(root.doc, c, ord);
      if rootResult.Err? {
        r := Err(rootResult.error);
        return;
      }
      root := Parsed(rootResult.value.0);

      r, stop := UpdateMembers(c, ord);
    }

    /** The member loop of `run`: each member in turn, writing back only the manifests
        that were modified, counting them, and stopping at the first failure. */
    method UpdateMembers(common: map<string, string>, order: seq<string>) returns (r: Result<nat>, ghost stop: nat)
      requires Valid() && IsKeyOrder(order, common)
      requires forall i | 0 <= i < |members| :: WellFormedFile(members[i])
      modifies this
      ensures Valid() && root == old(root)
      ensures var outs := Outcomes(old(members), memberPaths, common.Keys);
        && stop == FirstError(outs)
        && (stop < |outs| ==> r == Err(outs[stop].error))
        && (stop == |outs| ==> r == Ok(CountModified(outs)))
        && |members| == |outs|
        && (forall i | 0 <= i < |outs| ::
              members[i] == if i < stop && outs[i].value.1 then Parsed(outs[i].value.0) else old(members)[i])
    {
      ghost var outs := Outcomes(members, memberPaths, common.Keys);
      var updatedCount := 0;
      for i := 0 to |members|
        invariant Valid() && root == old(root)
        invariant forall j | 0 <= j < i :: outs[j].Ok?
        invariant forall j | 0 <= j < |outs| ::
          members[j] == if j < i && outs[j].value.1 then Parsed(outs[j].value.0) else old(members)[j]
        invariant updatedCount == CountModified(outs[..i])
      {
        var outcome := UpdateMember(members[i], common, order, memberPaths[i]);
        assert outs[..i + 1][..i] == outs[..i];
        if outcome.Err? {
          FirstErrorAt(outs, i);
          stop := i;
          r := Err(outcome.error);
          return;
        }
        if outcome.value.1 {
          members := members[i := Parsed(outcome.value.0)];
          updatedCount := updatedCount + 1;
        }
      }
      assert outs[..|outs|] == outs;
      FirstErrorAt(outs, |outs|);
      stop := |outs|;
      r := Ok(updatedCount);
    }
  }

  /** One member: read, parse, then `update_member_cargo_toml`. */
  method UpdateMember(f: ManifestFile, common: map<string, string>, order: seq<string>, path: string)
    returns (r: Result<(Table, bool)>)
    requires IsKeyOrder(order, common) && WellFormedFile(f)
    ensures r == MemberOutcome(f, common.Keys, path)
  {
    match f
    case Unreadable =>
      r := Err(Io(path));
    case Unparsable =>
      r := Err(TomlParse(path));
    case Parsed(doc) =>
      r := UpdateMemberManifest(doc, common, order, path);
  }

  /** The first failure is at `i` when everything before `i` succeeded and `i` failed
      (or `i` is the end). */
  lemma {:induction false} FirstErrorAt(outs: seq<Result<(Table, bool)>>, i: nat)
    requires i <= |outs|
    requires forall j | 0 <= j < i :: outs[j].Ok?
    requires i < |outs| ==> outs[i].Err?
    ensures FirstError(outs) == i
    decreases i
  {
    if i > 0 {
      assert outs[0].Ok?;
      FirstErrorAt(outs[1..], i - 1);
    }
  }
}
