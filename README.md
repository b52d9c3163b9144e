# cargo-easy-dep, modelled in Dafny

`cargo easy-dep` consolidates the dependencies that the members of a Cargo workspace
repeat into one shared declaration. It runs in three steps:

- It counts the non-path (registry and git) dependency entries of every member. A name that reaches the
  threshold (`--min-occurrences`, by default 2) becomes *common*. Its representative
  requirement is the requirement of the entry at which the count reached the threshold.
- It adds each common name to `[workspace.dependencies]` in the root `Cargo.toml`. A
  name the root already declares is never overwritten.
- It rewrites the `[dependencies]`, `[dev-dependencies]` and `[build-dependencies]`
  tables of every member. A common dependency's entry inherits the root's declaration
  (`workspace = true`) and loses its local `version`.

The model has these modules:

- `Base`: results and errors, and the iteration order of a `HashMap`. The program does
  not fix that order, so the model does not either: it is a sequence that enumerates
  the keys once each (`IsKeyOrder`), and `KeyOrder` picks one nondeterministically.
- `Toml`: the parsed document as the format-preserving editor exposes it. Tables are
  ordered key/value lists. Inserting a key appends it, assigning an existing key
  replaces its value in place, and removing a key keeps the order of the others. Each
  entry is a string, a boolean, an inline table, a standard table, an array of tables,
  or some other value that is never inspected.
- `Frequency`: `find_common_dependencies`. This is an imperative scan over nested loops
  with two maps. It is proved equal to a declarative definition (`CommonDependencies`),
  and the properties below are proved about that definition.
- `RootManifest`: `update_root_cargo_toml` after parsing. `UpdateRootManifest` creates
  the tables and runs the insertion loop (`InsertMissing`). It is proved equal to
  `RewriteRoot`. `RootProperties` holds what that function guarantees.
- `MemberManifest`: `update_member_cargo_toml` and `update_dependencies_table`. The
  methods visit the common names in map order and edit the tables by name. They are
  proved equal to an order-free, position-by-position rewrite (`RewriteTable`,
  `RewriteMember`). `MemberProperties` holds what that rewrite guarantees.
- `Engine`: the control skeleton of `run`. A `Workspace` object holds the manifest
  files as mutable state. `Run` finds the common set, then rewrites the root, then
  rewrites the members in order.

## Model

| member | source | states |
|---|---|---|
| Base.KeyOrder | src/main.rs:373 | the common names are visited once each, in an order the program does not fix |
| Base.KeyOrderEmpty | src/main.rs:156 | an enumeration of the common map's keys is empty exactly when the map is empty |
| Frequency.Threshold | src/main.rs:223-225 | the running count of a name is at least 1 once it is bumped, so `count >= min` first holds at `max(1, min)` |
| Frequency.FindCommonDependencies | src/main.rs:201-242 | the scan's result is exactly `CommonDependencies`: every name whose non-path entries reach the threshold, mapped to the requirement of the entry that reached it |
| Frequency.CommonMembership | src/main.rs:219-231 | a name is common if and only if its non-path entries, counted member by member, number at least `min` and at least one |
| Frequency.RepresentativeReachesThreshold | src/main.rs:223-230 | the representative is the requirement of an entry of that name with exactly `threshold - 1` counted entries of that name before it |
| Frequency.RepresentativeStable | src/main.rs:226-230 | members scanned later keep a common name common and never change its representative |
| Frequency.PathDependenciesExcluded | src/main.rs:220-222 | a name whose entries are all path dependencies is never common |
| Frequency.SecondEntryIsRepresentative | src/main.rs:225-230 | with threshold 2, `serde` at 1.0 and then at 1.0.200 yields the representative 1.0.200, not 1.0 |
| Frequency.OneMemberTwoEntries | src/main.rs:219-225 | entries are counted, not members: one member declaring a name twice makes it common at threshold 2 |
| RootManifest.EnsureTable | src/main.rs:258-260 | a missing key becomes an empty standard table; an existing key of any shape is left alone, and so are all other keys |
| RootManifest.AddMissing | src/main.rs:274-286 | after the insertions, a lookup finds the table's own value for a name it had, the representative string for a visited name it lacked, and nothing else new; existing entries keep their positions |
| RootManifest.InsertMissing | src/main.rs:274-286 | the insertion loop computes `AddMissing`, and its flag is whether some visited name was missing |
| RootManifest.UpdateRootManifest | src/main.rs:256-303 | the root rewrite after parsing equals `RewriteRoot`: create `workspace` and `workspace.dependencies` when absent, fail on a non-table, insert the missing names |
| RootProperties.RootErrors | src/main.rs:263-281 | the root rewrite fails if and only if `workspace` is not a table, or `workspace.dependencies` is not a table and there is a name to insert, with the source's message in each case |
| RootProperties.RootLookup | src/main.rs:256-286 | afterwards `[workspace.dependencies]` is a table; each common name resolves to the root's own earlier declaration if there was one, otherwise to its representative; every other top-level key and every other key of `[workspace]` (`members`, `resolver`, ..) keeps its value and its position, and existing shared declarations stay a prefix |
| RootProperties.RootModified | src/main.rs:271-286 | `modified` is true if and only if some common name was missing from the root's existing shared declarations |
| RootProperties.RootUnchangedUnlessModified | src/main.rs:256-288 | with a non-empty common set, an unmodified root is written back exactly as it was read |
| RootProperties.RootIdempotent | src/main.rs:244-304 | running the root rewrite again on its own output, in any key order, succeeds, changes nothing and reports nothing |
| RootProperties.AddMissingPresent | src/main.rs:282-285 | `or_insert_with` on names that are all present inserts nothing |
| RootProperties.CreatesWorkspaceTables | src/main.rs:258-286 | a root without `[workspace]` gains `[workspace]` and `[workspace.dependencies]`, the latter holding `serde = "1.0"`, and is reported modified |
| MemberManifest.RewriteAttributes | src/main.rs:384-421 | an inline or standard table entry loses `version`; `workspace` becomes true when absent or boolean, and a non-boolean value stays; every other key is unchanged |
| MemberManifest.UpdateAttributes | src/main.rs:384-421 | the in-place edit of an attribute table computes `RewriteAttributes`; `modified` is set only when `workspace` is inserted or flipped from false |
| MemberManifest.UpdateDependency | src/main.rs:375-429 | the edit of one common dependency's entry computes `RewriteItem` and its `modified` flag, shape by shape, recursing into arrays of tables |
| MemberManifest.UpdateDependenciesTable | src/main.rs:367-434 | visiting the common names in map order and editing each present entry by name equals the order-free rewrite `RewriteTable`; the flag is `TableChanged` |
| MemberManifest.FirstBadSectionCases | src/main.rs:319-353 | the sections are checked in the order dependencies, dev-dependencies, build-dependencies, and the first non-table one decides |
| MemberManifest.UpdateSection | src/main.rs:320-329 | one section block: it fails if and only if the section exists and is not a table; otherwise it rewrites that section in place and leaves every other entry as it was |
| MemberManifest.RewroteSectionKeeps | src/main.rs:320-353 | rewriting one section leaves the lookup, the entries and the change flag of every other key as they were |
| MemberManifest.ThreeSections | src/main.rs:319-353 | the three section rewrites in turn give the same document as rewriting every dependency section at once |
| MemberManifest.RewriteMemberCases | src/main.rs:317-364 | the member rewrite fails at the first bad section in visiting order; otherwise `modified` is whether any of the three sections changed |
| MemberManifest.UpdateMemberManifest | src/main.rs:317-364 | the member rewrite after parsing equals `RewriteMember` |
| MemberProperties.AttributesChangedIffWorkspaceWritten | src/main.rs:391-401 | `modified` is set for a table entry if and only if its `workspace` value ends up different from before |
| MemberProperties.AttributesIdempotent | src/main.rs:384-421 | a second rewrite of an attribute table changes nothing and sets no flag |
| MemberProperties.TableIdempotent | src/main.rs:367-434 | rewriting a rewritten dependencies table is the identity and reports no change |
| MemberProperties.ItemIdempotent | src/main.rs:375-429 | the same for one entry of any shape, including the marker that replaces a string |
| MemberProperties.TableLookup | src/main.rs:373-429 | after the rewrite a common name's entry is rewritten by its shape, other entries are untouched, and no key appears or disappears |
| MemberProperties.MemberErrors | src/main.rs:319-353 | a member manifest is refused if and only if one of the three sections exists and is not a table; the error names such a section and the manifest path |
| MemberProperties.SectionIdempotent | src/main.rs:319-353 | rewriting a section twice is rewriting it once; its key and table shape are kept, and the rewritten table reports no further change |
| MemberProperties.MemberRewriteShape | src/main.rs:319-353 | the rewritten document keeps which sections are bad, reports no section change, and is a fixed point of the section rewrite |
| MemberProperties.MemberIdempotent | src/main.rs:306-365 | running the member rewrite on its own output succeeds, changes nothing and reports the file as unmodified |
| MemberProperties.StringAndInlineExample | src/main.rs:376-402 | `foo = "1.0"` becomes `{ workspace = true }`; `bar = { version = "2.0", features = .. }` becomes `{ features = .., workspace = true }`; the table is reported modified |
| MemberProperties.VersionOnlyRemovalNotReported | src/main.rs:384-402 | with `workspace = true` already present, dropping `version` changes the entry but does not set `modified` |
| MemberProperties.ArrayElementsAreDependencyTables | src/main.rs:423-427 | each element of an array of tables is rewritten as a dependencies table, so an element's own `version` key is kept |
| Engine.FirstError | src/main.rs:184 | the position of the first failing member: all members before it succeed, and it fails unless it is the end |
| Engine.CountModified | src/main.rs:176-188 | `updated_count` never exceeds the number of members |
| Engine.CountModifiedIsCardinality | src/main.rs:176-188 | `updated_count` is the number of members whose rewrite succeeded and reported a modification |
| Engine.FirstErrorAt | src/main.rs:177-188 | the loop stops exactly at the first member whose outcome is an error |
| Engine.UpdateMember | src/main.rs:311-364 | one member: an unreadable file is an I/O error and an unparsable one a parse error, both naming the path; otherwise `RewriteMember` |
| Engine.Workspace.constructor | src/main.rs:129-155 | the workspace holds the members, their manifest paths, and the root and member manifest files |
| Engine.Workspace.UpdateMembers | src/main.rs:176-188 | members in order; only modified manifests are written back; stop at the first failure with its error, leaving later members untouched; otherwise return the count of modified members |
| Engine.Workspace.Run | src/main.rs:129-199 | compute the common set; if it is empty, return at once and touch nothing; otherwise rewrite the root first (any failure there touches no file, and success always writes the root back), then the members |

## Where the code does not do what it suggests

The model follows the code as written.

- **Representative.** The comment at src/main.rs:226 says that the first version
  occurrence will be used. The code at src/main.rs:223-229 records a requirement only
  once the count reaches the threshold. With the default threshold of 2 that is the
  second entry (`SecondEntryIsRepresentative`).
- **What is counted.** Entries are counted, not members. A member that lists a crate
  both as a normal and as a dev-dependency counts twice (`OneMemberTwoEntries`). The
  threshold is effectively `max(1, min)`. The command line rejects 0, but the scan
  itself would treat 0 like 1.
- **Git dependencies.** Only `path` entries are skipped (src/main.rs:220). A git
  dependency is counted like a registry one, and its requirement can become the plain
  version string pinned in the root (src/main.rs:284).
- **Sections visited.** Only the three top-level dependency tables are visited.
  Target-specific tables are not.
- **Unrecognised shapes.** An entry of any other shape is left as it is. No error is
  raised for a malformed declaration.
- **Arrays of tables.** Each element of an array of tables is treated as a dependency
  table of its own and searched for common names. It is not treated as a declaration
  (`ArrayElementsAreDependencyTables`).
- **Non-boolean `workspace`.** A non-boolean `workspace` value is kept, not forced to
  true.
- **Version-only removal.** Removing `version` alone does not mark the manifest
  modified, so that edit is not written (`VersionOnlyRemovalNotReported`).
- **Root manifest.**
  - The root is always written back after a successful rewrite, whether or not it was
    modified.
  - An inline `workspace = { .. }` counts as "not a table".
  - A non-table `workspace.dependencies` is only reported when there is a name to
    insert.
  - `run` ignores the root's `modified` flag.

## Left out

- **Cargo metadata.** Running `cargo metadata` is not modelled, and neither is looking
  up each workspace member's package (the `Metadata` error). The model starts from the
  members' dependency lists and manifest paths, in workspace order.
- **Output.** Command-line parsing, the `quiet` flag, all printed and coloured output,
  and the `Display` text of errors are not modelled. Errors carry only their message
  and path.
- **File I/O.** Reading and parsing a manifest become the three states of
  `ManifestFile`. A failed write is not modelled: writes always succeed and store the
  rewritten document.
- **TOML details.** Text formatting, comments and decoration are not modelled, and
  neither is the implicit flag on the inserted inline table. Values the rewrite never
  inspects (numbers, arrays, dates) are one `OtherValue`. `Item::None` is not modelled.
- **Unique keys.** Tables have unique keys, as TOML requires, so
  `UpdateDependenciesTable`, `UpdateMemberManifest` and `Run` require well-formed
  documents.
- **Integer widths.** `min_occurrences` (`u32`) and the counts (`usize`) are unbounded
  naturals. A wrap-around would need more than 2^64 dependency entries.
- **Stored requirement.** The common map keeps only the requirement of the chosen
  `Dependency`, the only field the rewrite reads. The root stores
  `info.req.to_string()` (src/main.rs:284), the semver requirement rendered as text.
  The model's requirement string stands for that rendered text; parsing and rendering
  semver requirements are not modelled.
- **Error path of the table rewrite.** `update_dependencies_table` is declared to
  return a `Result`, but it never produces an error, so the model returns the table and
  the flag directly.
- **Key order of root insertions.** The order in which new root entries are appended
  follows the map's order, which the model leaves open. The properties therefore speak
  of lookups and of the preserved prefix, not of the order of the new entries.
- RootProperties.RootLookup: stated only when `workspace.dependencies` is absent or a
  table. When it is not a table and there is no name to insert, the rewrite succeeds
  and leaves it as it is.
- RootProperties.RootUnchangedUnlessModified: stated for a non-empty common set only.
  With an empty set the rewrite may still create the two empty tables, but `run` never
  calls it then.
- Engine.Workspace.Run: assumes the root package is not itself a workspace member. The
  root manifest and the member manifests are separate state. In a workspace whose root
  is also a package, the member step re-reads the file the root step wrote
  (src/main.rs:184, 288, 311), so that file's final content is the member rewrite of
  the root rewrite. The model does not capture this aliasing.
