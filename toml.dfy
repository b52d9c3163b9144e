/** The parsed TOML document, as the format-preserving editor exposes it: tables are
    ordered key/value lists; inserting a new key appends it, assigning an existing key
    replaces its value in place, and removing a key keeps the order of the others. */
module Toml {
  import opened Base

  datatype Item =
    | Str(s: string)                  // a string value: `foo = "1.0"`
    | Bool(b: bool)                   // a boolean value: `workspace = true`
    | InlineTable(t: Table)           // `{ version = "1.0", features = [..] }`
    | StandardTable(t: Table)         // a `[header]` table
    | ArrayOfTables(ts: seq<Table>)   // `[[header]]` tables
    | OtherValue                      // numbers, arrays, dates: never inspected

  datatype Entry = Entry(key: string, value: Item)

  datatype Table = Table(entries: seq<Entry>)

  /** The key of the root's `[workspace]` table and of a member entry's inheritance flag. */
  const WorkspaceKey := "workspace"

  /** Position of the first entry named `key`, or -1. */
  function IndexOf(entries: seq<Entry>, key: string): (r: int)
    ensures -1 <= r < |entries|
    ensures 0 <= r ==> entries[r].key == key
    ensures forall j | 0 <= j < |entries| && (r < 0 || j < r) :: entries[j].key != key
  {
    if |entries| == 0 then -1
    else if entries[0].key == key then 0
    else
      var r := IndexOf(entries[1..], key);
      if r < 0 then -1 else r + 1
  }

  predicate Has(t: Table, key: string)
  {
    0 <= IndexOf(t.entries, key)
  }

  function Get(t: Table, key: string): (r: Option<Item>)
    ensures r.Some? <==> Has(t, key)
  {
    var i := IndexOf(t.entries, key);
    if i < 0 then None else Some(t.entries[i].value)
  }

  /** `table[key] = value`: replaces the value in place, or appends a new entry. */
  function Set(t: Table, key: string, value: Item): (r: Table)
    ensures Get(r, key) == Some(value)
    ensures forall k | k != key :: Get(r, k) == Get(t, k)
    ensures Has(t, key) ==> |r.entries| == |t.entries|
    ensures Has(t, key) ==> forall j | 0 <= j < |t.entries| ::
      r.entries[j] == if t.entries[j].key == key && j == IndexOf(t.entries, key) then Entry(key, value) else t.entries[j]
    ensures !Has(t, key) ==> r.entries == t.entries + [Entry(key, value)]
  {
    var i := IndexOf(t.entries, key);
    if i < 0 then
      IndexOfAppend(t.entries, Entry(key, value));
      Table(t.entries + [Entry(key, value)])
    else
      IndexOfReplace(t.entries, i, value);
      Table(t.entries[i := Entry(key, value)])
  }

  /** Any position with the defining property of `IndexOf` is the one it returns. */
  lemma IndexOfIs(entries: seq<Entry>, key: string, r: int)
    requires -1 <= r < |entries|
    requires 0 <= r ==> entries[r].key == key
    requires forall j | 0 <= j < |entries| && (r < 0 || j < r) :: entries[j].key != key
    ensures IndexOf(entries, key) == r
  {
  }

  lemma IndexOfAppend(entries: seq<Entry>, e: Entry)
    requires IndexOf(entries, e.key) < 0
    ensures IndexOf(entries + [e], e.key) == |entries|
    ensures forall k | k != e.key :: IndexOf(entries + [e], k) == IndexOf(entries, k)
  {
    var s := entries + [e];
    IndexOfIs(s, e.key, |entries|);
    forall k | k != e.key
      ensures IndexOf(s, k) == IndexOf(entries, k)
    {
      IndexOfIs(s, k, IndexOf(entries, k));
    }
  }

  lemma IndexOfReplace(entries: seq<Entry>, i: int, value: Item)
    requires 0 <= i < |entries| && IndexOf(entries, entries[i].key) == i
    ensures IndexOf(entries[i := Entry(entries[i].key, value)], entries[i].key) == i
    ensures forall k | k != entries[i].key ::
      IndexOf(entries[i := Entry(entries[i].key, value)], k) == IndexOf(entries, k)
  {
    var key := entries[i].key;
    var s := entries[i := Entry(key, value)];
    IndexOfIs(s, key, i);
    forall k | k != key
      ensures IndexOf(s, k) == IndexOf(entries, k)
    {
      IndexOfIs(s, k, IndexOf(entries, k));
    }
  }

  function Without(entries: seq<Entry>, key: string): (r: seq<Entry>)
    ensures forall j | 0 <= j < |r| :: r[j].key != key
    ensures IndexOf(entries, key) < 0 ==> r == entries
  {
    if |entries| == 0 then []
    else if entries[0].key == key then Without(entries[1..], key)
    else [entries[0]] + Without(entries[1..], key)
  }

  /** Dropping `key` leaves the lookup of every other key as it was. */
  lemma {:induction false} WithoutLookup(entries: seq<Entry>, key: string, k: string)
    requires k != key
    ensures var r := Without(entries, key);
      && (IndexOf(r, k) < 0 <==> IndexOf(entries, k) < 0)
      && (0 <= IndexOf(r, k) ==> r[IndexOf(r, k)] == entries[IndexOf(entries, k)])
  {
    if |entries| > 0 {
      WithoutLookup(entries[1..], key, k);
    }
  }

  /** `table.remove(key)`: drops the entry, the others keep their order. */
  function Remove(t: Table, key: string): (r: Table)
    ensures !Has(r, key)
    ensures forall k | k != key :: Get(r, k) == Get(t, k)
    ensures !Has(t, key) ==> r == t
  {
    var r := Table(Without(t.entries, key));
    assert forall k | k != key :: Get(r, k) == Get(t, k) by {
      forall k | k != key ensures Get(r, k) == Get(t, k) {
        WithoutLookup(t.entries, key, k);
      }
    }
    r
  }

  /** Assigning a key the value it already holds changes nothing. */
  lemma SetSame(t: Table, key: string, value: Item)
    requires Get(t, key) == Some(value)
    ensures Set(t, key, value) == t
  {
    var i := IndexOf(t.entries, key);
    assert t.entries[i] == Entry(key, value);
    assert t.entries[i := Entry(key, value)] == t.entries;
  }

  /** Keys are unique in every table of a parsed document (TOML rejects duplicates). */
  predicate UniqueKeys(t: Table)
  {
    forall i, j | 0 <= i < j < |t.entries| :: t.entries[i].key != t.entries[j].key
  }

  predicate WellFormedTable(t: Table)
    decreases t
  {
    && UniqueKeys(t)
    && forall i | 0 <= i < |t.entries| :: WellFormedItem(t.entries[i].value)
  }

  predicate WellFormedItem(item: Item)
    decreases item
  {
    match item
    case InlineTable(t) => WellFormedTable(t)
    case StandardTable(t) => WellFormedTable(t)
    case ArrayOfTables(ts) => forall k | 0 <= k < |ts| :: WellFormedTable(ts[k])
    case _ => true
  }
}
