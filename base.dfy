/** Results, errors and the iteration order of the common-dependency map. */
module Base {

  datatype Option<+T> = None | Some(value: T)

  /** The failures the engine reports; the message strings are those of the source.
      `cargo metadata` failures are not part of this model. */
  datatype Error =
    | Io(path: string)                          // a manifest could not be read
    | TomlParse(path: string)                   // a manifest is not valid TOML
    | WorkspaceUpdate(message: string)          // the root manifest has the wrong shape
    | MemberUpdate(message: string, path: string) // a member manifest has the wrong shape

  datatype Result<+T> = Ok(value: T) | Err(error: Error)

  /** `order` enumerates the keys of `common` exactly once each: the order in which a
      `HashMap` hands out its keys, which the program does not fix. */
  predicate IsKeyOrder(order: seq<string>, common: map<string, string>)
  {
    && (forall i | 0 <= i < |order| :: order[i] in common)
    && (forall name | name in common :: name in order)
    && (forall i, j | 0 <= i < j < |order| :: order[i] != order[j])
  }

  /** A key order is empty exactly when the map is. */
  lemma KeyOrderEmpty(order: seq<string>, common: map<string, string>)
    requires IsKeyOrder(order, common)
    ensures order == [] <==> common == map[]
  {
    if |order| > 0 {
      assert order[0] in common;
    }
  }

  /** Some enumeration of the keys of `common`; which one is left open, as for a `HashMap`. */
  method KeyOrder(common: map<string, string>) returns (order: seq<string>)
    ensures IsKeyOrder(order, common)
  {
    order := [];
    var rest := common.Keys;
    while rest != {}
      invariant rest <= common.Keys
      invariant forall i | 0 <= i < |order| :: order[i] in common && order[i] !in rest
      invariant forall name | name in common :: name in rest || name in order
      invariant forall i, j | 0 <= i < j < |order| :: order[i] != order[j]
      decreases |rest|
    {
      var name :| name in rest;
      order := order + [name];
      rest := rest - {name};
    }
  }
}
