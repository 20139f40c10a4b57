/** JSON-compatible values: what YAML files, Kubernetes objects and secrets hold. */
module JsonTree {
  import opened Wrappers

  datatype Json =
    | Null
    | Bool(b: bool)
    | Int(i: int)
    | Float(f: real)
    | Str(s: string)
    | List(items: seq<Json>)
    | Dict(entries: map<string, Json>)

  /** The value under a path of dict keys. */
  function At(j: Json, path: seq<string>): Option<Json>
    decreases |path|
  {
    if path == [] then Some(j)
    else if j.Dict? && path[0] in j.entries then At(j.entries[path[0]], path[1..])
    else None
  }
}
