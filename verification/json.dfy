/** Values produced by `JSON.parse`, the few JavaScript operations the tree
    editor performs on them, and the tree they form through `children` arrays. */
module JsonValues {

  datatype Option<+T> = None | Some(value: T)

  /** A parsed JSON value. A number is held as the exact real its text
      denotes; where `JSON.parse` yields a double instead (rounded, or
      Infinity for a literal such as 1e400), truthiness, which is all the
      editor asks of a number, is the same, except for a nonzero literal
      that underflows to 0.
      An object is a map from keys to values: the order of its keys is not kept. */
  datatype Json =
    | Null
    | Bool(b: bool)
    | Num(n: real)
    | Str(s: string)
    | Arr(items: seq<Json>)
    | Obj(fields: map<string, Json>)

  /** The property read `v.key` on a value that is not null, for the keys the
      editor reads (`name`, `children`), which no prototype of a JSON value
      defines: an own field of an object, and otherwise undefined (None). */
  function Get(v: Json, key: string): Option<Json>
  {
    if v.Obj? && key in v.fields then Some(v.fields[key]) else None
  }

  /** JavaScript truthiness of the result of a property read (undefined is None). */
  predicate Truthy(x: Option<Json>)
    ensures Truthy(x) ==> x.Some? && !x.value.Null?
    ensures x.Some? && (x.value.Arr? || x.value.Obj?) ==> Truthy(x)
  {
    match x
    case None => false
    case Some(Null) => false
    case Some(Bool(b)) => b
    case Some(Num(n)) => n != 0.0
    case Some(Str(s)) => s != ""
    case Some(Arr(_)) => true
    case Some(Obj(_)) => true
  }

  /** The guard `data && typeof data === 'object'`: null is falsy, arrays and
      objects pass. */
  predicate IsObject(v: Json)
    ensures IsObject(v) ==> Truthy(Some(v)) && !v.Null?
  {
    v.Arr? || v.Obj?
  }

  /** The children a node has in the tree: its `children` array, or none when
      that field is absent or not an array. */
  function ChildList(v: Json): seq<Json>
  {
    if v.Obj? && "children" in v.fields && v.fields["children"].Arr? then v.fields["children"].items else []
  }

  /** `p` is a sequence of child indices leading from `v` to one of its nodes. */
  predicate IsPath(v: Json, p: seq<nat>)
    decreases p
  {
    p == [] || (p[0] < |ChildList(v)| && IsPath(ChildList(v)[p[0]], p[1..]))
  }

  /** The node that path `p` leads to. */
  function NodeAt(v: Json, p: seq<nat>): Json
    requires IsPath(v, p)
    decreases p
  {
    if p == [] then v else NodeAt(ChildList(v)[p[0]], p[1..])
  }

  /** The fields of a node other than `children`. */
  function OwnFields(v: Json): map<string, Json>
  {
    if v.Obj? then v.fields - {"children"} else map[]
  }
}
