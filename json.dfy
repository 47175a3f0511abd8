/**
 * The JSON values (`serde_json::Value`) that readers attach to the text they
 * deliver as metadata, and the two operations every reader performs on them.
 */
module Json {
  import opened Wrappers

  datatype Json =
    | Null
    | Bool(b: bool)
    | Num(n: int)
    | Str(s: string)
    | Arr(items: seq<Json>)
    | Obj(fields: map<string, Json>)

  /** The object `{key: value}`. */
  function Singleton(key: string, value: Json): Json
  {
    Obj(map[key := value])
  }

  /**
   * Sets `key` to `value` in an object, or replaces a non-object by the
   * object holding only that key (`update_metadata` / `update_meta`).
   */
  function Insert(meta: Json, key: string, value: Json): (r: Json)
    ensures r.Obj? && key in r.fields && r.fields[key] == value
    ensures meta.Obj? ==> r.fields.Keys == meta.fields.Keys + {key}
    ensures meta.Obj? ==> forall k :: k in meta.fields && k != key ==> r.fields[k] == meta.fields[k]
    ensures !meta.Obj? ==> r.fields.Keys == {key}
  {
    if meta.Obj? then Obj(meta.fields[key := value]) else Singleton(key, value)
  }

  /**
   * Normalises the metadata a reader is built with: nothing or `null` becomes
   * `null`, an object is kept as is, any other value is wrapped as `{key: v}`.
   */
  function NormalizeInitial(initial: Option<Json>, key: string): (r: Json)
    ensures r.Null? || r.Obj?
    ensures r.Null? <==> (initial.None? || initial.value.Null?)
    ensures initial.Some? && initial.value.Obj? ==> r == initial.value
    ensures initial.Some? && !initial.value.Null? && !initial.value.Obj? ==>
              r.fields.Keys == {key} && r.fields[key] == initial.value
  {
    match initial
    case None => Null
    case Some(v) =>
      if v.Null? then Null
      else if v.Obj? then v
      else Singleton(key, v)
  }
}
