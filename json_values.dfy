/** JSON documents as the analyzer receives them (decoded request bodies), and
    the subset of JSON Schema used to describe their shape: the keywords
    `type`, `required`, `properties` and `items`. */
module JsonValues {
  import opened Wrappers

  /** A JSON value. An object holds at most one value per key, like a Python dict. */
  datatype Json =
    | JNull
    | JBool(b: bool)
    | JNumber(n: real)
    | JString(str: string)
    | JArray(elems: seq<Json>)
    | JObject(fields: map<string, Json>)

  /** The primitive types of JSON Schema's `type` keyword. */
  datatype JsonType = TNull | TBoolean | TNumber | TString | TArray | TObject

  function TypeOf(v: Json): JsonType
  {
    match v
    case JNull => TNull
    case JBool(_) => TBoolean
    case JNumber(_) => TNumber
    case JString(_) => TString
    case JArray(_) => TArray
    case JObject(_) => TObject
  }

  /** A schema node. An empty `types` means the keyword is absent (any type);
      `properties` lists (key, sub-schema) pairs; `items` is the schema every
      array element must meet, if given. No closed-properties keyword exists,
      so keys not listed in `properties` are never rejected. */
  datatype Shape = Shape(
    types: seq<JsonType>,
    required: seq<string>,
    properties: seq<(string, Shape)>,
    items: Option<Shape>)

  /** JSON Schema validation of `v` against `s`: `type` always applies,
      `required` and `properties` only to objects, `items` only to arrays. */
  predicate Conforms(v: Json, s: Shape)
    decreases s
  {
    && (|s.types| == 0 || TypeOf(v) in s.types)
    && (v.JObject? ==> forall k :: k in s.required ==> k in v.fields)
    && (v.JObject? ==>
          forall i :: 0 <= i < |s.properties| && s.properties[i].0 in v.fields ==>
            Conforms(v.fields[s.properties[i].0], s.properties[i].1))
    && (v.JArray? && s.items.Some? ==>
          forall j :: 0 <= j < |v.elems| ==> Conforms(v.elems[j], s.items.value))
  }
}
