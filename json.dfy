/** JSON values as the `json` library hands them to the message layer, and the
    wire text they are read from and written to.

    The grammar of JSON text is not modelled: a piece of wire text is either the
    serialisation of some JSON value or malformed. `Parse` is the partial
    `JSON.parse`, `ToJson` the total `to_json`, and the two are inverse. Two
    spellings of the same value are identified. */
module Json {

  datatype Option<+T> = None | Some(value: T)

  /** A JSON value. Objects are maps from member name to value; Ruby's `nil`
      is `Null`. */
  datatype Json =
    | Null
    | Bool(b: bool)
    | Int(n: int)
    | Str(s: string)
    | Array(elems: seq<Json>)
    | Object(members: map<string, Json>)

  /** Wire text: the serialisation of a value, or text the parser rejects. */
  datatype Text = Wellformed(doc: Json) | Malformed(raw: string)

  /** `JSON.parse`: fails exactly on malformed text. */
  function Parse(t: Text): (r: Option<Json>)
    ensures r.None? <==> t.Malformed?
  {
    match t
    case Wellformed(j) => Some(j)
    case Malformed(_) => None
  }

  /** `to_json`: total, and parsing its output gives the value back. */
  function ToJson(j: Json): (t: Text)
    ensures Parse(t) == Some(j)
  {
    Wellformed(j)
  }

  /** Parse and ToJson are inverse in both directions. */
  lemma ParseInvertsToJson(t: Text, j: Json)
    ensures Parse(t) == Some(j) <==> t == ToJson(j)
  {
  }

  /** True when the text parses to a JSON object; the object's members are then
      `Members(t)`. */
  predicate IsObjectText(t: Text) {
    Parse(t).Some? && Parse(t).value.Object?
  }

  function Members(t: Text): map<string, Json>
    requires IsObjectText(t)
  {
    Parse(t).value.members
  }

  /** Ruby's `Hash#[]` on a parsed object: the member, or `nil` when absent. */
  function Get(m: map<string, Json>, k: string): (v: Json)
    ensures k in m ==> v == m[k]
    ensures k !in m ==> v == Null
  {
    if k in m then m[k] else Null
  }
}
