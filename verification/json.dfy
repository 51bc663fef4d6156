/** JSON values as the JavaScript code sees them after `JSON.parse`, with the
    two conversions the code applies to them: truthiness (`if (x)`) and
    `String(x)`. Numbers are integers in this model. */
module Json {
  import opened Wrappers

  datatype Json =
    | JNull
    | JBool(b: bool)
    | JNum(n: int)
    | JStr(s: string)
    | JArr(items: seq<Json>)
    | JObj(fields: map<string, Json>)

  /** JavaScript truthiness: `null`, `false`, `0` and `""` are falsy. */
  predicate Truthy(j: Json) {
    match j
    case JNull => false
    case JBool(b) => b
    case JNum(n) => n != 0
    case JStr(s) => s != ""
    case JArr(_) => true
    case JObj(_) => true
  }

  /** Truthiness of a property that may be missing (`undefined` is falsy). */
  predicate TruthyField(o: Option<Json>) {
    o.Some? && Truthy(o.value)
  }

  /** `j?.key`: the property of an object, `undefined` for anything else. */
  function Field(j: Json, key: string): (r: Option<Json>)
    ensures r.Some? <==> j.JObj? && key in j.fields
  {
    if j.JObj? && key in j.fields then Some(j.fields[key]) else None
  }

  /** Decimal rendering of a natural number. */
  function NatToString(n: nat): (r: string)
    ensures |r| >= 1
    ensures forall k :: 0 <= k < |r| ==> '0' <= r[k] <= '9'
  {
    var d := ['0' + (n % 10) as char];
    if n < 10 then d else NatToString(n / 10) + d
  }

  /** `String(j)`: strings are themselves, arrays are joined with commas (with
      `null` elements as empty text), plain objects print as `[object Object]`. */
  function ToJsString(j: Json): (r: string)
    ensures j.JStr? ==> r == j.s
    decreases j, 1
  {
    match j
    case JNull => "null"
    case JBool(b) => if b then "true" else "false"
    case JNum(n) => if n < 0 then "-" + NatToString(-n) else NatToString(n)
    case JStr(s) => s
    case JArr(items) => JoinElements(items)
    case JObj(_) => "[object Object]"
  }

  /** `Array.prototype.join(',')` over already parsed elements. */
  function JoinElements(items: seq<Json>): string
    decreases items, 0
  {
    if items == [] then ""
    else
      var head := if items[0].JNull? then "" else ToJsString(items[0]);
      if |items| == 1 then head else head + "," + JoinElements(items[1..])
  }
}
