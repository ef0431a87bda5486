/** The part of Jackson's `JsonNode` the core reads: field lookup, the lenient
    `asText`/`asBoolean`/`asInt` coercions, element iteration, and the
    single-element unwrapping `Json.requireFirstChild`. */
module Json {
  import opened Wrappers
  import opened JavaInt
  import opened Exceptions

  datatype Json =
    | JNull
    | JBool(b: bool)
    | JNum(n: int)
    | JStr(s: string)
    | JArr(items: seq<Json>)
    | JObj(fields: map<string, Json>)

  /** `node.get(name)`: a field of an object; `null` (here `None`) for any other node. */
  function Get(node: Json, name: string): (r: Option<Json>)
    ensures r.Some? <==> node.JObj? && name in node.fields
  {
    if node.JObj? && name in node.fields then Some(node.fields[name]) else None
  }

  predicate Has(node: Json, name: string) {
    Get(node, name).Some?
  }

  /** `String.trim`: drops leading and trailing characters up to U+0020. */
  function Trim(s: string): (t: string)
    ensures |t| <= |s|
    decreases |s|
  {
    if |s| > 0 && s[0] <= ' ' then Trim(s[1..])
    else if |s| > 0 && s[|s| - 1] <= ' ' then Trim(s[..|s| - 1])
    else s
  }

  function AsText(node: Json): string {
    match node
    case JNull => "null"
    case JBool(b) => if b then "true" else "false"
    case JNum(n) => ToDecimal(n)
    case JStr(s) => s
    case JArr(_) => ""
    case JObj(_) => ""
  }

  function AsBoolean(node: Json): bool {
    match node
    case JBool(b) => b
    case JNum(n) => n != 0
    case JStr(s) => Trim(s) == "true"
    case _ => false
  }

  function AsInt(node: Json): (v: int)
    ensures IsInt32(v)
  {
    match node
    case JNum(n) => Wrap32(n)
    case JBool(b) => if b then 1 else 0
    case JStr(s) => (var p := ParseInt(Trim(s)); if p.Some? then p.value else 0)
    case _ => 0
  }

  /** The coercions the core relies on: `asText` of a string is the string
      and of a number its decimal form; `asBoolean` holds for `true`, for a
      non-zero number and for the text "true" between blanks; `asInt` reads
      an int back from its decimal text; `has` finds exactly the fields. */
  lemma Coercions(s: string, n: int)
    ensures AsText(JStr(s)) == s && AsText(JNum(n)) == ToDecimal(n)
    ensures AsBoolean(JBool(true)) && !AsBoolean(JBool(false)) && !AsBoolean(JNull)
    ensures AsBoolean(JNum(n)) <==> n != 0
    ensures AsBoolean(JStr(" true ")) && !AsBoolean(JStr("yes"))
    ensures IsInt32(n) ==> AsInt(JNum(n)) == n && AsInt(JStr(ToDecimal(n))) == n
    ensures Has(JObj(map["ID" := JStr(s)]), "ID") && !Has(JObj(map[]), "ID") && !Has(JArr([JStr(s)]), "ID")
  {
    assert Trim(" true ") == Trim("true ") == Trim("true") == "true";
    var t := ToDecimal(n);
    var m := if n < 0 then -n else n;
    DigitsAreDigits(m);
    assert IsDigit(t[|t| - 1]) by {
      assert t[|t| - 1] == Digits(m)[|Digits(m)| - 1];
    }
    assert t[0] == '-' || IsDigit(t[0]) by {
      if n >= 0 {
        assert t[0] == Digits(m)[0];
      }
    }
    assert Trim(t) == t;
    if IsInt32(n) {
      ParseIntOfDecimal(n);
    }
  }

  /** The nodes a `for (JsonNode n : node)` loop visits over an array. */
  function Elements(node: Json): seq<Json> {
    if node.JArr? then node.items else []
  }

  /** `Json.requireFirstChild`: the only element of a one-element array. */
  function RequireFirstChild(node: Json): (r: Result<Json, Exc>)
    ensures r.Success? <==> node.JArr? && |node.items| == 1
    ensures r.Success? ==> node == JArr([r.value])
    ensures !node.JArr? ==> r == Failure(Exc(IllegalStateClass, "Expecting an array of values"))
    ensures node.JArr? && |node.items| != 1 ==> r.Failure? && r.error.cls == IndexOutOfBoundsClass
  {
    if !node.JArr? then Failure(Exc(IllegalStateClass, "Expecting an array of values"))
    else if |node.items| == 0 then Failure(Exc(IndexOutOfBoundsClass, "No values returned"))
    else if |node.items| > 1 then
      Failure(Exc(IndexOutOfBoundsClass, "Multiple values returned: " + ToDecimal(|node.items|)))
    else Success(node.items[0])
  }
}
