/**
 * Rendering schema-validation failures as text (ephox.boulder.format.PrettyPrinter).
 */
module PrettyPrinter {

  /** One validation failure: the field path to the offending value, and what went wrong. */
  datatype SchemaError = SchemaError(path: seq<string>, errorInfo: string)

  /** A JavaScript value as handed to `formatObj`. */
  datatype JsValue =
    | JsNull
    | JsUndefined
    | JsBool(b: bool)
    | JsNumber(n: real)
    | JsString(s: string)
    | JsArray(items: seq<JsValue>)
    | JsObject(fields: map<string, JsValue>)

  /** How many failures are shown before the rest are elided. */
  const MaxShown: nat := 10

  /** Objects with more keys than this are not serialised. */
  const MaxKeys: nat := 100

  /** The entry appended in place of the failures that are not shown. */
  const Truncated: SchemaError := SchemaError([], "... (only showing first ten failures)")

  /** `Type.isObject`: true of objects only, not of arrays or null. */
  function IsObject(input: JsValue): (b: bool)
    ensures b <==> !(input.JsNull? || input.JsUndefined? || input.JsBool? || input.JsNumber? || input.JsString? || input.JsArray?)
  {
    input.JsObject?
  }

  /**
   * `formatObj(input)`: a placeholder for an object with more than a hundred
   * keys, otherwise the serialiser's output (`Json.stringify(input, null, 2)`,
   * passed in as `stringify`).
   */
  function FormatObj(input: JsValue, stringify: JsValue -> string): (r: string)
    ensures input.JsObject? && |input.fields| > 100 ==> r == " removed due to size"
    ensures !(input.JsObject? && |input.fields| > 100) ==> r == stringify(input)
  {
    if IsObject(input) && |input.fields.Keys| > MaxKeys then " removed due to size" else stringify(input)
  }

  /** `parts.join(sep)`. */
  function Join(parts: seq<string>, sep: string): (r: string)
    ensures parts == [] ==> r == ""
    ensures |parts| == 1 ==> r == parts[0]
  {
    if parts == [] then ""
    else if |parts| == 1 then parts[0]
    else parts[0] + sep + Join(parts[1..], sep)
  }

  /** Joining two non-empty lists puts one separator between the two joined halves. */
  lemma {:induction false} JoinAppend(a: seq<string>, b: seq<string>, sep: string)
    requires a != [] && b != []
    ensures Join(a + b, sep) == Join(a, sep) + sep + Join(b, sep)
  {
    if |a| == 1 {
      assert (a + b)[1..] == b;
    } else {
      assert (a + b)[1..] == a[1..] + b;
      JoinAppend(a[1..], b, sep);
    }
  }

  /** The text for one failure: `Failed path: (a > b)` on one line, the details on the next. */
  function FormatError(e: SchemaError): (r: string)
    ensures "Failed path: (" <= r
    ensures |r| == 16 + |Join(e.path, " > ")| + |e.errorInfo|
    ensures r[14..14 + |Join(e.path, " > ")|] == Join(e.path, " > ")
    ensures r[14 + |Join(e.path, " > ")|..16 + |Join(e.path, " > ")|] == ")\n"
    ensures r[|r| - |e.errorInfo|..] == e.errorInfo
  {
    "Failed path: (" + Join(e.path, " > ") + ")\n" + e.errorInfo
  }

  /** An error with an empty path renders as `Failed path: ()`, a newline and its details. */
  lemma EmptyPathRendering(info: string)
    ensures FormatError(SchemaError([], info)) == "Failed path: ()\n" + info
  {
    assert Join([], " > ") == "";
    assert "Failed path: (" + "" + ")\n" == "Failed path: ()\n";
  }

  /** `Arr.map(es, formatError)`. */
  function FormatAll(es: seq<SchemaError>): (r: seq<string>)
    ensures |r| == |es|
    ensures forall i :: 0 <= i < |es| ==> r[i] == FormatError(es[i])
  {
    if es == [] then [] else [FormatError(es[0])] + FormatAll(es[1..])
  }

  /**
   * `formatErrors(errors)`: at most ten failures are rendered; beyond that the
   * first ten are followed by the truncation notice.
   */
  function FormatErrors(errors: seq<SchemaError>): (r: seq<string>)
    ensures |errors| <= 10 ==> |r| == |errors|
    ensures |errors| > 10 ==> |r| == 11
    ensures forall i :: 0 <= i < |errors| && i < 10 ==> r[i] == FormatError(errors[i])
    ensures |errors| > 10 ==> r[10] == "Failed path: ()\n" + "... (only showing first ten failures)"
  {
    var es := if |errors| > MaxShown then errors[..MaxShown] + [Truncated] else errors;
    EmptyPathRendering(Truncated.errorInfo);
    FormatAll(es)
  }
}
