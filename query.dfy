/**
 * Reading the `pdf_url` parameter of the request's raw query string
 * (`url.ParseQuery` followed by `extractRawPdfUrl`).
 *
 * The raw query is taken as already split at `&` and `=` and percent-decoded: each
 * segment is a `Field`, or `Malformed` when its decoding failed.
 */
module Query {
  import opened Wrappers

  const PdfUrlKey: string := "pdf_url"

  datatype Field = Field(key: string, value: string) | Malformed

  /** A parsed query: every key with its values in order of appearance. */
  type Values = map<string, seq<string>>

  /**
   * `url.ParseQuery`: the values of each key in query order; None stands for the
   * error it returns when any segment failed to decode.
   */
  function ParseQuery(fields: seq<Field>): (r: Option<Values>)
    ensures r.None? <==> Malformed in fields
  {
    if Malformed in fields then None else Some(Collect(map[], fields))
  }

  /** A well-formed query maps each key to exactly its values, in query order. */
  lemma ParseQueryValues(fields: seq<Field>, key: string)
    requires Malformed !in fields
    ensures key in ParseQuery(fields).value <==> ValuesOf(fields, key) != []
    ensures key in ParseQuery(fields).value ==> ParseQuery(fields).value[key] == ValuesOf(fields, key)
  {
    CollectValues(map[], fields, key);
  }

  /** Appends the value of each field to the list of its key, front to back. */
  function Collect(m: Values, fields: seq<Field>): Values
    decreases |fields|
  {
    if fields == [] then m else Collect(Add(m, fields[0]), fields[1..])
  }

  function Add(m: Values, f: Field): Values
  {
    match f
    case Malformed => m
    case Field(k, v) => m[k := (if k in m then m[k] else []) + [v]]
  }

  /** Reference definition: the values given for `key`, in order of appearance. */
  function ValuesOf(fields: seq<Field>, key: string): seq<string>
    decreases |fields|
  {
    if fields == [] then []
    else (if fields[0].Field? && fields[0].key == key then [fields[0].value] else []) + ValuesOf(fields[1..], key)
  }

  lemma {:induction false} CollectValues(m: Values, fields: seq<Field>, key: string)
    ensures key in Collect(m, fields) <==> key in m || ValuesOf(fields, key) != []
    ensures key in Collect(m, fields) ==>
      Collect(m, fields)[key] == (if key in m then m[key] else []) + ValuesOf(fields, key)
    decreases |fields|
  {
    if fields != [] {
      CollectValues(Add(m, fields[0]), fields[1..], key);
    }
  }

  lemma {:induction false} ValuesOfFirst(fields: seq<Field>, key: string, i: nat)
    requires i < |fields| && fields[i].Field? && fields[i].key == key
    requires forall j :: 0 <= j < i ==> !(fields[j].Field? && fields[j].key == key)
    ensures ValuesOf(fields, key) != [] && ValuesOf(fields, key)[0] == fields[i].value
    decreases i
  {
    if i > 0 {
      ValuesOfFirst(fields[1..], key, i - 1);
    }
  }

  lemma {:induction false} ValuesOfNone(fields: seq<Field>, key: string)
    requires forall j :: 0 <= j < |fields| ==> !(fields[j].Field? && fields[j].key == key)
    ensures ValuesOf(fields, key) == []
    decreases |fields|
  {
    if fields != [] {
      ValuesOfNone(fields[1..], key);
    }
  }

  /**
   * `extractRawPdfUrl`: the first value of `pdf_url`, or "" when parsing failed or the key
   * has no value. An empty first value (`pdf_url=`) also gives "".
   */
  function ExtractRawPdfUrl(parsed: Option<Values>): (url: string)
    ensures url != "" ==> parsed.Some? && PdfUrlKey in parsed.value && parsed.value[PdfUrlKey] != []
    ensures parsed.None? || PdfUrlKey !in parsed.value ==> url == ""
    ensures parsed.Some? && PdfUrlKey in parsed.value && parsed.value[PdfUrlKey] != [] ==>
      url == parsed.value[PdfUrlKey][0]
  {
    match parsed
    case None => ""
    case Some(params) =>
      if PdfUrlKey in params && |params[PdfUrlKey]| > 0 then params[PdfUrlKey][0] else ""
  }

  /** The URL the handler uses is the value of the first `pdf_url` field of a well-formed query. */
  lemma FirstPdfUrlWins(fields: seq<Field>, i: nat)
    requires Malformed !in fields
    requires i < |fields| && fields[i].Field? && fields[i].key == PdfUrlKey
    requires forall j :: 0 <= j < i ==> fields[j].key != PdfUrlKey
    ensures ExtractRawPdfUrl(ParseQuery(fields)) == fields[i].value
  {
    ValuesOfFirst(fields, PdfUrlKey, i);
    CollectValues(map[], fields, PdfUrlKey);
  }

  /** A query with a malformed segment, or without any `pdf_url` field, yields no URL. */
  lemma NoPdfUrl(fields: seq<Field>)
    requires Malformed in fields || forall j :: 0 <= j < |fields| ==> fields[j].key != PdfUrlKey
    ensures ExtractRawPdfUrl(ParseQuery(fields)) == ""
  {
    if Malformed !in fields {
      ValuesOfNone(fields, PdfUrlKey);
      CollectValues(map[], fields, PdfUrlKey);
    }
  }
}
