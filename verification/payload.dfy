/** The request body of `POST /api/notes/export` and the check that admits it
    (src/index.js:40-49). */
module Payload {
  import opened Outcome

  /** A parsed JSON value, as the JSON body parser hands it to the handler. An object is
      the map of its own fields (a repeated key keeps its last value). */
  datatype Json =
    | JNull
    | JBool(b: bool)
    | JNumber(n: real)
    | JString(s: string)
    | JArray(items: seq<Json>)
    | JObject(fields: map<string, Json>)

  /** The answers JavaScript's `typeof` gives for a JSON value or for `undefined`. */
  datatype JsType = TUndefined | TObject | TNumber | TString | TBoolean

  /** `typeof v`, with `None` standing for `undefined`. `typeof null` is "object". */
  function TypeOf(v: Option<Json>): JsType
  {
    match v
    case None => TUndefined
    case Some(JNull) => TObject
    case Some(JBool(_)) => TBoolean
    case Some(JNumber(_)) => TNumber
    case Some(JString(_)) => TString
    case Some(JArray(_)) => TObject
    case Some(JObject(_)) => TObject
  }

  /** JavaScript truthiness: `null`, `false`, `0` and `""` are falsy. */
  predicate Truthy(j: Json)
  {
    match j
    case JNull => false
    case JBool(b) => b
    case JNumber(n) => n != 0.0
    case JString(s) => s != ""
    case JArray(_) => true
    case JObject(_) => true
  }

  /** `j.key` for the five keys the handler reads: only an object's own field answers;
      arrays, strings, numbers and booleans have no property of those names. */
  function Member(j: Json, key: string): Option<Json>
  {
    if j.JObject? && key in j.fields then Some(j.fields[key]) else None
  }

  /** The handler's rejection guard, disjunct by disjunct and short-circuiting left to
      right as JavaScript does (so `null` is refused before any member is read). */
  predicate Rejected(p: Json)
  {
    || !Truthy(p)
    || TypeOf(Some(p)) != TObject
    || TypeOf(Member(p, "version")) != TNumber
    || TypeOf(Member(p, "salt")) != TString
    || TypeOf(Member(p, "iv")) != TString
    || TypeOf(Member(p, "ciphertext")) != TString
    || TypeOf(Member(p, "nodeName")) != TString
  }

  /** The bundle shape, said directly: an object with a numeric `version` and string
      `salt`, `iv`, `ciphertext` and `nodeName`; any other fields are allowed. */
  ghost predicate WellFormed(p: Json)
  {
    && p.JObject?
    && "version" in p.fields && p.fields["version"].JNumber?
    && "salt" in p.fields && p.fields["salt"].JString?
    && "iv" in p.fields && p.fields["iv"].JString?
    && "ciphertext" in p.fields && p.fields["ciphertext"].JString?
    && "nodeName" in p.fields && p.fields["nodeName"].JString?
  }

  /** One encrypted note bundle; the server never looks inside its ciphertext. */
  datatype Bundle = Bundle(version: real, salt: string, iv: string, ciphertext: string, nodeName: string)

  datatype ExportError = InvalidPayload

  /** The body as a bundle, or the 400 "Invalid payload." outcome. */
  function ParseBundle(p: Json): (r: Result<Bundle, ExportError>)
    ensures r.Err? <==> !WellFormed(p)
    ensures r.Ok? ==> && p.fields["version"] == JNumber(r.value.version)
                      && p.fields["salt"] == JString(r.value.salt)
                      && p.fields["iv"] == JString(r.value.iv)
                      && p.fields["ciphertext"] == JString(r.value.ciphertext)
                      && p.fields["nodeName"] == JString(r.value.nodeName)
  {
    if Rejected(p) then
      Err(InvalidPayload)
    else
      Ok(Bundle(p.fields["version"].n, p.fields["salt"].s, p.fields["iv"].s,
                p.fields["ciphertext"].s, p.fields["nodeName"].s))
  }

  /** A bundle written out as the JSON object a client sends. */
  function BundleJson(b: Bundle): Json
  {
    JObject(map["version" := JNumber(b.version), "salt" := JString(b.salt), "iv" := JString(b.iv),
                "ciphertext" := JString(b.ciphertext), "nodeName" := JString(b.nodeName)])
  }

  /** Every bundle a client can send is accepted, and reading it back yields the same bundle,
      whatever other fields travel with it. */
  lemma ParseBundleJson(b: Bundle, extra: map<string, Json>)
    ensures ParseBundle(JObject(extra + BundleJson(b).fields)) == Ok(b)
  {
  }
}
