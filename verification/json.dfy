/**
 The configuration document and the two JSON libraries the configurator uses,
 kept abstract. Arduino_JSON (`JSON.parse`, `JSON.stringify`) serves the host-side
 merge; ArduinoJson (`deserializeJson`) checks peer writes and fills the lookup
 cache. The libraries are passed in as a record of functions, and what the model
 needs of them is stated as predicates that lemmas require.
 */
module Json {
  import opened Wrappers
  import opened Preferences

  /** One parameter record: its fields by name (`value`, `description`, `type`, and any others it had). */
  type Record = map<string, string>

  /** The configuration document: parameter name to record. */
  type Document = map<string, Record>

  const ValueField := "value"
  const DescriptionField := "description"
  const TypeField := "type"

  datatype JsonLibs = JsonLibs(
    /** Arduino_JSON `JSON.parse`, with `None` where `JSON.typeof` of the result is "undefined". */
    parse: string -> Option<Document>,
    /** Arduino_JSON `JSON.stringify`. */
    stringify: Document -> string,
    /** ArduinoJson `deserializeJson` into a 1024-byte document reports no error. */
    accepts: string -> bool,
    /**
     ArduinoJson `deserializeJson` into a document of twice the text's length,
     then each top-level member's `value` field converted with `as<String>()`;
     `None` when deserialisation reports an error.
     */
    valueFields: string -> Option<map<string, string>>
  )

  /**
   What the model needs of the serialiser: it produces non-empty text without a
   raw NUL (JSON escapes control characters), and parsing its output gives the
   document back.
   */
  ghost predicate RoundTrips(libs: JsonLibs) {
    forall d :: libs.parse(libs.stringify(d)) == Some(d) && libs.stringify(d) != "" && Nul !in libs.stringify(d)
  }

  /** `m` holds exactly the document's parameters, with each `value` field where the record has one. */
  predicate HoldsValues(m: map<string, string>, d: Document) {
    && m.Keys == d.Keys
    && forall k :: k in d && ValueField in d[k] ==> m[k] == d[k][ValueField]
  }

  /** The two libraries agree on serialised documents: the cache reader sees every parameter's value. */
  ghost predicate ReadsSerialised(libs: JsonLibs) {
    forall d :: libs.valueFields(libs.stringify(d)).Some? && HoldsValues(libs.valueFields(libs.stringify(d)).value, d)
  }
}
