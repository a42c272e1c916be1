/** The job message: `JObject.Parse(content)` and the three `json[key]?.ToString()`
    look-ups of Consumer.ParseMessage. */
module Message {
  import opened Wrappers

  /** A JSON value as JToken.ToString() renders it. Numbers and nested
      containers keep the text Newtonsoft would print for them. */
  datatype JsonValue =
    | JString(s: string)
    | JNull
    | JBool(b: bool)
    | JNumber(text: string)
    | JContainer(text: string)

  /** The outcome of JObject.Parse on the message body: anything that is not a
      JSON object makes it throw. */
  datatype Document = Malformed | Object(fields: map<string, JsonValue>)

  /** The three values the handler works with. */
  datatype Job = Job(uuid: string, fileName: string, extension: string)

  /** Why parsing threw: the body is not a JSON object, or a key is absent. */
  datatype ParseError = NotAnObject | Missing(key: string)

  const UuidKey: string := "uuid"
  const FileNameKey: string := "urlEncodedFileName"
  const ExtensionKey: string := "extension"

  /** JToken.ToString(): a string is returned as it is, a JSON null as "",
      a boolean as "True" or "False". */
  function AsText(v: JsonValue): (r: string)
    ensures v.JString? ==> r == v.s
    ensures v.JNull? ==> r == ""
  {
    match v
    case JString(s) => s
    case JNull => ""
    case JBool(b) => if b then "True" else "False"
    case JNumber(text) => text
    case JContainer(text) => text
  }

  /** `json[key]?.ToString() ?? throw`: only an absent key throws. */
  function Field(fields: map<string, JsonValue>, key: string): (r: Result<string, ParseError>)
    ensures r.Failure? <==> key !in fields
    ensures r.Failure? ==> r.error == Missing(key)
    ensures r.Success? ==> r.value == AsText(fields[key])
  {
    if key in fields then Success(AsText(fields[key])) else Failure(Missing(key))
  }

  /** Consumer.ParseMessage: the keys are looked up in the order uuid,
      urlEncodedFileName, extension and the first absent one is reported. */
  function ParseMessage(doc: Document): (r: Result<Job, ParseError>)
  {
    match doc
    case Malformed => Failure(NotAnObject)
    case Object(fields) =>
      var uuid := Field(fields, UuidKey);
      if uuid.Failure? then Failure(uuid.error)
      else
        var fileName := Field(fields, FileNameKey);
        if fileName.Failure? then Failure(fileName.error)
        else
          var extension := Field(fields, ExtensionKey);
          if extension.Failure? then Failure(extension.error)
          else Success(Job(uuid.value, fileName.value, extension.value))
  }

  predicate HasAllKeys(fields: map<string, JsonValue>)
  {
    UuidKey in fields && FileNameKey in fields && ExtensionKey in fields
  }

  /** Parsing fails exactly when the body is not an object or one of the three
      keys is absent, and each failure names its cause. */
  lemma ParseFailsIff(doc: Document)
    ensures ParseMessage(doc).Failure? <==> doc.Malformed? || !HasAllKeys(doc.fields)
    ensures doc.Malformed? ==> ParseMessage(doc) == Failure(NotAnObject)
    ensures doc.Object? && UuidKey !in doc.fields ==> ParseMessage(doc) == Failure(Missing(UuidKey))
    ensures doc.Object? && UuidKey in doc.fields && FileNameKey !in doc.fields
            ==> ParseMessage(doc) == Failure(Missing(FileNameKey))
    ensures doc.Object? && UuidKey in doc.fields && FileNameKey in doc.fields && ExtensionKey !in doc.fields
            ==> ParseMessage(doc) == Failure(Missing(ExtensionKey))
  {
  }

  /** Present values come back as their text, whatever else the object holds. */
  lemma ParseReturnsValues(doc: Document)
    requires doc.Object? && HasAllKeys(doc.fields)
    ensures ParseMessage(doc) == Success(Job(
              AsText(doc.fields[UuidKey]),
              AsText(doc.fields[FileNameKey]),
              AsText(doc.fields[ExtensionKey])))
  {
  }

  /** String values are returned unchanged; empty strings are not rejected. */
  lemma StringValuesUnchanged(fields: map<string, JsonValue>, uuid: string, name: string, ext: string)
    requires fields == map[UuidKey := JString(uuid), FileNameKey := JString(name), ExtensionKey := JString(ext)]
    ensures ParseMessage(Object(fields)) == Success(Job(uuid, name, ext))
  {
  }

  /** A JSON null is read as "" rather than treated as missing. */
  lemma NullReadsAsEmpty(fields: map<string, JsonValue>)
    requires HasAllKeys(fields) && fields[UuidKey] == JNull
    ensures ParseMessage(Object(fields)).Success?
    ensures ParseMessage(Object(fields)).value.uuid == ""
  {
  }
}
