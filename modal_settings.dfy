/**
  The settings screen: export of the persisted collection as text and
  import of a collection from clipboard text, guarded by isJson.
*/
module ModalSettings {
  import opened Wrappers
  import opened Text
  import opened Events
  import opened MainStore
  import JsonText

  /** What Clipboard.getStringAsync() hands to isJson: text, or some other value. */
  datatype ClipValue = ClipText(text: string) | NotText

  /** The value JSON.parse builds: an array of event records, or JSON of any other shape. */
  datatype JsonDocument = EventList(events: seq<Event>) | OtherJson

  /** JSON.parse: the document a text denotes, or None where JSON.parse throws a SyntaxError. */
  type JsonParse = string -> Option<JsonDocument>

  const ParseError: string := "SyntaxError: JSON.parse"

  /**
    isJson(value): false for anything but text and for text that is empty
    once trimmed; otherwise whether the trimmed text parses.
  */
  function IsJson(value: ClipValue, parse: JsonParse): (ok: bool)
    ensures value.NotText? ==> !ok
    ensures value.ClipText? && AllWhitespace(value.text) ==> !ok
    ensures ok <==> value.ClipText? && Trim(value.text) != [] && parse(Trim(value.text)).Some?
  {
    match value
    case NotText => false
    case ClipText(text) =>
      var trimmed := Trim(text);
      if trimmed == [] then false else parse(trimmed).Some?
  }

  /** The text the import dialog shows: the clipboard text itself when it passes isJson, else "[]". */
  function ImportPreview(value: ClipValue, parse: JsonParse): (shown: string)
    ensures IsJson(value, parse) ==> shown == value.text
    ensures !IsJson(value, parse) ==> shown == "[]"
  {
    if IsJson(value, parse) then value.text else "[]"
  }

  /**
    The value the Import button hands to setEventsData as the code is
    written: JSON.parse of the untrimmed clipboard text when isJson
    accepts it, [] otherwise. The untrimmed text can still throw.
  */
  function ImportValueAsWritten(value: ClipValue, parse: JsonParse): (r: Result<JsonDocument>)
    ensures !IsJson(value, parse) ==> r == Ok(EventList([]))
    ensures IsJson(value, parse) ==> (r.Throws? <==> parse(value.text).None?)
    ensures IsJson(value, parse) && r.Ok? ==> r.value == parse(value.text).value
  {
    if IsJson(value, parse) then
      var parsed := parse(value.text);
      if parsed.None? then Throws(ParseError) else Ok(parsed.value)
    else Ok(EventList([]))
  }

  /**
    Where isJson says the trimmed text is JSON but JSON.parse of the
    untrimmed text throws: a no-break space U+00A0 is white space to
    String.prototype.trim but not to JSON (section 2 of RFC 8259 allows
    only space, tab, line feed and carriage return around a value).
  */
  lemma ImportAsWrittenThrows(parse: JsonParse)
    requires parse("[]") == Some(EventList([]))
    requires parse("\U{00A0}[]") == None
    ensures IsJson(ClipText("\U{00A0}[]"), parse)
    ensures ImportValueAsWritten(ClipText("\U{00A0}[]"), parse).Throws?
  {
    var text := "\U{00A0}[]";
    assert text == ['\U{00A0}'] + "[]";
    TrimStartSkipsOne('\U{00A0}', "[]");
    TrimBracketed("[]");
    assert Trim(text) == "[]";
  }

  /** One white-space character before text that starts with something else is all trimStart removes. */
  lemma TrimStartSkipsOne(c: char, rest: string)
    requires IsJsWhitespace(c)
    requires rest != [] && !IsJsWhitespace(rest[0])
    ensures TrimStart([c] + rest) == rest
  {
    assert ([c] + rest)[1..] == rest;
  }

  /**
    The import value the guard evidently intends: JSON.parse of the same
    trimmed text isJson accepted, [] otherwise. It never throws.
  */
  function ImportValue(value: ClipValue, parse: JsonParse): (doc: JsonDocument)
    ensures IsJson(value, parse) ==> parse(Trim(value.text)) == Some(doc)
    ensures !IsJson(value, parse) ==> doc == EventList([])
  {
    if IsJson(value, parse) then parse(Trim(value.text)).value else EventList([])
  }

  /**
    The Import button as the code is written: setEventsData with the import
    value. Text that does not pass isJson replaces the collection with []
    rather than keeping it; text whose untrimmed form JSON.parse rejects
    throws before setEventsData runs, so nothing changes and the error
    (returned here) reaches the alert's handler.
  */
  method ImportData(store: EventStore, value: ClipValue, parse: JsonParse) returns (error: Option<string>)
    requires store.Valid()
    requires ImportValueAsWritten(value, parse).Ok? ==> ImportValueAsWritten(value, parse).value.EventList?
    modifies store
    ensures store.Valid()
    ensures error.Some? <==> ImportValueAsWritten(value, parse).Throws?
    ensures error.Some? ==> error.value == ParseError
                            && store.eventsData == old(store.eventsData) && store.writes == old(store.writes)
    ensures error.None? ==> store.eventsData == ImportValueAsWritten(value, parse).value.events
                            && store.writes == old(store.writes) + [StorageWrite(StorageKey, JsonText.Stringify(store.eventsData))]
    ensures !IsJson(value, parse) ==> error.None? && store.eventsData == []
  {
    var imported := ImportValueAsWritten(value, parse);
    if imported.Throws? {
      return Some(imported.message);
    }
    store.SetEventsData(imported.value.events);
    return None;
  }

  /**
    The Import button as the guard evidently intends: setEventsData with
    the document parsed from the same trimmed text isJson accepted. It
    never throws and always writes once.
  */
  method ImportDataIntended(store: EventStore, value: ClipValue, parse: JsonParse)
    requires store.Valid()
    requires ImportValue(value, parse).EventList?
    modifies store
    ensures store.Valid()
    ensures store.eventsData == ImportValue(value, parse).events
    ensures !IsJson(value, parse) ==> store.eventsData == []
    ensures store.writes == old(store.writes) + [StorageWrite(StorageKey, JsonText.Stringify(store.eventsData))]
  {
    var imported := ImportValue(value, parse);
    store.SetEventsData(imported.events);
  }

  /** The text exportData shows and copies: the stored text, or "[]" when the key holds nothing. */
  function ExportText(stored: Option<string>): (text: string)
    ensures stored.Some? ==> text == stored.value
    ensures stored.None? ==> text == "[]"
  {
    stored.GetOr("[]")
  }

  /** A parser that reads back what JSON.stringify writes for event collections. */
  ghost predicate ReadsBackStringify(parse: JsonParse) {
    forall events: seq<Event> {:trigger JsonText.Stringify(events)} :: parse(JsonText.Stringify(events)) == Some(EventList(events))
  }

  /**
    JSON.parse restricted to the texts Stringify writes: the collection such
    a text denotes, None for every other text.
  */
  function StringifiedParse(text: string): Option<JsonDocument> {
    match JsonText.ReadStringified(text)
    case None => None
    case Some(events) => Some(EventList(events))
  }

  /** A parser that reads back Stringify exists, so the round trip below is not vacuous. */
  lemma ReadsBackSatisfiable()
    ensures ReadsBackStringify(StringifiedParse)
  {
    forall events: seq<Event> ensures StringifiedParse(JsonText.Stringify(events)) == Some(EventList(events)) {
      JsonText.StringifyReadsBack(events);
    }
  }

  /**
    Exporting and then importing the exported text restores the collection:
    after a write the export is the serialised collection; before any
    write, of an empty store with nothing persisted, it is "[]".
  */
  lemma ExportImportRoundTrip(store: EventStore, parse: JsonParse)
    requires store.Valid()
    requires ReadsBackStringify(parse)
    ensures ImportValue(ClipText(ExportText(store.StoredText(None))), parse) == EventList(store.eventsData)
    ensures ImportValueAsWritten(ClipText(ExportText(store.StoredText(None))), parse) == Ok(EventList(store.eventsData))
  {
    ExportIsStringified(store);
    ImportStringified(store.eventsData, parse);
  }

  /** The export of a valid store is the serialised collection: a write stored it, and "[]" stands in for none. */
  lemma ExportIsStringified(store: EventStore)
    requires store.Valid()
    ensures ExportText(store.StoredText(None)) == JsonText.Stringify(store.eventsData)
  {
    if store.writes == [] {
      assert JsonText.Stringify([]) == "[]";
    }
  }

  /** The serialised form of a collection imports back as that collection, as written and as intended. */
  lemma ImportStringified(events: seq<Event>, parse: JsonParse)
    requires ReadsBackStringify(parse)
    ensures ImportValue(ClipText(JsonText.Stringify(events)), parse) == EventList(events)
    ensures ImportValueAsWritten(ClipText(JsonText.Stringify(events)), parse) == Ok(EventList(events))
  {
    BracketedIsJson(JsonText.Stringify(events), parse);
  }

  /** Text in brackets that parses passes isJson, and is the text its trim gives. */
  lemma BracketedIsJson(text: string, parse: JsonParse)
    requires |text| >= 2 && text[0] == '[' && text[|text| - 1] == ']'
    requires parse(text).Some?
    ensures Trim(text) == text
    ensures IsJson(ClipText(text), parse)
  {
    TrimBracketed(text);
  }

  /** Text that starts with '[' and ends with ']' is its own trim. */
  lemma TrimBracketed(text: string)
    requires |text| >= 2 && text[0] == '[' && text[|text| - 1] == ']'
    ensures Trim(text) == text
  {
    TrimStartSuffix(text);
    var s := TrimStart(text);
    TrimEndPrefix(s);
    assert !IsJsWhitespace('[') && !IsJsWhitespace(']');
    assert s == text[|text| - |s|..];
    assert |s| == |text|;
    assert s == text;
    var r := TrimEnd(s);
    assert r == s[..|r|];
    assert |r| == |s|;
  }
}
