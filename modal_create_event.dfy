/**
  The create-event screen: the colour palette, the emoji catalogue decoded
  from its hexadecimal "unified" codes, and the validated append of a new
  event.
*/
module ModalCreateEvent {
  import opened Wrappers
  import opened Text
  import opened Events
  import opened MainStore
  import ModalAddEvent
  import JsonText

  /** The colour palette, in picker order. '#2E7D32' appears twice, at 6 and at 38. */
  const Colors: seq<string> :=
          ["#1E3A8A", "#8E24AA", "#D81B60", "#E53935", "#F4511E", "#FF8F00"]
        + ["#2E7D32", "#00695C", "#00897B", "#0277BD", "#3949AB", "#512DA8"]
        + ["#6D4C41", "#BF360C", "#4A148C", "#1B5E20", "#006064", "#B71C1C"]
        + ["#AD1457", "#C2185B", "#7B1FA2", "#33691E", "#01579B", "#004D40"]
        + ["#880E4F", "#F57C00", "#558B2F", "#311B92", "#D32F2F", "#00ACC1"]
        + ["#283593", "#689F38", "#E64A19", "#5E35B1", "#00838F", "#6A1B9A"]
        + ["#FF6F00", "#1A237E", "#2E7D32", "#C62828"]
        + ["#FF3D00", "#FFEA00", "#00E5FF", "#76FF03", "#F50057", "#651FFF"]
        + ["#E040FB", "#BBDEFB", "#C8E6C9", "#FFF9C4", "#FFCCBC", "#F8BBD0"]
        + ["#D1C4E9", "#B2EBF2", "#757575", "#424242", "#BCAAA4", "#A1887F"]

  /** The colour selected when the screen opens. */
  function DefaultColor(): (c: string)
    ensures c == "#1E3A8A"
    ensures |Colors| == 58 && c == Colors[0]
  {
    assert |Colors| == 58;
    Colors[0]
  }

  /** The number of leading catalogue entries the icon picker skips. */
  const SkippedEmojis: nat := 312

  // ---------------------------------------------------------------------
  // parseInt(code, 16)

  /** The longest prefix of s made of hexadecimal digits. */
  function HexPrefix(s: string): (p: string)
    ensures |p| <= |s| && p == s[..|p|] && AllHexDigits(p)
    ensures |p| == |s| || !IsHexDigit(s[|p|])
    decreases |s|
  {
    if s == [] || !IsHexDigit(s[0]) then [] else [s[0]] + HexPrefix(s[1..])
  }

  /**
    The text parseInt(text, 16) reads digits from: after the leading white
    space, an optional sign and an optional 0x or 0X.
  */
  function HexBody(text: string): (body: string)
    ensures |body| <= |text| && body == text[|text| - |body|..]
  {
    TrimStartSuffix(text);
    var s := TrimStart(text);
    var unsigned := if |s| > 0 && (s[0] == '-' || s[0] == '+') then s[1..] else s;
    if |unsigned| >= 2 && (unsigned[..2] == "0x" || unsigned[..2] == "0X") then unsigned[2..] else unsigned
  }

  predicate NegativeSign(text: string) {
    var s := TrimStart(text);
    |s| > 0 && s[0] == '-'
  }

  /**
    parseInt(text, 16): NaN (None) unless at least one hexadecimal digit
    starts the body; otherwise the longest run of such digits, negated after
    a minus sign.
  */
  function ParseIntHex(text: string): (r: Option<int>)
    ensures r.None? <==> HexPrefix(HexBody(text)) == []
    ensures r.Some? && !NegativeSign(text) ==> r.value == HexValue(HexPrefix(HexBody(text)))
    ensures r.Some? && NegativeSign(text) ==> r.value == 0 - HexValue(HexPrefix(HexBody(text)))
  {
    var z := HexPrefix(HexBody(text));
    var magnitude: int := if z == [] then 0 else HexValue(z);
    if z == [] then None
    else if NegativeSign(text) then Some(-magnitude) else Some(magnitude)
  }

  /** Code points that are Unicode scalar values, the ones a string character can hold. */
  predicate IsScalarValue(n: int) {
    (0 <= n < 0xD800) || (0xE000 <= n <= 0x10FFFF)
  }

  /**
    String.fromCodePoint(n) for one code point: the character, or None where
    it throws a RangeError (NaN, negative, beyond U+10FFFF); a lone
    surrogate cannot be a character here and is refused as well.
  */
  function FromCodePoint(n: Option<int>): (r: Option<char>)
    ensures r.Some? <==> n.Some? && IsScalarValue(n.value)
    ensures r.Some? ==> r.value as int == n.value
  {
    if n.Some? && IsScalarValue(n.value) then Some(n.value as char) else None
  }

  /** One '-'-separated part of a unified code, as a character. */
  function CodePoint(part: string): Option<char> {
    FromCodePoint(ParseIntHex(part))
  }

  const InvalidCodePoint: string := "RangeError: Invalid code point"

  /**
    xs.map(f) for a callback that may throw: the first error in element
    order, or every result in order when no element throws.
  */
  function MapOrThrow<T, U>(f: T -> Result<U>, xs: seq<T>): (r: Result<seq<U>>)
    ensures r.Ok? <==> forall i :: 0 <= i < |xs| ==> f(xs[i]).Ok?
    ensures r.Ok? ==> |r.value| == |xs| && forall i :: 0 <= i < |xs| ==> r.value[i] == f(xs[i]).value
    ensures r.Throws? ==> exists i :: 0 <= i < |xs| && f(xs[i]) == Throws(r.message) && forall j :: 0 <= j < i ==> f(xs[j]).Ok?
    decreases |xs|
  {
    if xs == [] then Ok([])
    else if f(xs[0]).Throws? then Throws(f(xs[0]).message)
    else
      var rest := MapOrThrow(f, xs[1..]);
      if rest.Throws? then
        assert forall i :: 1 <= i < |xs| ==> xs[i] == xs[1..][i - 1];
        rest
      else Ok([f(xs[0]).value] + rest.value)
  }

  /** String.fromCodePoint(parseInt(part, 16)) for one part: the character, or the RangeError. */
  function PartChar(part: string): (r: Result<char>)
    ensures r.Ok? <==> CodePoint(part).Some?
    ensures r.Ok? ==> r.value == CodePoint(part).value
    ensures r.Throws? ==> r.message == InvalidCodePoint
  {
    var c := CodePoint(part);
    if c.None? then Throws(InvalidCodePoint) else Ok(c.value)
  }

  /**
    parts.map(parseInt).map(String.fromCodePoint).join(''): one character per
    part, in order, or the RangeError of a part that is not a code point.
  */
  function DecodeParts(parts: seq<string>): (r: Result<string>)
    ensures r.Ok? <==> forall i :: 0 <= i < |parts| ==> PartChar(parts[i]).Ok?
    ensures r.Throws? ==> r.message == InvalidCodePoint
    ensures r.Ok? ==> |r.value| == |parts| && forall i :: 0 <= i < |parts| ==> r.value[i] == PartChar(parts[i]).value
  {
    MapOrThrow(PartChar, parts)
  }

  /** The emoji a unified code such as "1F468-200D-1F4BB" stands for. */
  function DecodeUnified(unified: string): Result<string> {
    DecodeParts(Split(unified, '-'))
  }

  /**
    getAllAppleEmojis() over the unified codes of the catalogue records:
    an empty catalogue gives the empty list, otherwise one emoji per record
    in record order; a record that does not decode makes the whole call
    throw.
  */
  function GetAllAppleEmojis(unifiedCodes: seq<string>): (r: Result<seq<string>>)
    ensures unifiedCodes == [] ==> r == Ok([])
    ensures r.Ok? <==> forall i :: 0 <= i < |unifiedCodes| ==> DecodeUnified(unifiedCodes[i]).Ok?
    ensures r.Ok? ==> |r.value| == |unifiedCodes|
    ensures r.Ok? ==> forall i :: 0 <= i < |unifiedCodes| ==> r.value[i] == DecodeUnified(unifiedCodes[i]).value
  {
    if unifiedCodes == [] then Ok([])
    else MapOrThrow(DecodeUnified, unifiedCodes)
  }

  /**
    all.splice(312, all.length): the elements removed from index 312 on,
    which is nothing when the catalogue is no longer than 312.
  */
  function PickerEmojis(all: seq<string>): (r: seq<string>)
    ensures |r| == if |all| <= SkippedEmojis then 0 else |all| - SkippedEmojis
    ensures forall i :: 0 <= i < |r| ==> r[i] == all[SkippedEmojis + i]
  {
    if |all| <= SkippedEmojis then [] else all[SkippedEmojis..]
  }

  /** emojis[0]: the icon selected when the screen opens; undefined (None) for an empty picker. */
  function DefaultEmoji(emojis: seq<string>): (r: Option<string>)
    ensures r.None? <==> emojis == []
    ensures r.Some? ==> r.value == emojis[0]
  {
    if emojis == [] then None else Some(emojis[0])
  }

  // ---------------------------------------------------------------------
  // Encoding code points as unified codes: the inverse of DecodeUnified

  /** A code point as the catalogue writes it: upper-case hexadecimal, at least four digits. */
  function UnifiedPart(c: char): string {
    PadStart(HexText(c as int), 4, '0')
  }

  function UnifiedParts(cs: seq<char>): (parts: seq<string>)
    ensures |parts| == |cs|
    ensures forall i :: 0 <= i < |cs| ==> parts[i] == UnifiedPart(cs[i])
  {
    seq(|cs|, i requires 0 <= i < |cs| => UnifiedPart(cs[i]))
  }

  /** The unified code of an emoji: its code points joined with '-'. */
  function EncodeUnified(cs: seq<char>): string
    requires |cs| >= 1
  {
    Join(UnifiedParts(cs), '-')
  }

  /** Every part the catalogue format writes reads back as its code point and holds no '-'. */
  lemma CodePointOfUnifiedPart(c: char)
    ensures CodePoint(UnifiedPart(c)) == Some(c)
    ensures '-' !in UnifiedPart(c)
  {
    UnifiedPartValue(c);
    CodePointOfHexDigits(UnifiedPart(c), c);
  }

  /** A plain run of hexadecimal digits reads back as the code point it is worth. */
  lemma CodePointOfHexDigits(s: string, c: char)
    requires |s| >= 1 && AllHexDigits(s) && HexValue(s) == c as int
    ensures CodePoint(s) == Some(c) && '-' !in s
  {
    ParseHexDigits(s);
    assert !IsHexDigit('-');
  }

  /** A unified part is a run of hexadecimal digits worth its code point. */
  lemma UnifiedPartValue(c: char)
    ensures |UnifiedPart(c)| >= 1 && AllHexDigits(UnifiedPart(c))
    ensures HexValue(UnifiedPart(c)) == c as int
  {
    var hex := HexText(c as int);
    var part := UnifiedPart(c);
    var zeros := part[..|part| - |hex|];
    assert part == zeros + hex;
    HexLeadingZeros(zeros, hex);
    HexRoundTrip(c as int);
  }

  /** parseInt reads a plain run of hexadecimal digits as its value. */
  lemma ParseHexDigits(s: string)
    requires |s| >= 1 && AllHexDigits(s)
    ensures ParseIntHex(s) == Some(HexValue(s))
  {
    HexBodyOfDigits(s);
    HexPrefixOfDigits(s);
  }

  /** A run of hexadecimal digits has no white space, sign or 0x to skip. */
  lemma HexBodyOfDigits(s: string)
    requires |s| >= 1 && AllHexDigits(s)
    ensures HexBody(s) == s && !NegativeSign(s)
  {
    assert IsHexDigit(s[0]);
    assert !IsJsWhitespace(s[0]);
    TrimStartNoSpace(s);
    assert |s| >= 2 ==> s[1] != 'x' && s[1] != 'X' by {
      if |s| >= 2 {
        assert IsHexDigit(s[1]);
      }
    }
    assert |s| >= 2 ==> s[..2] != "0x" && s[..2] != "0X" by {
      if |s| >= 2 {
        assert s[..2][1] == s[1];
      }
    }
  }

  lemma TrimStartNoSpace(s: string)
    requires s == [] || !IsJsWhitespace(s[0])
    ensures TrimStart(s) == s
  {
    TrimStartSuffix(s);
    var r := TrimStart(s);
    assert s[|s| - |r|..] == s;
  }

  lemma {:induction false} HexPrefixOfDigits(s: string)
    requires AllHexDigits(s)
    ensures HexPrefix(s) == s
    decreases |s|
  {
    if s != [] {
      HexPrefixOfDigits(s[1..]);
    }
  }

  /** Decoding the unified code of a non-empty run of code points gives back those code points. */
  lemma DecodeEncode(cs: seq<char>)
    requires |cs| >= 1
    ensures DecodeUnified(EncodeUnified(cs)) == Ok(cs)
  {
    var parts := UnifiedParts(cs);
    forall i | 0 <= i < |parts| ensures '-' !in parts[i] && CodePoint(parts[i]) == Some(cs[i]) {
      CodePointOfUnifiedPart(cs[i]);
    }
    DecodeJoinedParts(parts, cs);
  }

  /** Parts free of '-', each reading back as one code point, decode once joined by '-'. */
  lemma DecodeJoinedParts(parts: seq<string>, cs: seq<char>)
    requires |parts| == |cs| >= 1
    requires forall i :: 0 <= i < |parts| ==> '-' !in parts[i] && CodePoint(parts[i]) == Some(cs[i])
    ensures DecodeUnified(Join(parts, '-')) == Ok(cs)
  {
    SplitJoin(parts, '-');
    DecodeEachPart(parts, cs);
  }

  /** Parts each reading back as one code point decode to those code points. */
  lemma DecodeEachPart(parts: seq<string>, cs: seq<char>)
    requires |parts| == |cs|
    requires forall i :: 0 <= i < |parts| ==> CodePoint(parts[i]) == Some(cs[i])
    ensures DecodeParts(parts) == Ok(cs)
  {
    var r := DecodeParts(parts);
    assert r.value == cs;
  }

  // ---------------------------------------------------------------------
  // createEvent

  /**
    Math.random().toString(36).substring(2, 2 + 20) over the random text:
    the characters from index 2 up to 22, as many of them as there are.
  */
  function NewEventId(randomText: string): (id: string)
    ensures |id| <= 20
    ensures |randomText| <= 2 ==> id == []
    ensures 2 < |randomText| ==> |id| == (if |randomText| >= 22 then 20 else |randomText| - 2)
    ensures forall i :: 0 <= i < |id| ==> id[i] == randomText[2 + i]
  {
    Substring(randomText, 2, 22)
  }

  /** String.prototype.substring: both ends clamped to the string, the smaller one first. */
  function Substring(s: string, start: int, end: int): (r: string)
    ensures var a := Clamp(start, |s|);
      var b := Clamp(end, |s|);
      var from := if a <= b then a else b;
      && |r| == (if a <= b then b - a else a - b)
      && forall i :: 0 <= i < |r| ==> r[i] == s[from + i]
  {
    var a := Clamp(start, |s|);
    var b := Clamp(end, |s|);
    if a <= b then s[a..b] else s[b..a]
  }

  function Clamp(i: int, len: nat): (r: nat)
    ensures r <= len
    ensures 0 <= i <= len ==> r == i
    ensures i < 0 ==> r == 0
    ensures i > len ==> r == len
  {
    if i < 0 then 0 else if i > len then len else i
  }

  /** The record createEvent pushes: an empty comment, not a favourite, no occurrences. */
  function NewEvent(id: string, name: string, color: string, icon: string): Event {
    Event(id, name, color, icon, "", false, [])
  }

  /**
    The collection createEvent stores, or None when the name is empty and
    the screen alerts instead: the existing events in order followed by
    exactly one new event.
  */
  function CreateEvent(events: seq<Event>, name: string, id: string, color: string, icon: string): (r: Option<seq<Event>>)
    ensures r.None? <==> name == ""
    ensures r.Some? ==>
      && |r.value| == |events| + 1
      && r.value[..|events|] == events
      && var e := r.value[|events|];
         e.id == id && e.name == name && e.color == color && e.icon == icon
         && e.comment == "" && !e.favorite && e.data == []
  {
    if name == "" then None else Some(events + [NewEvent(id, name, color, icon)])
  }

  /**
    A newly created event whose id no other event has is the one the
    add-occurrence screen finds for that id, under its name.
  */
  lemma CreatedEventIsFound(events: seq<Event>, name: string, id: string, color: string, icon: string)
    requires name != ""
    requires forall j :: 0 <= j < |events| ==> events[j].id != id
    ensures var created := CreateEvent(events, name, id, color, icon).value;
      EventIndex(created, id) == |events| && ModalAddEvent.EventTitle(created, id) == Some(name)
  {
    var created := CreateEvent(events, name, id, color, icon).value;
    assert forall j :: 0 <= j < |events| ==> created[j].id != id by {
      assert created[..|events|] == events;
      forall j | 0 <= j < |events| ensures created[j].id != id {
        assert created[..|events|][j] == created[j];
      }
    }
  }

  /**
    createEvent(): with a non-empty name, push the new event (its id drawn
    from the random text) and store the collection; with an empty name,
    alert and store nothing.
  */
  method CreateEventOnStore(store: EventStore, name: string, randomText: string, color: string, icon: string)
    returns (alerted: bool)
    requires store.Valid()
    modifies store
    ensures store.Valid()
    ensures alerted <==> name == ""
    ensures alerted ==> store.eventsData == old(store.eventsData) && store.writes == old(store.writes)
    ensures !alerted ==> store.eventsData == CreateEvent(old(store.eventsData), name, NewEventId(randomText), color, icon).value
    ensures !alerted ==> store.writes == old(store.writes) + [StorageWrite(StorageKey, JsonText.Stringify(store.eventsData))]
  {
    if name != "" {
      var newEventsData := store.eventsData;
      newEventsData := newEventsData + [NewEvent(NewEventId(randomText), name, color, icon)];
      store.SetEventsData(newEventsData);
      alerted := false;
    } else {
      alerted := true;
    }
  }
}
