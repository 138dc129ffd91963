/**
  JSON.stringify applied to the event collection (section 25.5.2 of
  ECMA-262), for records whose properties were created in the order
  id, name, color, icon, comment, favorite, data and dateTime, comment.
*/
module JsonText {
  import opened Wrappers
  import opened Text
  import opened Events

  /** QuoteJSONString for one character: the escapes it mandates, every other character verbatim. */
  function EscapeChar(c: char): string {
    if c == '"' then "\\\""
    else if c == '\\' then "\\\\"
    else if c == '\U{0008}' then "\\b"
    else if c == '\U{000C}' then "\\f"
    else if c == '\n' then "\\n"
    else if c == '\r' then "\\r"
    else if c == '\t' then "\\t"
    else if c < ' ' then "\\u00" + [HexDigitLower(c as int / 16), HexDigitLower(c as int % 16)]
    else [c]
  }

  function Escape(s: string): string
    decreases |s|
  {
    if s == [] then "" else EscapeChar(s[0]) + Escape(s[1..])
  }

  /** A JSON string literal. */
  function Quote(s: string): string {
    "\"" + Escape(s) + "\""
  }

  function BoolText(b: bool): string {
    if b then "true" else "false"
  }

  function OccurrenceText(o: Occurrence): string {
    "{\"dateTime\":" + Quote(o.dateTime) + ",\"comment\":" + Quote(o.comment) + "}"
  }

  /** The texts of the items separated by commas, as an array's elements are. */
  function Items<T>(text: T -> string, xs: seq<T>): string
    decreases |xs|, 0
  {
    if xs == [] then "" else text(xs[0]) + MoreItems(text, xs[1..])
  }

  /** The items that follow the first one, each after a comma. */
  function MoreItems<T>(text: T -> string, ys: seq<T>): string
    decreases |ys|, 1
  {
    if ys == [] then "" else "," + Items(text, ys)
  }

  function EventText(e: Event): string {
    "{\"id\":" + Quote(e.id)
    + ",\"name\":" + Quote(e.name)
    + ",\"color\":" + Quote(e.color)
    + ",\"icon\":" + Quote(e.icon)
    + ",\"comment\":" + Quote(e.comment)
    + ",\"favorite\":" + BoolText(e.favorite)
    + ",\"data\":[" + Items(OccurrenceText, e.data) + "]}"
  }

  /** JSON.stringify(events). */
  function Stringify(events: seq<Event>): (text: string)
    ensures |text| >= 2 && text[0] == '[' && text[|text| - 1] == ']'
    ensures events == [] <==> text == "[]"
  {
    var items := Items(EventText, events);
    assert events != [] ==> |items| > 0 by {
      if events != [] {
        EventTextOpens(events[0]);
      }
    }
    "[" + items + "]"
  }

  // ---------------------------------------------------------------------
  // Reading back what Stringify writes

  /** What follows the literal lit at the start of t, or None when t does not start with it. */
  function Expect(lit: string, t: string): (r: Option<string>)
    ensures r.Some? ==> |lit| <= |t| && r.value == t[|lit|..] && |r.value| == |t| - |lit|
  {
    if |lit| <= |t| && t[..|lit|] == lit then Some(t[|lit|..]) else None
  }

  lemma ExpectLiteral(lit: string, u: string)
    ensures Expect(lit, lit + u) == Some(u)
  {
    assert (lit + u)[..|lit|] == lit;
    assert (lit + u)[|lit|..] == u;
  }

  /** One character of a string literal's body, undoing the escapes of EscapeChar. */
  function UnescapeChar(t: string): (r: Option<(char, string)>)
    ensures r.Some? ==> |r.value.1| < |t|
  {
    if t == [] then None
    else if t[0] != '\\' then Some((t[0], t[1..]))
    else if |t| < 2 then None
    else if t[1] == '"' then Some(('"', t[2..]))
    else if t[1] == '\\' then Some(('\\', t[2..]))
    else if t[1] == 'b' then Some(('\U{0008}', t[2..]))
    else if t[1] == 'f' then Some(('\U{000C}', t[2..]))
    else if t[1] == 'n' then Some(('\n', t[2..]))
    else if t[1] == 'r' then Some(('\r', t[2..]))
    else if t[1] == 't' then Some(('\t', t[2..]))
    else if t[1] == 'u' && |t| >= 6 && t[2] == '0' && t[3] == '0' && IsHexDigit(t[4]) && IsHexDigit(t[5]) then
      Some(((HexDigitValue(t[4]) * 16 + HexDigitValue(t[5])) as char, t[6..]))
    else None
  }

  /** The body of a string literal up to its closing quote, and what follows the quote. */
  function UnquoteBody(t: string): (r: Option<(string, string)>)
    ensures r.Some? ==> |r.value.1| < |t|
    decreases |t|
  {
    if t == [] then None
    else if t[0] == '"' then Some(([], t[1..]))
    else
      var first :- UnescapeChar(t);
      var more :- UnquoteBody(first.1);
      Some(([first.0] + more.0, more.1))
  }

  /** A string literal at the start of t: its value and what follows it. */
  function ReadString(t: string): (r: Option<(string, string)>)
    ensures r.Some? ==> |r.value.1| < |t|
  {
    var body :- Expect("\"", t);
    UnquoteBody(body)
  }

  function ReadBool(t: string): (r: Option<(bool, string)>)
    ensures r.Some? ==> |r.value.1| < |t|
  {
    if Expect("true", t).Some? then Some((true, Expect("true", t).value))
    else if Expect("false", t).Some? then Some((false, Expect("false", t).value))
    else None
  }

  function ReadOccurrence(t: string): (r: Option<(Occurrence, string)>)
    ensures r.Some? ==> |r.value.1| < |t|
  {
    var t1 :- Expect("{\"dateTime\":", t);
    var dateTime :- ReadString(t1);
    var t2 :- Expect(",\"comment\":", dateTime.1);
    var comment :- ReadString(t2);
    var t3 :- Expect("}", comment.1);
    Some((Occurrence(dateTime.0, comment.0), t3))
  }

  /** A reader that always consumes some of its input. */
  ghost predicate Consumes<T>(read: string -> Option<(T, string)>) {
    forall s :: read(s).Some? ==> |read(s).value.1| < |s|
  }

  /** After an item: ']' closes the array, ',' is followed by further items. */
  function ReadMore<T>(read: string -> Option<(T, string)>, t: string): (r: Option<(seq<T>, string)>)
    requires Consumes(read)
    ensures r.Some? ==> |r.value.1| < |t|
    decreases |t|
  {
    if |t| >= 1 && t[0] == ']' then Some(([], t[1..]))
    else if |t| >= 1 && t[0] == ',' then
      var next :- read(t[1..]);
      var more :- ReadMore(read, next.1);
      Some(([next.0] + more.0, more.1))
    else None
  }

  /** The elements of an array after its '[', up to and including the closing ']'. */
  function ReadItems<T>(read: string -> Option<(T, string)>, t: string): (r: Option<(seq<T>, string)>)
    requires Consumes(read)
    ensures r.Some? ==> |r.value.1| < |t|
  {
    if |t| >= 1 && t[0] == ']' then Some(([], t[1..]))
    else
      var first :- read(t);
      var more :- ReadMore(read, first.1);
      Some(([first.0] + more.0, more.1))
  }

  function ReadEvent(t: string): (r: Option<(Event, string)>)
    ensures r.Some? ==> |r.value.1| < |t|
  {
    var t1 :- Expect("{\"id\":", t);
    var id :- ReadString(t1);
    var t2 :- Expect(",\"name\":", id.1);
    var name :- ReadString(t2);
    var t3 :- Expect(",\"color\":", name.1);
    var color :- ReadString(t3);
    ReadEventTail(id.0, name.0, color.0, color.1)
  }

  /** The members of an event object after its colour, and the closing '}'. */
  function ReadEventTail(id: string, name: string, color: string, t: string): (r: Option<(Event, string)>)
    ensures r.Some? ==> |r.value.1| < |t|
  {
    var t4 :- Expect(",\"icon\":", t);
    var icon :- ReadString(t4);
    var t5 :- Expect(",\"comment\":", icon.1);
    var comment :- ReadString(t5);
    var t6 :- Expect(",\"favorite\":", comment.1);
    var favorite :- ReadBool(t6);
    var t7 :- Expect(",\"data\":[", favorite.1);
    OccurrencesReadBack();
    var data :- ReadItems(ReadOccurrence, t7);
    var t8 :- Expect("}", data.1);
    Some((Event(id, name, color, icon.0, comment.0, favorite.0, data.0), t8))
  }

  /** The event collection a text written by Stringify denotes, None for any other text. */
  function ReadStringified(t: string): Option<seq<Event>> {
    var body :- Expect("[", t);
    var events :- ReadItems(ReadEvent, body);
    if events.1 == [] then Some(events.0) else None
  }

  /** UnescapeChar undoes EscapeChar, whatever follows. */
  lemma UnescapeEscaped(c: char, u: string)
    ensures UnescapeChar(EscapeChar(c) + u) == Some((c, u))
    ensures (EscapeChar(c) + u)[0] != '"'
  {
    var e := EscapeChar(c);
    var t := e + u;
    assert t[..|e|] == e && t[|e|..] == u;
    if c < ' ' && c != '\U{0008}' && c != '\U{000C}' && c != '\n' && c != '\r' && c != '\t' {
      var hi, lo := c as int / 16, c as int % 16;
      assert e == "\\u00" + [HexDigitLower(hi), HexDigitLower(lo)];
      assert t[4] == HexDigitLower(hi) && t[5] == HexDigitLower(lo);
      assert HexDigitValue(t[4]) * 16 + HexDigitValue(t[5]) == c as int;
    }
  }

  /** UnquoteBody reads the escaped text of s back, up to the closing quote. */
  lemma {:induction false} UnquoteEscaped(s: string, u: string)
    ensures UnquoteBody(Escape(s) + ("\"" + u)) == Some((s, u))
    decreases |s|
  {
    if s == [] {
      assert Escape(s) + ("\"" + u) == "\"" + u;
      assert ("\"" + u)[1..] == u;
    } else {
      var rest := Escape(s[1..]) + ("\"" + u);
      assert Escape(s) + ("\"" + u) == EscapeChar(s[0]) + rest;
      UnescapeEscaped(s[0], rest);
      UnquoteEscaped(s[1..], u);
      assert [s[0]] + s[1..] == s;
    }
  }

  lemma ReadQuoted(s: string, u: string)
    ensures ReadString(Quote(s) + u) == Some((s, u))
  {
    assert Quote(s) + u == "\"" + (Escape(s) + ("\"" + u));
    ExpectLiteral("\"", Escape(s) + ("\"" + u));
    UnquoteEscaped(s, u);
  }

  lemma ReadBoolText(b: bool, u: string)
    ensures ReadBool(BoolText(b) + u) == Some((b, u))
  {
    ExpectLiteral(BoolText(b), u);
    if !b {
      assert (BoolText(b) + u)[0] == 'f';
    }
  }

  lemma ReadOccurrenceText(o: Occurrence, u: string)
    ensures ReadOccurrence(OccurrenceText(o) + u) == Some((o, u))
  {
    var w2 := "}" + u;
    var w1 := Quote(o.comment) + w2;
    var w0 := ",\"comment\":" + w1;
    var v := Quote(o.dateTime) + w0;
    assert OccurrenceText(o) + u == "{\"dateTime\":" + v;
    ExpectLiteral("{\"dateTime\":", v);
    ReadQuoted(o.dateTime, w0);
    ExpectLiteral(",\"comment\":", w1);
    ReadQuoted(o.comment, w2);
    ExpectLiteral("}", u);
  }

  /** Every reading of an item's text gives the item back, the rest untouched. */
  ghost predicate ReadsBack<T(!new)>(read: string -> Option<(T, string)>, text: T -> string) {
    && (forall x, w :: read(text(x) + w) == Some((x, w)))
    && (forall x :: |text(x)| >= 1 && text(x)[0] == '{')
  }

  /** ReadMore over a comma, an item and what follows it. */
  lemma ReadMoreComma<T>(read: string -> Option<(T, string)>, v: string, x: T, w: string, ys: seq<T>, u: string)
    requires Consumes(read)
    requires read(v) == Some((x, w)) && ReadMore(read, w) == Some((ys, u))
    ensures ReadMore(read, "," + v) == Some(([x] + ys, u))
  {
    assert ("," + v)[1..] == v;
  }

  /** ReadItems over an item and what follows it. */
  lemma ReadItemsFirst<T>(read: string -> Option<(T, string)>, t: string, x: T, w: string, ys: seq<T>, u: string)
    requires Consumes(read)
    requires |t| >= 1 && t[0] != ']'
    requires read(t) == Some((x, w)) && ReadMore(read, w) == Some((ys, u))
    ensures ReadItems(read, t) == Some(([x] + ys, u))
  {
  }

  lemma {:induction false} ReadMoreText<T(!new)>(read: string -> Option<(T, string)>, text: T -> string, ys: seq<T>, u: string)
    requires Consumes(read) && ReadsBack(read, text)
    ensures ReadMore(read, MoreItems(text, ys) + ("]" + u)) == Some((ys, u))
    decreases |ys|
  {
    if ys == [] {
      assert MoreItems(text, ys) + ("]" + u) == "]" + u;
      assert ("]" + u)[1..] == u;
    } else {
      var w := MoreItems(text, ys[1..]) + ("]" + u);
      var v := text(ys[0]) + w;
      assert Items(text, ys) == text(ys[0]) + MoreItems(text, ys[1..]);
      assert MoreItems(text, ys) + ("]" + u) == "," + v;
      assert read(v) == Some((ys[0], w));
      ReadMoreText(read, text, ys[1..], u);
      ReadMoreComma(read, v, ys[0], w, ys[1..], u);
      assert [ys[0]] + ys[1..] == ys;
    }
  }

  /** ReadItems reads back the items of an array written with Items, and the closing ']'. */
  lemma ReadItemsText<T(!new)>(read: string -> Option<(T, string)>, text: T -> string, xs: seq<T>, u: string)
    requires Consumes(read) && ReadsBack(read, text)
    ensures ReadItems(read, Items(text, xs) + ("]" + u)) == Some((xs, u))
  {
    if xs == [] {
      assert Items(text, xs) + ("]" + u) == "]" + u;
      assert ("]" + u)[1..] == u;
    } else {
      var w := MoreItems(text, xs[1..]) + ("]" + u);
      var t := text(xs[0]) + w;
      assert Items(text, xs) + ("]" + u) == t;
      assert t[0] == text(xs[0])[0];
      assert read(t) == Some((xs[0], w));
      ReadMoreText(read, text, xs[1..], u);
      ReadItemsFirst(read, t, xs[0], w, xs[1..], u);
      assert [xs[0]] + xs[1..] == xs;
    }
  }

  lemma OccurrencesReadBack()
    ensures Consumes(ReadOccurrence) && ReadsBack(ReadOccurrence, OccurrenceText)
  {
    forall o: Occurrence, w: string ensures ReadOccurrence(OccurrenceText(o) + w) == Some((o, w)) {
      ReadOccurrenceText(o, w);
    }
  }

  lemma EventTextOpens(e: Event)
    ensures |EventText(e)| >= 1 && EventText(e)[0] == '{'
  {
  }

  /** What follows the colour in the text of e, followed by u. */
  ghost function TailAfterColor(e: Event, u: string): string {
    ",\"icon\":" + (Quote(e.icon) + (",\"comment\":" + (Quote(e.comment)
    + (",\"favorite\":" + (BoolText(e.favorite)
    + (",\"data\":[" + (Items(OccurrenceText, e.data) + ("]}" + u))))))))
  }

  lemma AppendAssoc(a: string, b: string, c: string)
    ensures (a + b) + c == a + (b + c)
  {
  }

  /** Fifteen pieces written one after the other, then u, regrouped from the right. */
  lemma RightNested(p: seq<string>, u: string)
    requires |p| == 15
    ensures p[0] + p[1] + p[2] + p[3] + p[4] + p[5] + p[6] + p[7] + p[8] + p[9] + p[10] + p[11] + p[12] + p[13] + p[14] + u
         == p[0] + (p[1] + (p[2] + (p[3] + (p[4] + (p[5] + (p[6] + (p[7] + (p[8] + (p[9] + (p[10] + (p[11] + (p[12] + (p[13] + (p[14] + u))))))))))))))
  {
    var l1 := p[0];
    var l2 := l1 + p[1];
    var l3 := l2 + p[2];
    var l4 := l3 + p[3];
    var l5 := l4 + p[4];
    var l6 := l5 + p[5];
    var l7 := l6 + p[6];
    var l8 := l7 + p[7];
    var l9 := l8 + p[8];
    var l10 := l9 + p[9];
    var l11 := l10 + p[10];
    var l12 := l11 + p[11];
    var l13 := l12 + p[12];
    var l14 := l13 + p[13];
    var r14 := p[14] + u;
    var r13 := p[13] + r14;
    var r12 := p[12] + r13;
    var r11 := p[11] + r12;
    var r10 := p[10] + r11;
    var r9 := p[9] + r10;
    var r8 := p[8] + r9;
    var r7 := p[7] + r8;
    var r6 := p[6] + r7;
    var r5 := p[5] + r6;
    var r4 := p[4] + r5;
    var r3 := p[3] + r4;
    var r2 := p[2] + r3;
    var r1 := p[1] + r2;
    AppendAssoc(l14, p[14], u);
    AppendAssoc(l13, p[13], r14);
    AppendAssoc(l12, p[12], r13);
    AppendAssoc(l11, p[11], r12);
    AppendAssoc(l10, p[10], r11);
    AppendAssoc(l9, p[9], r10);
    AppendAssoc(l8, p[8], r9);
    AppendAssoc(l7, p[7], r8);
    AppendAssoc(l6, p[6], r7);
    AppendAssoc(l5, p[5], r6);
    AppendAssoc(l4, p[4], r5);
    AppendAssoc(l3, p[3], r4);
    AppendAssoc(l2, p[2], r3);
    AppendAssoc(l1, p[1], r2);
  }

  lemma EventTextSplit(e: Event, u: string)
    ensures EventText(e) + u == "{\"id\":" + (Quote(e.id) + (",\"name\":" + (Quote(e.name)
                               + (",\"color\":" + (Quote(e.color) + TailAfterColor(e, u))))))
  {
    var p := ["{\"id\":", Quote(e.id), ",\"name\":", Quote(e.name), ",\"color\":", Quote(e.color),
              ",\"icon\":", Quote(e.icon), ",\"comment\":", Quote(e.comment), ",\"favorite\":", BoolText(e.favorite),
              ",\"data\":[", Items(OccurrenceText, e.data), "]}"];
    RightNested(p, u);
  }

  lemma ReadEventTailText(e: Event, u: string)
    ensures ReadEventTail(e.id, e.name, e.color, TailAfterColor(e, u)) == Some((e, u))
  {
    var w8 := "}" + u;
    assert "]}" + u == "]" + w8;
    var w7 := Items(OccurrenceText, e.data) + ("]" + w8);
    var w6 := ",\"data\":[" + w7;
    var w5 := BoolText(e.favorite) + w6;
    var w4 := ",\"favorite\":" + w5;
    var v4 := Quote(e.comment) + w4;
    var w3 := ",\"comment\":" + v4;
    var v3 := Quote(e.icon) + w3;
    assert TailAfterColor(e, u) == ",\"icon\":" + v3;
    ExpectLiteral(",\"icon\":", v3);
    ReadQuoted(e.icon, w3);
    ExpectLiteral(",\"comment\":", v4);
    ReadQuoted(e.comment, w4);
    ExpectLiteral(",\"favorite\":", w5);
    ReadBoolText(e.favorite, w6);
    ExpectLiteral(",\"data\":[", w7);
    OccurrencesReadBack();
    ReadItemsText(ReadOccurrence, OccurrenceText, e.data, w8);
    ExpectLiteral("}", u);
  }

  lemma ReadEventText(e: Event, u: string)
    ensures ReadEvent(EventText(e) + u) == Some((e, u))
  {
    var tail := TailAfterColor(e, u);
    var v2 := Quote(e.color) + tail;
    var w1 := ",\"color\":" + v2;
    var v1 := Quote(e.name) + w1;
    var w0 := ",\"name\":" + v1;
    var v0 := Quote(e.id) + w0;
    EventTextSplit(e, u);
    ExpectLiteral("{\"id\":", v0);
    ReadQuoted(e.id, w0);
    ExpectLiteral(",\"name\":", v1);
    ReadQuoted(e.name, w1);
    ExpectLiteral(",\"color\":", v2);
    ReadQuoted(e.color, tail);
    ReadEventTailText(e, u);
  }

  lemma EventsReadBack()
    ensures Consumes(ReadEvent) && ReadsBack(ReadEvent, EventText)
  {
    forall e: Event, w: string ensures ReadEvent(EventText(e) + w) == Some((e, w)) {
      ReadEventText(e, w);
    }
    forall e: Event ensures |EventText(e)| >= 1 && EventText(e)[0] == '{' {
      EventTextOpens(e);
    }
  }

  /** What Stringify writes reads back as the same collection. */
  lemma StringifyReadsBack(events: seq<Event>)
    ensures ReadStringified(Stringify(events)) == Some(events)
  {
    var body := Items(EventText, events) + ("]" + "");
    assert Stringify(events) == "[" + body;
    ExpectLiteral("[", body);
    EventsReadBack();
    ReadItemsText(ReadEvent, EventText, events, "");
  }

  /** Different collections are never serialised to the same text. */
  lemma StringifyInjective(a: seq<Event>, b: seq<Event>)
    ensures Stringify(a) == Stringify(b) ==> a == b
  {
    StringifyReadsBack(a);
    StringifyReadsBack(b);
  }
}
