/**
  The add-occurrence screen: it opens only for an existing event and
  appends one timestamped occurrence to that event.
*/
module ModalAddEvent {
  import opened Wrappers
  import opened Events
  import opened MainStore
  import ModalEvent
  import JsonText

  /**
    The mount check: the title shown for the event with the given id (the
    first one in the collection), or None when the screen alerts that the
    event is not found and navigates back.
  */
  function EventTitle(events: seq<Event>, id: string): (r: Option<string>)
    ensures r.None? <==> forall j :: 0 <= j < |events| ==> events[j].id != id
    ensures r.Some? ==> exists j :: 0 <= j < |events| && events[j].id == id && events[j].name == r.value
                                   && forall i :: 0 <= i < j ==> events[i].id != id
  {
    var e := EventIndex(events, id);
    if e == -1 then None else Some(events[e].name)
  }

  /**
    The collection addEvent stores: the event with the given id has the
    occurrence appended to its data, and nothing else differs.
  */
  function AppendOccurrence(events: seq<Event>, id: string, occurrence: Occurrence): (r: seq<Event>)
    requires EventIndex(events, id) != -1
    ensures |r| == |events|
    ensures forall j :: 0 <= j < |events| && j != EventIndex(events, id) ==> r[j] == events[j]
    ensures var e := EventIndex(events, id);
      && |r[e].data| == |events[e].data| + 1
      && r[e].data[..|events[e].data|] == events[e].data
      && r[e].data[|events[e].data|] == occurrence
      && r[e].(data := events[e].data) == events[e]
  {
    var e := EventIndex(events, id);
    events[e := events[e].(data := events[e].data + [occurrence])]
  }

  /**
    addEvent(): append {dateTime: selectedDate.toISOString(), comment} to
    the current event and store the collection. The ISO timestamp of the
    picked date is given as text.
  */
  method AddEvent(store: EventStore, id: string, isoDateTime: string, comment: string)
    requires store.Valid()
    requires EventIndex(store.eventsData, id) != -1
    modifies store
    ensures store.Valid()
    ensures store.eventsData == AppendOccurrence(old(store.eventsData), id, Occurrence(isoDateTime, comment))
    ensures store.writes == old(store.writes) + [StorageWrite(StorageKey, JsonText.Stringify(store.eventsData))]
  {
    var newEventsData := store.eventsData;
    var index := EventIndex(newEventsData, id);
    var target := newEventsData[index];
    newEventsData := newEventsData[index := target.(data := target.data + [Occurrence(isoDateTime, comment)])];
    store.SetEventsData(newEventsData);
  }

  /**
    Deleting an occurrence that was just added, and that the event did not
    hold before, gives back the collection as it was.
  */
  lemma AddThenRemove(events: seq<Event>, id: string, occurrence: Occurrence)
    requires EventIndex(events, id) != -1
    requires occurrence !in events[EventIndex(events, id)].data
    ensures ModalEvent.RemoveOccurrence(AppendOccurrence(events, id, occurrence), id, occurrence) == Some(events)
  {
    var e := EventIndex(events, id);
    var added := AppendOccurrence(events, id, occurrence);
    var before := events[e].data;
    assert added[e].data == before + [occurrence];
    SameIdsSameIndex(events, added, id);
    AppendedIsFirstMatch(before, occurrence);
    var removed := ModalEvent.RemoveOccurrence(added, id, occurrence).value;
    assert (before + [occurrence])[..|before|] == before;
    assert removed[e] == events[e];
    assert removed == events;
  }

  /** Collections whose events carry the same ids in the same places find an id at the same index. */
  lemma SameIdsSameIndex(events: seq<Event>, other: seq<Event>, id: string)
    requires |other| == |events|
    requires forall j :: 0 <= j < |events| ==> other[j].id == events[j].id
    ensures EventIndex(other, id) == EventIndex(events, id)
  {
  }

  /** An occurrence appended to data it is not in is found at the end. */
  lemma AppendedIsFirstMatch(before: seq<Occurrence>, occurrence: Occurrence)
    requires occurrence !in before
    ensures OccurrenceIndex(before + [occurrence], occurrence) == |before|
  {
    var k := OccurrenceIndex(before + [occurrence], occurrence);
    assert (before + [occurrence])[..|before|] == before;
  }
}
