/**
  The zustand store that holds the event collection. Its one mutation
  replaces the whole collection and writes the serialised collection to
  AsyncStorage under a fixed key; the writes are kept as a log.
*/
module MainStore {
  import opened Wrappers
  import opened Events
  import JsonText

  /** The AsyncStorage key of the persisted collection. */
  const StorageKey: string := "eventsData"

  /** One AsyncStorage.setItem(key, value) call. */
  datatype StorageWrite = StorageWrite(key: string, value: string)

  /** The index of the latest write to key in the log, or -1 when the key was never written. */
  function LastWrite(writes: seq<StorageWrite>, key: string): (i: int)
    ensures -1 <= i < |writes|
    ensures i == -1 <==> forall j :: 0 <= j < |writes| ==> writes[j].key != key
    ensures 0 <= i ==> writes[i].key == key && forall j :: i < j < |writes| ==> writes[j].key != key
    decreases |writes|
  {
    if writes == [] then -1
    else if writes[|writes| - 1].key == key then |writes| - 1
    else LastWrite(writes[..|writes| - 1], key)
  }

  /**
    What AsyncStorage.getItem(key) yields after the writes of the log, given
    what the key held before them: the last write wins.
  */
  function StoredValue(before: Option<string>, writes: seq<StorageWrite>, key: string): Option<string> {
    var i := LastWrite(writes, key);
    if i == -1 then before else Some(writes[i].value)
  }

  class EventStore {
    /** The collection every screen reads. */
    var eventsData: seq<Event>
    /** The AsyncStorage.setItem calls made so far, oldest first. */
    var writes: seq<StorageWrite>

    /** Every write went to the collection's key, and the latest one holds the current collection. */
    ghost predicate Valid()
      reads this
    {
      && (forall i :: 0 <= i < |writes| ==> writes[i].key == StorageKey)
      && (writes == [] ==> eventsData == [])
      && (writes != [] ==> writes[|writes| - 1].value == JsonText.Stringify(eventsData))
    }

    /** The store starts with an empty collection and writes nothing. */
    constructor ()
      ensures Valid()
      ensures eventsData == [] && writes == []
    {
      eventsData := [];
      writes := [];
    }

    /** setEventsData(data): replace the collection and persist JSON.stringify(data). */
    method SetEventsData(data: seq<Event>)
      requires Valid()
      modifies this
      ensures Valid()
      ensures eventsData == data
      ensures writes == old(writes) + [StorageWrite(StorageKey, JsonText.Stringify(data))]
      ensures data == [] ==> writes[|writes| - 1].value == "[]"
    {
      var text := JsonText.Stringify(data);
      assert data == [] ==> text == "[]";
      eventsData := data;
      writes := writes + [StorageWrite(StorageKey, text)];
    }

    /** AsyncStorage.getItem('eventsData'), given what the key held before this session's writes. */
    function StoredText(before: Option<string>): (v: Option<string>)
      reads this
      requires Valid()
      ensures writes == [] ==> v == before
      ensures writes != [] ==> v == Some(JsonText.Stringify(eventsData))
    {
      StoredValue(before, writes, StorageKey)
    }
  }

  /** Two successive replacements: the second value wins outright, and two writes are logged in call order. */
  method ReplaceTwice(first: seq<Event>, second: seq<Event>) returns (store: EventStore)
    ensures store.Valid()
    ensures store.eventsData == second
    ensures store.writes == [StorageWrite(StorageKey, JsonText.Stringify(first)),
                             StorageWrite(StorageKey, JsonText.Stringify(second))]
  {
    store := new EventStore();
    store.SetEventsData(first);
    store.SetEventsData(second);
  }
}
