/**
  The records the app tracks (an event and its occurrences) and the
  JavaScript array operations the screens apply to them.
*/
module Events {

  /** One logged instance of an event: an ISO 8601 timestamp and a comment. */
  datatype Occurrence = Occurrence(dateTime: string, comment: string)

  /** A tracked event category with its occurrences in insertion order. */
  datatype Event = Event(
    id: string,
    name: string,
    color: string,
    icon: string,
    comment: string,
    favorite: bool,
    data: seq<Occurrence>)

  /** Array.prototype.findIndex: the first index whose element satisfies p, or -1. */
  function FindIndex<T>(s: seq<T>, p: T -> bool): (i: int)
    ensures -1 <= i < |s|
    ensures i == -1 <==> forall j :: 0 <= j < |s| ==> !p(s[j])
    ensures 0 <= i ==> p(s[i]) && forall j :: 0 <= j < i ==> !p(s[j])
    decreases |s|
  {
    if s == [] then -1
    else if p(s[0]) then 0
    else
      var k := FindIndex(s[1..], p);
      if k == -1 then -1 else k + 1
  }

  /** The index of the first event with the given id, or -1. */
  function EventIndex(events: seq<Event>, id: string): (i: int)
    ensures -1 <= i < |events|
    ensures i == -1 <==> forall j :: 0 <= j < |events| ==> events[j].id != id
    ensures 0 <= i ==> events[i].id == id && forall j :: 0 <= j < i ==> events[j].id != id
  {
    FindIndex(events, (ev: Event) => ev.id == id)
  }

  /** The index of the first occurrence equal in timestamp and comment to item, or -1. */
  function OccurrenceIndex(data: seq<Occurrence>, item: Occurrence): (i: int)
    ensures -1 <= i < |data|
    ensures i == -1 <==> item !in data
    ensures 0 <= i ==> data[i] == item && item !in data[..i]
  {
    FindIndex(data, (o: Occurrence) => o.dateTime == item.dateTime && o.comment == item.comment)
  }

  /** Array.prototype.filter: the elements satisfying p, in their original order. */
  function Filter<T>(s: seq<T>, p: T -> bool): (r: seq<T>)
    ensures |r| <= |s|
    ensures forall k :: 0 <= k < |r| ==> p(r[k])
    ensures forall x :: x in r ==> x in s
    decreases |s|
  {
    if s == [] then []
    else
      var init := Filter(s[..|s| - 1], p);
      assert forall x :: x in init ==> x in s by {
        forall x | x in init ensures x in s {
          assert x in s[..|s| - 1];
        }
      }
      init + (if p(s[|s| - 1]) then [s[|s| - 1]] else [])
  }

  /**
    The filtered elements are exactly those of s at strictly increasing
    positions idx, and every position whose element satisfies p is among them.
  */
  lemma {:induction false} FilterPositions<T>(s: seq<T>, p: T -> bool) returns (idx: seq<nat>)
    ensures |idx| == |Filter(s, p)|
    ensures forall k :: 0 <= k < |idx| ==> idx[k] < |s| && Filter(s, p)[k] == s[idx[k]]
    ensures forall k, l :: 0 <= k < l < |idx| ==> idx[k] < idx[l]
    ensures forall i :: 0 <= i < |s| && p(s[i]) ==> i in idx
    decreases |s|
  {
    if s == [] {
      idx := [];
    } else {
      var n := |s| - 1;
      var init := FilterPositions(s[..n], p);
      if p(s[n]) {
        idx := init + [n];
      } else {
        idx := init;
      }
    }
  }

  /** Filtering the extended sequence filters the prefix and then tests the new element. */
  lemma FilterAppend<T>(s: seq<T>, x: T, p: T -> bool)
    ensures Filter(s + [x], p) == Filter(s, p) + (if p(x) then [x] else [])
  {
    assert (s + [x])[..|s|] == s;
  }

  /** When every element satisfies p, filtering keeps the whole sequence. */
  lemma {:induction false} FilterAll<T>(s: seq<T>, p: T -> bool)
    requires forall i :: 0 <= i < |s| ==> p(s[i])
    ensures Filter(s, p) == s
    decreases |s|
  {
    if s != [] {
      FilterAll(s[..|s| - 1], p);
      assert s == s[..|s| - 1] + [s[|s| - 1]];
    }
  }

  predicate Distinct<T(==)>(s: seq<T>) {
    forall i, j :: 0 <= i < j < |s| ==> s[i] != s[j]
  }

  /** How many elements of s have key k. */
  function KeyCount<T, K(==)>(s: seq<T>, key: T -> K, k: K): nat {
    |Filter(s, (x: T) => key(x) == k)|
  }

  /** The counts of the keys ks, added up. */
  function SumOfCounts<T, K(==)>(s: seq<T>, key: T -> K, ks: seq<K>): nat
    decreases |ks|
  {
    if ks == [] then 0 else KeyCount(s, key, ks[0]) + SumOfCounts(s, key, ks[1..])
  }

  /** Counting over distinct keys that include every element's key counts each element once. */
  lemma {:induction false} CountsPartition<T, K>(s: seq<T>, key: T -> K, ks: seq<K>)
    requires Distinct(ks)
    requires forall i :: 0 <= i < |s| ==> key(s[i]) in ks
    ensures SumOfCounts(s, key, ks) == |s|
    decreases |s|
  {
    if s == [] {
      SumOfCountsOfNothing(key, ks);
    } else {
      var init := s[..|s| - 1];
      assert s == init + [s[|s| - 1]];
      assert forall i :: 0 <= i < |init| ==> init[i] == s[i];
      CountsPartition(init, key, ks);
      SumOfCountsAppend(init, s[|s| - 1], key, ks);
    }
  }

  lemma {:induction false} SumOfCountsOfNothing<T, K>(key: T -> K, ks: seq<K>)
    ensures SumOfCounts([], key, ks) == 0
    decreases |ks|
  {
    if ks != [] {
      SumOfCountsOfNothing(key, ks[1..]);
    }
  }

  /** One more element adds one to the sum when its key is among the distinct keys ks. */
  lemma {:induction false} SumOfCountsAppend<T, K>(s: seq<T>, x: T, key: T -> K, ks: seq<K>)
    requires Distinct(ks)
    ensures SumOfCounts(s + [x], key, ks) == SumOfCounts(s, key, ks) + (if key(x) in ks then 1 else 0)
    decreases |ks|
  {
    if ks != [] {
      FilterAppend(s, x, (y: T) => key(y) == ks[0]);
      assert Distinct(ks[1..]);
      SumOfCountsAppend(s, x, key, ks[1..]);
      assert key(x) in ks <==> key(x) == ks[0] || key(x) in ks[1..];
    }
  }

  /** arr.splice(i, 1): the array without its element at i, the others in order. */
  function RemoveAt<T>(s: seq<T>, i: nat): (r: seq<T>)
    requires i < |s|
    ensures |r| == |s| - 1
    ensures forall j :: 0 <= j < i ==> r[j] == s[j]
    ensures forall j :: i <= j < |r| ==> r[j] == s[j + 1]
    ensures multiset(r) + multiset{s[i]} == multiset(s)
  {
    assert s == s[..i] + [s[i]] + s[i + 1..];
    s[..i] + s[i + 1..]
  }
}
