/**
  The event detail screen: the by-year and by-month analytics of one
  event's occurrences, and the deletion of one occurrence.
*/
module ModalEvent {
  import opened Wrappers
  import opened Calendar
  import opened Events
  import opened MainStore
  import JsonText

  /** One bar of the monthly bar chart. */
  datatype Bar = Bar(value: nat, monthLabel: string)

  /** The analytics of one calendar year: its occurrences and its non-empty months. */
  datatype YearStats = YearStats(year: int, events: seq<Occurrence>, barData: seq<Bar>)

  const MonthLabels: seq<string> :=
    ["Jan.", "Feb.", "Mar.", "Apr.", "May", "Jun.", "Jul.", "Aug.", "Sep.", "Oct.", "Nov.", "Dec."]

  /** Every occurrence's timestamp reads as a valid local date. */
  predicate Dated(data: seq<Occurrence>, cal: LocalCalendar) {
    forall i :: 0 <= i < |data| ==> cal(data[i].dateTime).Some?
  }

  predicate InYear(o: Occurrence, cal: LocalCalendar, y: int) {
    cal(o.dateTime).Some? && cal(o.dateTime).value.year == y
  }

  predicate InMonth(o: Occurrence, cal: LocalCalendar, m: MonthIndex) {
    cal(o.dateTime).Some? && cal(o.dateTime).value.month == m
  }

  /** The occurrences of year y, in input order. */
  function OfYear(data: seq<Occurrence>, cal: LocalCalendar, y: int): seq<Occurrence> {
    Filter(data, (o: Occurrence) => InYear(o, cal, y))
  }

  /** How many of the occurrences fall in month m. */
  function MonthCount(events: seq<Occurrence>, cal: LocalCalendar, m: MonthIndex): nat {
    |Filter(events, (o: Occurrence) => InMonth(o, cal, m))|
  }

  /** The years in which the valid timestamps fall. */
  function YearsOf(data: seq<Occurrence>, cal: LocalCalendar): set<int>
    decreases |data|
  {
    if data == [] then {}
    else
      var last := cal(data[|data| - 1].dateTime);
      YearsOf(data[..|data| - 1], cal) + (if last.Some? then {last.value.year} else {})
  }

  /** All twelve months with their counts and labels, January first. */
  function MonthBars(events: seq<Occurrence>, cal: LocalCalendar): (bars: seq<Bar>)
    ensures |bars| == 12
  {
    seq(12, m requires 0 <= m < 12 => Bar(MonthCount(events, cal, m), MonthLabels[m]))
  }

  function PositiveBars(bars: seq<Bar>): seq<Bar> {
    Filter(bars, (b: Bar) => b.value > 0)
  }

  /** The bar chart of a year: the months whose count is positive. */
  function BarData(events: seq<Occurrence>, cal: LocalCalendar): seq<Bar> {
    PositiveBars(MonthBars(events, cal))
  }

  predicate StrictlyDescending(s: seq<int>) {
    forall i, j :: 0 <= i < j < |s| ==> s[i] > s[j]
  }

  /** In a strictly descending sequence every later element is below the first. */
  lemma TailBelowHead(s: seq<int>)
    requires StrictlyDescending(s)
    ensures s != [] ==> forall e :: e in s[1..] ==> e < s[0]
  {
    if s != [] {
      forall e | e in s[1..] ensures e < s[0] {
        var j :| 0 <= j < |s[1..]| && s[1..][j] == e;
        assert s[j + 1] == e;
      }
    }
  }

  /** A value above every element of a strictly descending sequence can go in front of it. */
  lemma PrependDescending(h: int, t: seq<int>)
    requires StrictlyDescending(t)
    requires forall e :: e in t ==> e < h
    ensures StrictlyDescending([h] + t)
  {
    var r := [h] + t;
    forall i, j | 0 <= i < j < |r| ensures r[i] > r[j] {
      assert r[j] == t[j - 1] && r[j] in t;
      if i > 0 {
        assert r[i] == t[i - 1];
      }
    }
  }

  function InsertDescending(x: int, s: seq<int>): (r: seq<int>)
    requires StrictlyDescending(s) && x !in s
    ensures StrictlyDescending(r)
    ensures |r| == |s| + 1
    ensures forall e :: e in r <==> e in s || e == x
    decreases |s|
  {
    TailBelowHead(s);
    if s == [] || x > s[0] then
      assert s != [] ==> s == [s[0]] + s[1..];
      PrependDescending(x, s);
      [x] + s
    else
      assert s == [s[0]] + s[1..];
      var t := InsertDescending(x, s[1..]);
      PrependDescending(s[0], t);
      [s[0]] + t
  }

  /** The keys sorted with the comparator (a, b) => b - a: most recent year first. */
  function SortDescending(s: seq<int>): (r: seq<int>)
    requires Distinct(s)
    ensures StrictlyDescending(r)
    ensures |r| == |s|
    ensures forall e :: e in r <==> e in s
    decreases |s|
  {
    if s == [] then [] else InsertDescending(s[0], SortDescending(s[1..]))
  }

  /**
    What updateYearlyStats promises for valid timestamps: one entry per year
    with data, most recent first; each holds exactly its year's occurrences
    in input order, and the bar chart of their months.
  */
  ghost predicate IsYearlyStats(data: seq<Occurrence>, cal: LocalCalendar, stats: seq<YearStats>) {
    && (forall i, j :: 0 <= i < j < |stats| ==> stats[i].year > stats[j].year)
    && (set k | 0 <= k < |stats| :: stats[k].year) == YearsOf(data, cal)
    && (forall k :: 0 <= k < |stats| ==> stats[k].events == OfYear(data, cal, stats[k].year))
    && (forall k :: 0 <= k < |stats| ==> stats[k].barData == BarData(stats[k].events, cal))
  }

  /**
    The per-month counting loop of updateYearlyStats over one year's
    occurrences (months[m].value += 1).
  */
  method CountMonths(events: seq<Occurrence>, cal: LocalCalendar) returns (counts: seq<nat>)
    requires Dated(events, cal)
    ensures |counts| == 12
    ensures forall m :: 0 <= m < 12 ==> counts[m] == MonthCount(events, cal, m)
  {
    counts := seq(12, _ => 0);
    for j := 0 to |events|
      invariant |counts| == 12
      invariant forall m :: 0 <= m < 12 ==> counts[m] == MonthCount(events[..j], cal, m)
    {
      var month := cal(events[j].dateTime).value.month;
      forall m: MonthIndex
        ensures MonthCount(events[..j + 1], cal, m) == MonthCount(events[..j], cal, m) + (if m == month then 1 else 0)
      {
        assert events[..j + 1] == events[..j] + [events[j]];
        FilterAppend(events[..j], events[j], (o: Occurrence) => InMonth(o, cal, m));
      }
      counts := counts[month := counts[month] + 1];
    }
    assert events[..|events|] == events;
  }

  /**
    The grouping loop of updateYearlyStats: each valid timestamp's
    occurrence is appended to the group of its local year, the years kept
    in first-seen order; invalid records whether some timestamp had no year.
  */
  method GroupByYear(data: seq<Occurrence>, cal: LocalCalendar)
    returns (byYear: map<int, seq<Occurrence>>, years: seq<int>, invalid: bool)
    ensures Distinct(years)
    ensures forall y :: y in byYear <==> y in years
    ensures forall y :: y in years <==> y in YearsOf(data, cal)
    ensures forall y :: y in byYear ==> byYear[y] == OfYear(data, cal, y)
    ensures invalid <==> !Dated(data, cal)
  {
    byYear := map[];
    years := [];
    invalid := false;
    for i := 0 to |data|
      invariant Distinct(years)
      invariant forall y :: y in byYear <==> y in years
      invariant forall y :: y in years <==> y in YearsOf(data[..i], cal)
      invariant forall y :: y in byYear ==> byYear[y] == OfYear(data[..i], cal, y)
      invariant invalid <==> !Dated(data[..i], cal)
    {
      var o := data[i];
      assert data[..i + 1] == data[..i] + [o];
      AppendOne(data[..i], o, cal);
      var d := cal(o.dateTime);
      if d.None? {
        // getFullYear() is NaN: the occurrence is grouped under NaN
        invalid := true;
      } else {
        var y := d.value.year;
        if y !in byYear {
          OfYearEmpty(data[..i], cal, y);
          byYear := byYear[y := []];
          years := years + [y];
        }
        byYear := byYear[y := byYear[y] + [o]];
      }
    }
    assert data[..|data|] == data;
  }

  /** How one more occurrence changes the years, the year groups and validity. */
  lemma AppendOne(data: seq<Occurrence>, o: Occurrence, cal: LocalCalendar)
    ensures YearsOf(data + [o], cal) == YearsOf(data, cal) + (if cal(o.dateTime).Some? then {cal(o.dateTime).value.year} else {})
    ensures Dated(data + [o], cal) <==> Dated(data, cal) && cal(o.dateTime).Some?
    ensures forall y :: OfYear(data + [o], cal, y) == OfYear(data, cal, y) + (if InYear(o, cal, y) then [o] else [])
  {
    assert (data + [o])[..|data|] == data;
    forall y
      ensures OfYear(data + [o], cal, y) == OfYear(data, cal, y) + (if InYear(o, cal, y) then [o] else [])
    {
      FilterAppend(data, o, (o': Occurrence) => InYear(o', cal, y));
    }
    if Dated(data + [o], cal) {
      forall i | 0 <= i < |data| ensures cal(data[i].dateTime).Some? {
        assert (data + [o])[i] == data[i];
      }
    }
  }

  /**
    updateYearlyStats(data): group by local year with a Map, sort the years
    in descending order, count each year's months. A timestamp that gives
    an Invalid Date makes the month lookup throw, so no statistics result.
  */
  method UpdateYearlyStats(data: seq<Occurrence>, cal: LocalCalendar) returns (stats: Option<seq<YearStats>>)
    ensures stats.None? <==> !Dated(data, cal)
    ensures stats.Some? ==> IsYearlyStats(data, cal, stats.value)
  {
    var byYear, years, invalid := GroupByYear(data, cal);
    if invalid {
      // months[NaN] is undefined: incrementing its value throws a TypeError
      return None;
    }
    var sorted := SortDescending(years);
    var out: seq<YearStats> := [];
    for k := 0 to |sorted|
      invariant |out| == k
      invariant forall q :: 0 <= q < k ==> out[q].year == sorted[q]
      invariant forall q :: 0 <= q < k ==> out[q].events == OfYear(data, cal, sorted[q])
      invariant forall q :: 0 <= q < k ==> out[q].barData == BarData(out[q].events, cal)
    {
      var y := sorted[k];
      var entry := YearEntry(y, byYear[y], cal);
      out := out + [entry];
    }
    StatsOfSortedYears(data, cal, sorted, out);
    stats := Some(out);
  }

  /** Entries built year by year along the sorted years form the yearly statistics. */
  lemma StatsOfSortedYears(data: seq<Occurrence>, cal: LocalCalendar, sorted: seq<int>, out: seq<YearStats>)
    requires StrictlyDescending(sorted)
    requires forall y :: y in sorted <==> y in YearsOf(data, cal)
    requires |out| == |sorted|
    requires forall q :: 0 <= q < |out| ==> out[q].year == sorted[q]
    requires forall q :: 0 <= q < |out| ==> out[q].events == OfYear(data, cal, sorted[q])
    requires forall q :: 0 <= q < |out| ==> out[q].barData == BarData(out[q].events, cal)
    ensures IsYearlyStats(data, cal, out)
  {
    var listed := set q | 0 <= q < |out| :: out[q].year;
    var ys := YearsOf(data, cal);
    assert listed <= ys by {
      forall y | y in listed ensures y in ys {
        var q :| 0 <= q < |out| && out[q].year == y;
        assert sorted[q] in sorted;
      }
    }
    assert ys <= listed by {
      forall y | y in ys ensures y in listed {
        assert y in sorted;
        var q :| 0 <= q < |sorted| && sorted[q] == y;
        assert out[q].year == y;
      }
    }
  }

  /** The statistics of one year: its occurrences and the bar chart of their non-empty months. */
  method YearEntry(y: int, eventsOfYear: seq<Occurrence>, cal: LocalCalendar) returns (entry: YearStats)
    requires forall i :: 0 <= i < |eventsOfYear| ==> InYear(eventsOfYear[i], cal, y)
    ensures entry.year == y && entry.events == eventsOfYear
    ensures entry.barData == BarData(eventsOfYear, cal)
  {
    var counts := CountMonths(eventsOfYear, cal);
    var months := seq(12, m requires 0 <= m < 12 => Bar(counts[m], MonthLabels[m]));
    assert months == MonthBars(eventsOfYear, cal);
    entry := YearStats(y, eventsOfYear, PositiveBars(months));
  }

  /** A year without valid timestamps has no occurrences. */
  lemma {:induction false} OfYearEmpty(data: seq<Occurrence>, cal: LocalCalendar, y: int)
    requires y !in YearsOf(data, cal)
    ensures OfYear(data, cal, y) == []
    decreases |data|
  {
    if data != [] {
      var init := data[..|data| - 1];
      assert data == init + [data[|data| - 1]];
      FilterAppend(init, data[|data| - 1], (o: Occurrence) => InYear(o, cal, y));
      OfYearEmpty(init, cal, y);
    }
  }

  function TotalEvents(stats: seq<YearStats>): nat
    decreases |stats|
  {
    if stats == [] then 0 else |stats[0].events| + TotalEvents(stats[1..])
  }

  function SumValues(bars: seq<Bar>): nat
    decreases |bars|
  {
    if bars == [] then 0 else SumValues(bars[..|bars| - 1]) + bars[|bars| - 1].value
  }

  /** The occurrences of the years listed in ys, counted year by year. */
  function CountOverYears(data: seq<Occurrence>, cal: LocalCalendar, ys: seq<int>): nat
    decreases |ys|
  {
    if ys == [] then 0 else |OfYear(data, cal, ys[0])| + CountOverYears(data, cal, ys[1..])
  }

  /** The yearly groups together hold every occurrence exactly once: their sizes sum to data.length. */
  lemma YearlyStatsPartition(data: seq<Occurrence>, cal: LocalCalendar, stats: seq<YearStats>)
    requires Dated(data, cal)
    requires IsYearlyStats(data, cal, stats)
    ensures TotalEvents(stats) == |data|
  {
    var ys := seq(|stats|, k requires 0 <= k < |stats| => stats[k].year);
    TotalIsCountOverYears(data, cal, stats, ys);
    assert Distinct(ys);
    forall y | y in YearsOf(data, cal) ensures y in ys {
      assert y in (set k | 0 <= k < |stats| :: stats[k].year);
      var k :| 0 <= k < |stats| && stats[k].year == y;
      assert ys[k] == y;
    }
    CountOverYearsIsLength(data, cal, ys);
  }

  lemma {:induction false} TotalIsCountOverYears(data: seq<Occurrence>, cal: LocalCalendar, stats: seq<YearStats>, ys: seq<int>)
    requires |ys| == |stats|
    requires forall k :: 0 <= k < |stats| ==> ys[k] == stats[k].year && stats[k].events == OfYear(data, cal, ys[k])
    ensures TotalEvents(stats) == CountOverYears(data, cal, ys)
    decreases |stats|
  {
    if stats != [] {
      TotalIsCountOverYears(data, cal, stats[1..], ys[1..]);
    }
  }

  /** Counting over distinct years that include every year of data counts each occurrence once. */
  lemma {:induction false} CountOverYearsIsLength(data: seq<Occurrence>, cal: LocalCalendar, ys: seq<int>)
    requires Dated(data, cal)
    requires Distinct(ys)
    requires forall y :: y in YearsOf(data, cal) ==> y in ys
    ensures CountOverYears(data, cal, ys) == |data|
    decreases |data|
  {
    if data == [] {
      CountOverYearsOfNothing(cal, ys);
    } else {
      var init := data[..|data| - 1];
      var o := data[|data| - 1];
      assert data == init + [o];
      assert Dated(init, cal) by {
        forall i | 0 <= i < |init| ensures cal(init[i].dateTime).Some? {
          assert init[i] == data[i];
        }
      }
      assert YearsOf(data, cal) == YearsOf(init, cal) + {cal(o.dateTime).value.year};
      CountOverYearsIsLength(init, cal, ys);
      CountOverYearsAppend(init, o, cal, ys);
    }
  }

  lemma {:induction false} CountOverYearsOfNothing(cal: LocalCalendar, ys: seq<int>)
    ensures CountOverYears([], cal, ys) == 0
    decreases |ys|
  {
    if ys != [] {
      CountOverYearsOfNothing(cal, ys[1..]);
    }
  }

  /** One more occurrence adds one to the count when its year is among ys, which are distinct. */
  lemma {:induction false} CountOverYearsAppend(data: seq<Occurrence>, o: Occurrence, cal: LocalCalendar, ys: seq<int>)
    requires Distinct(ys)
    requires cal(o.dateTime).Some?
    ensures CountOverYears(data + [o], cal, ys)
         == CountOverYears(data, cal, ys) + (if cal(o.dateTime).value.year in ys then 1 else 0)
    decreases |ys|
  {
    if ys != [] {
      FilterAppend(data, o, (o': Occurrence) => InYear(o', cal, ys[0]));
      assert Distinct(ys[1..]);
      CountOverYearsAppend(data, o, cal, ys[1..]);
      assert cal(o.dateTime).value.year in ys <==> cal(o.dateTime).value.year == ys[0] || cal(o.dateTime).value.year in ys[1..];
    }
  }

  /** The bar values of a year add up to the number of its occurrences. */
  lemma BarDataTotal(events: seq<Occurrence>, cal: LocalCalendar)
    requires Dated(events, cal)
    ensures SumValues(BarData(events, cal)) == |events|
  {
    var bars := MonthBars(events, cal);
    PositiveBarsSum(bars);
    MonthsSum(events, cal, 12);
    assert bars[..12] == bars;
    FilterAll(events, (o: Occurrence) => MonthBefore(o, cal, 12));
  }

  /** Dropping the empty months does not change the total. */
  lemma {:induction false} PositiveBarsSum(bars: seq<Bar>)
    ensures SumValues(PositiveBars(bars)) == SumValues(bars)
    decreases |bars|
  {
    if bars != [] {
      var init := bars[..|bars| - 1];
      assert bars == init + [bars[|bars| - 1]];
      FilterAppend(init, bars[|bars| - 1], (b: Bar) => b.value > 0);
      PositiveBarsSum(init);
      SumValuesAppend(PositiveBars(init), if bars[|bars| - 1].value > 0 then [bars[|bars| - 1]] else []);
    }
  }

  lemma SumValuesAppend(a: seq<Bar>, b: seq<Bar>)
    requires |b| <= 1
    ensures SumValues(a + b) == SumValues(a) + SumValues(b)
  {
    if |b| == 1 {
      assert (a + b)[..|a + b| - 1] == a;
    } else {
      assert a + b == a;
    }
  }

  predicate MonthBefore(o: Occurrence, cal: LocalCalendar, k: int) {
    cal(o.dateTime).Some? && cal(o.dateTime).value.month < k
  }

  /** The counts of the first k months add up to the occurrences falling in those months. */
  lemma {:induction false} MonthsSum(events: seq<Occurrence>, cal: LocalCalendar, k: nat)
    requires k <= 12
    ensures SumValues(MonthBars(events, cal)[..k]) == |Filter(events, (o: Occurrence) => MonthBefore(o, cal, k))|
    decreases k
  {
    var bars := MonthBars(events, cal);
    if k == 0 {
      EmptyFilter(events, (o: Occurrence) => MonthBefore(o, cal, 0));
    } else {
      MonthsSum(events, cal, k - 1);
      assert bars[..k][..k - 1] == bars[..k - 1];
      FilterSplit(events, (o: Occurrence) => MonthBefore(o, cal, k), (o: Occurrence) => MonthBefore(o, cal, k - 1),
                  (o: Occurrence) => InMonth(o, cal, k - 1));
    }
  }

  lemma {:induction false} EmptyFilter<T>(s: seq<T>, p: T -> bool)
    requires forall i :: 0 <= i < |s| ==> !p(s[i])
    ensures Filter(s, p) == []
    decreases |s|
  {
    if s != [] {
      EmptyFilter(s[..|s| - 1], p);
    }
  }

  /** When p holds exactly where one of the exclusive q and r holds, |filter p| = |filter q| + |filter r|. */
  lemma {:induction false} FilterSplit<T>(s: seq<T>, p: T -> bool, q: T -> bool, r: T -> bool)
    requires forall i :: 0 <= i < |s| ==> (p(s[i]) <==> q(s[i]) || r(s[i]))
    requires forall i :: 0 <= i < |s| ==> !(q(s[i]) && r(s[i]))
    ensures |Filter(s, p)| == |Filter(s, q)| + |Filter(s, r)|
    decreases |s|
  {
    if s != [] {
      var init := s[..|s| - 1];
      assert forall i :: 0 <= i < |init| ==> init[i] == s[i];
      FilterSplit(init, p, q, r);
    }
  }

  /**
    The bar chart lists, from January to December, exactly the months with
    a positive count, each with its count and its fixed label.
  */
  lemma BarDataMonths(events: seq<Occurrence>, cal: LocalCalendar) returns (months: seq<int>)
    ensures |months| == |BarData(events, cal)|
    ensures forall k, l :: 0 <= k < l < |months| ==> months[k] < months[l]
    ensures forall k :: 0 <= k < |months| ==>
              (&& 0 <= months[k] < 12
               && BarData(events, cal)[k] == Bar(MonthCount(events, cal, months[k]), MonthLabels[months[k]])
               && MonthCount(events, cal, months[k]) > 0)
    ensures forall m :: 0 <= m < 12 && MonthCount(events, cal, m) > 0 ==> m in months
  {
    var bars := MonthBars(events, cal);
    var idx := FilterPositions(bars, (b: Bar) => b.value > 0);
    months := seq(|idx|, k requires 0 <= k < |idx| => idx[k] as int);
    forall m | 0 <= m < 12 && MonthCount(events, cal, m) > 0 ensures m in months {
      assert bars[m].value > 0;
      assert m in idx;
      var k :| 0 <= k < |idx| && idx[k] == m;
      assert months[k] == m;
    }
    forall k | 0 <= k < |months|
      ensures BarData(events, cal)[k] == Bar(MonthCount(events, cal, months[k]), MonthLabels[months[k]])
      ensures MonthCount(events, cal, months[k]) > 0
    {
      assert BarData(events, cal)[k] in BarData(events, cal);
    }
  }

  /**
    The collection removeEvent(item) stores for the event with the given
    id, or None when it stores nothing: no event has the id, or no
    occurrence matches item in both timestamp and comment.
  */
  function RemoveOccurrence(events: seq<Event>, id: string, item: Occurrence): (r: Option<seq<Event>>)
    ensures r.None? <==> EventIndex(events, id) == -1 || item !in events[EventIndex(events, id)].data
    ensures r.Some? ==>
      var e := EventIndex(events, id);
      var before := events[e].data;
      var k := OccurrenceIndex(before, item);
      && |r.value| == |events|
      && (forall j :: 0 <= j < |events| && j != e ==> r.value[j] == events[j])
      && r.value[e] == events[e].(data := before[..k] + before[k + 1..])
      && item !in before[..k]
      && multiset(r.value[e].data) + multiset{item} == multiset(before)
  {
    var e := EventIndex(events, id);
    if e == -1 then None
    else
      var k := OccurrenceIndex(events[e].data, item);
      if k == -1 then None
      else Some(events[e := events[e].(data := RemoveAt(events[e].data, k))])
  }

  /**
    removeEvent(item): delete from the current event the first occurrence
    with the same timestamp and comment, and store the collection only when
    one was deleted.
  */
  method RemoveEvent(store: EventStore, id: string, item: Occurrence) returns (removed: bool)
    requires store.Valid()
    modifies store
    ensures store.Valid()
    ensures removed <==> RemoveOccurrence(old(store.eventsData), id, item).Some?
    ensures removed ==> store.eventsData == RemoveOccurrence(old(store.eventsData), id, item).value
    ensures removed ==> store.writes == old(store.writes) + [StorageWrite(StorageKey, JsonText.Stringify(store.eventsData))]
    ensures !removed ==> store.eventsData == old(store.eventsData) && store.writes == old(store.writes)
  {
    var eventIndex := EventIndex(store.eventsData, id);
    if eventIndex == -1 {
      return false;
    }
    var newEventData := store.eventsData;
    var target := newEventData[eventIndex];
    var dataIndex := OccurrenceIndex(target.data, item);
    if dataIndex != -1 {
      newEventData := newEventData[eventIndex := target.(data := RemoveAt(target.data, dataIndex))];
      store.SetEventsData(newEventData);
      removed := true;
    } else {
      removed := false;
    }
  }
}
