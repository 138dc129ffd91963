/**
  The weekly heatmap of one event: the months that have occurrences, a
  zero for every day of those months, the per-day occurrence counts laid
  over them, and the day the heatmap starts from.
*/
module Heatmap {
  import opened Wrappers
  import opened Text
  import opened Calendar
  import opened Events
  import ModalEvent

  /** The error date-fns format throws for an Invalid Date. */
  const InvalidTimeValue: string := "RangeError: Invalid time value"

  /** The year date-fns writes for 'yyyy': the year of the era, so 1 BC is year 1. */
  function EraYear(year: int): (y: nat)
    ensures y >= 1
    ensures year >= 1 ==> y == year
  {
    if year > 0 then year else 1 - year
  }

  /** format(date, 'yyyy-MM') for the date with these local fields. */
  function MonthText(year: int, month: MonthIndex): string {
    ZeroPad(EraYear(year), 4) + "-" + ZeroPad(month + 1, 2)
  }

  /** format(date, 'yyyy-MM'): the month key of a date. */
  function MonthKey(date: LocalDate): string {
    MonthText(date.year, date.month)
  }

  /** format(date, 'yyyy-MM-dd') for the date with these local fields. */
  function DayText(year: int, month: MonthIndex, day: nat): string {
    MonthText(year, month) + "-" + ZeroPad(day, 2)
  }

  /** Some occurrence has a valid date whose key under f is k. */
  predicate HasKey<K(==)>(data: seq<Occurrence>, cal: LocalCalendar, f: LocalDate -> K, k: K) {
    exists i :: 0 <= i < |data| && cal(data[i].dateTime).Some? && f(cal(data[i].dateTime).value) == k
  }

  /** The key of a dated occurrence is among the keys of the collection. */
  lemma HasKeyOf<K>(data: seq<Occurrence>, cal: LocalCalendar, f: LocalDate -> K, i: nat)
    requires i < |data| && cal(data[i].dateTime).Some?
    ensures HasKey(data, cal, f, f(cal(data[i].dateTime).value))
  {
  }

  /** Some occurrence has a valid date in the month with this key. */
  predicate HasMonth(data: seq<Occurrence>, cal: LocalCalendar, key: string) {
    HasKey(data, cal, MonthKey, key)
  }

  /**
    getMonthsWithData(events): the month key of every occurrence, each
    once, in ascending order. Formatting an Invalid Date throws.
  */
  method GetMonthsWithData(data: seq<Occurrence>, cal: LocalCalendar) returns (months: Result<seq<string>>)
    ensures months.Throws? <==> !ModalEvent.Dated(data, cal)
    ensures months.Throws? ==> months.message == InvalidTimeValue
    ensures months.Ok? ==> StrictlyAscending(months.value)
    ensures months.Ok? ==> forall key :: key in months.value <==> HasMonth(data, cal, key)
  {
    var seen: seq<string> := [];
    for i := 0 to |data|
      invariant ModalEvent.Dated(data[..i], cal)
      invariant Distinct(seen)
      invariant forall key :: key in seen <==> HasMonth(data[..i], cal, key)
    {
      var date := cal(data[i].dateTime);
      if date.None? {
        assert !ModalEvent.Dated(data, cal);
        return Throws(InvalidTimeValue);
      }
      var key := MonthKey(date.value);
      KeyStep(data, cal, MonthKey, i);
      if key !in seen {
        seen := seen + [key];
      }
    }
    assert data[..|data|] == data;
    months := Ok(SortStrings(seen));
  }

  /** One more dated occurrence adds its own key to those of the prefix. */
  lemma KeyStep<K>(data: seq<Occurrence>, cal: LocalCalendar, f: LocalDate -> K, i: nat)
    requires i < |data| && cal(data[i].dateTime).Some?
    requires ModalEvent.Dated(data[..i], cal)
    ensures ModalEvent.Dated(data[..i + 1], cal)
    ensures forall k :: HasKey(data[..i + 1], cal, f, k) <==> HasKey(data[..i], cal, f, k) || k == f(cal(data[i].dateTime).value)
  {
    var next := data[..i + 1];
    assert next[i] == data[i];
    assert forall j :: 0 <= j < i ==> next[j] == data[..i][j];
    forall k | HasKey(next, cal, f, k) && k != f(cal(data[i].dateTime).value)
      ensures HasKey(data[..i], cal, f, k)
    {
      var j :| 0 <= j < i + 1 && cal(next[j].dateTime).Some? && f(cal(next[j].dateTime).value) == k;
      assert j < i;
    }
  }

  /** The heatmap key of an occurrence: dateTime.split('T')[0]. */
  function DayKeyOf(o: Occurrence): string {
    BeforeFirst(o.dateTime, 'T')
  }

  /** Some element of s has key k. */
  predicate HasKeyIn<T, K(==)>(s: seq<T>, key: T -> K, k: K) {
    exists i :: 0 <= i < |s| && key(s[i]) == k
  }

  /**
    The counting loop of eventsToHeatmapData for any key: result[key] is
    incremented when present and set to 1 otherwise; order lists the keys
    in the order they were first set, the order Object.entries gives them.
  */
  method CountByKey<T, K(==)>(s: seq<T>, key: T -> K) returns (result: map<K, nat>, order: seq<K>)
    ensures Distinct(order)
    ensures forall k :: k in result <==> k in order
    ensures forall k :: k in order <==> HasKeyIn(s, key, k)
    ensures forall k :: k in result ==> result[k] == KeyCount(s, key, k) && result[k] >= 1
  {
    result := map[];
    order := [];
    for i := 0 to |s|
      invariant Distinct(order)
      invariant forall k :: k in result <==> k in order
      invariant forall k :: k in order <==> HasKeyIn(s[..i], key, k)
      invariant forall k :: k in result ==> result[k] == KeyCount(s[..i], key, k) && result[k] >= 1
      invariant forall k :: k !in result ==> KeyCount(s[..i], key, k) == 0
    {
      var dateKey := key(s[i]);
      CountStep(s, key, i);
      assert KeyCount(s[..i + 1], key, dateKey) == KeyCount(s[..i], key, dateKey) + 1;
      if dateKey !in result {
        order := order + [dateKey];
        result := result[dateKey := 1];
      } else {
        result := result[dateKey := result[dateKey] + 1];
      }
    }
    assert s[..|s|] == s;
  }

  /** One more element adds one to the count of its own key and to no other. */
  lemma CountStep<T, K>(s: seq<T>, key: T -> K, i: nat)
    requires i < |s|
    ensures forall k :: KeyCount(s[..i + 1], key, k) == KeyCount(s[..i], key, k) + (if k == key(s[i]) then 1 else 0)
    ensures forall k :: HasKeyIn(s[..i + 1], key, k) <==> HasKeyIn(s[..i], key, k) || k == key(s[i])
  {
    var next := s[..i + 1];
    assert next == s[..i] + [s[i]];
    forall k ensures KeyCount(next, key, k) == KeyCount(s[..i], key, k) + (if k == key(s[i]) then 1 else 0) {
      FilterAppend(s[..i], s[i], (x: T) => key(x) == k);
    }
    assert next[i] == s[i];
    assert forall j :: 0 <= j < i ==> next[j] == s[..i][j];
    forall k | HasKeyIn(next, key, k) && k != key(s[i]) ensures HasKeyIn(s[..i], key, k) {
      var j :| 0 <= j < i + 1 && key(next[j]) == k;
      assert j < i;
    }
  }

  /**
    eventsToHeatmapData(events): the number of occurrences per day key,
    and the day keys in the order they first occur.
  */
  method EventsToHeatmapData(data: seq<Occurrence>) returns (result: map<string, nat>, days: seq<string>)
    ensures Distinct(days)
    ensures forall k :: k in result <==> k in days
    ensures forall k :: k in days <==> HasKeyIn(data, DayKeyOf, k)
    ensures forall k :: k in result ==> result[k] == KeyCount(data, DayKeyOf, k) && result[k] >= 1
  {
    result, days := CountByKey(data, DayKeyOf);
  }

  /** The counts of the keys ks in the map, added up. */
  function MapSum(m: map<string, nat>, ks: seq<string>): nat
    requires forall j :: 0 <= j < |ks| ==> ks[j] in m
    decreases |ks|
  {
    if ks == [] then 0 else m[ks[0]] + MapSum(m, ks[1..])
  }

  /** The per-day counts add up to the number of occurrences. */
  lemma DayCountsTotal(data: seq<Occurrence>, result: map<string, nat>, days: seq<string>)
    requires Distinct(days)
    requires forall k :: k in result <==> k in days
    requires forall i :: 0 <= i < |data| ==> DayKeyOf(data[i]) in days
    requires forall k :: k in result ==> result[k] == KeyCount(data, DayKeyOf, k)
    ensures MapSum(result, days) == |data|
  {
    MapSumIsSumOfCounts(data, result, days);
    CountsPartition(data, DayKeyOf, days);
  }

  lemma {:induction false} MapSumIsSumOfCounts(data: seq<Occurrence>, result: map<string, nat>, days: seq<string>)
    requires forall j :: 0 <= j < |days| ==> days[j] in result && result[days[j]] == KeyCount(data, DayKeyOf, days[j])
    ensures MapSum(result, days) == SumOfCounts(data, DayKeyOf, days)
    decreases |days|
  {
    if days != [] {
      MapSumIsSumOfCounts(data, result, days[1..]);
    }
  }

  // ---------------------------------------------------------------------
  // formatData: a zero for every day of every month with data

  /** A key of the form digits-digits whose second part is a month number 1 to 12. */
  predicate WellFormedMonthKey(key: string) {
    var parts := Split(key, '-');
    && |parts| == 2
    && AllDigits(parts[0]) && AllDigits(parts[1])
    && 1 <= DecimalValue(parts[1]) <= 12
  }

  /** parseInt(year) for the year part of a month key. */
  function KeyYear(key: string): nat
    requires WellFormedMonthKey(key)
  {
    DecimalValue(Split(key, '-')[0])
  }

  /** parseInt(month) - 1 for the month part of a month key. */
  function KeyMonth(key: string): MonthIndex
    requires WellFormedMonthKey(key)
  {
    DecimalValue(Split(key, '-')[1]) - 1
  }

  /** The full year new Date(year, month) uses: years 0 to 99 mean 1900 to 1999. */
  function JsFullYear(year: int): (y: int)
    ensures 0 <= year <= 99 ==> y == 1900 + year
    ensures !(0 <= year <= 99) ==> y == year
  {
    if 0 <= year <= 99 then 1900 + year else year
  }

  /** The number of days eachDayOfInterval lists for the month of a key. */
  function MonthLength(key: string): nat
    requires WellFormedMonthKey(key)
  {
    DaysInMonth(JsFullYear(KeyYear(key)), KeyMonth(key))
  }

  /** The formatted key of day d of the month new Date(parseInt(year), parseInt(month) - 1) starts. */
  function PaddedDay(key: string, d: nat): string
    requires WellFormedMonthKey(key)
  {
    DayText(JsFullYear(KeyYear(key)), KeyMonth(key), d)
  }

  /** The day keys of the days 1 up to but not including hi of the month of a key. */
  ghost function MonthDays(key: string, hi: nat): set<string>
    requires WellFormedMonthKey(key)
  {
    set d | 1 <= d < hi :: PaddedDay(key, d)
  }

  /** The day keys formatData receives for the month keys: every day of each month. */
  ghost function PaddedDays(keys: seq<string>): set<string>
    requires forall i :: 0 <= i < |keys| ==> WellFormedMonthKey(keys[i])
    decreases |keys|
  {
    if keys == [] then {}
    else
      var last := keys[|keys| - 1];
      PaddedDays(keys[..|keys| - 1]) + MonthDays(last, MonthLength(last) + 1)
  }

  /** The two loops filling formatData: every day of every month key set to 0. */
  method FormatData(monthKeys: seq<string>) returns (formatData: map<string, nat>)
    requires forall i :: 0 <= i < |monthKeys| ==> WellFormedMonthKey(monthKeys[i])
    ensures formatData.Keys == PaddedDays(monthKeys)
    ensures forall k :: k in formatData ==> formatData[k] == 0
  {
    formatData := map[];
    for i := 0 to |monthKeys|
      invariant formatData.Keys == PaddedDays(monthKeys[..i])
      invariant forall k :: k in formatData ==> formatData[k] == 0
    {
      var key := monthKeys[i];
      var length := MonthLength(key);
      ghost var before := formatData.Keys;
      for d := 1 to length + 1
        invariant formatData.Keys == before + MonthDays(key, d)
        invariant forall k :: k in formatData ==> formatData[k] == 0
      {
        MonthDaysStep(key, d);
        formatData := formatData[PaddedDay(key, d) := 0];
      }
      assert monthKeys[..i + 1][..i] == monthKeys[..i];
    }
    assert monthKeys[..|monthKeys|] == monthKeys;
  }

  lemma MonthDaysStep(key: string, d: nat)
    requires WellFormedMonthKey(key) && 1 <= d
    ensures MonthDays(key, d + 1) == MonthDays(key, d) + {PaddedDay(key, d)}
  {
    forall x | x in MonthDays(key, d + 1) ensures x in MonthDays(key, d) || x == PaddedDay(key, d) {
      var e :| 1 <= e < d + 1 && x == PaddedDay(key, e);
      if e < d {
        assert x in MonthDays(key, d);
      }
    }
    forall x | x in MonthDays(key, d) ensures x in MonthDays(key, d + 1) {
      var e :| 1 <= e < d && x == PaddedDay(key, e);
      assert 1 <= e < d + 1;
    }
    assert PaddedDay(key, d) in MonthDays(key, d + 1);
  }

  /** Day d of month j is among the padded days, for every d up to the month's length. */
  lemma {:induction false} PaddedDaysMember(keys: seq<string>, j: nat, d: nat)
    requires forall i :: 0 <= i < |keys| ==> WellFormedMonthKey(keys[i])
    requires j < |keys| && 1 <= d <= MonthLength(keys[j])
    ensures PaddedDay(keys[j], d) in PaddedDays(keys)
    decreases |keys|
  {
    var init := keys[..|keys| - 1];
    if j < |keys| - 1 {
      assert init[j] == keys[j];
      PaddedDaysMember(init, j, d);
    } else {
      assert PaddedDay(keys[j], d) in MonthDays(keys[j], MonthLength(keys[j]) + 1);
    }
  }

  /** Every padded day is some day 1 to its month's length of one of the month keys. */
  lemma {:induction false} PaddedDaysOnly(keys: seq<string>, x: string)
    requires forall i :: 0 <= i < |keys| ==> WellFormedMonthKey(keys[i])
    requires x in PaddedDays(keys)
    ensures exists j, d :: 0 <= j < |keys| && 1 <= d <= MonthLength(keys[j]) && x == PaddedDay(keys[j], d)
    decreases |keys|
  {
    var init := keys[..|keys| - 1];
    var last := keys[|keys| - 1];
    if x in PaddedDays(init) {
      PaddedDaysOnly(init, x);
      var j, d :| 0 <= j < |init| && 1 <= d <= MonthLength(init[j]) && x == PaddedDay(init[j], d);
      assert init[j] == keys[j];
    } else {
      assert x in MonthDays(last, MonthLength(last) + 1);
      var d :| 1 <= d < MonthLength(last) + 1 && x == PaddedDay(last, d);
      assert 0 <= |keys| - 1 < |keys| && 1 <= d <= MonthLength(keys[|keys| - 1]) && x == PaddedDay(keys[|keys| - 1], d);
    }
  }

  /**
    Laying the counts over the zero-filled days: formatData[date] = value
    for every entry of the counts, in the order of days.
  */
  method MergeActivity(formatData: map<string, nat>, activity: map<string, nat>, days: seq<string>)
    returns (merged: map<string, nat>)
    requires forall k :: k in activity <==> k in days
    ensures merged.Keys == formatData.Keys + activity.Keys
    ensures forall k :: k in activity ==> merged[k] == activity[k]
    ensures forall k :: k in formatData && k !in activity ==> merged[k] == formatData[k]
  {
    merged := formatData;
    for j := 0 to |days|
      invariant merged.Keys == formatData.Keys + (set q | 0 <= q < j :: days[q])
      invariant forall q :: 0 <= q < j ==> merged[days[q]] == activity[days[q]]
      invariant forall k :: k in formatData && k !in days[..j] ==> merged[k] == formatData[k]
    {
      merged := merged[days[j] := activity[days[j]]];
      assert days[..j + 1] == days[..j] + [days[j]];
    }
    assert days[..|days|] == days;
    assert (set q | 0 <= q < |days| :: days[q]) == activity.Keys by {
      forall k | k in activity ensures k in (set q | 0 <= q < |days| :: days[q]) {
        var q :| 0 <= q < |days| && days[q] == k;
      }
    }
  }

  /**
    startDate: day 1 of the first month with data, as the text parseISO
    reads; None when there is no data and the heatmap starts today.
  */
  function StartDate(months: seq<string>): (start: Option<string>)
    ensures start.None? <==> months == []
    ensures start.Some? ==> start.value == months[0] + "-01"
  {
    if |months| > 0 then Some(months[0] + "-01") else None
  }

  /** The data the heatmap is drawn from, and the day it starts. */
  datatype HeatmapView = HeatmapView(days: map<string, nat>, start: Option<string>)

  /**
    The heatmap of one event's occurrences: every day of every month with
    data, holding its occurrence count where it has one and 0 otherwise,
    and the first day of the earliest month. An Invalid Date throws.
  */
  method BuildHeatmap(data: seq<Occurrence>, cal: LocalCalendar) returns (view: Result<HeatmapView>)
    ensures view.Throws? <==> !ModalEvent.Dated(data, cal)
    ensures view.Ok? ==> exists months: seq<string> ::
      && (forall j :: 0 <= j < |months| ==> WellFormedMonthKey(months[j]))
      && StrictlyAscending(months)
      && (forall key :: key in months <==> HasMonth(data, cal, key))
      && view.value.days.Keys == PaddedDays(months) + (set i | 0 <= i < |data| :: DayKeyOf(data[i]))
      && (forall k :: k in view.value.days ==> view.value.days[k] == KeyCount(data, DayKeyOf, k))
      && view.value.start == StartDate(months)
  {
    var months := GetMonthsWithData(data, cal);
    if months.Throws? {
      return Throws(months.message);
    }
    var monthsWithData := months.value;
    forall i | 0 <= i < |monthsWithData| ensures WellFormedMonthKey(monthsWithData[i]) {
      var key := monthsWithData[i];
      assert HasMonth(data, cal, key);
      var j :| 0 <= j < |data| && cal(data[j].dateTime).Some? && MonthKey(cal(data[j].dateTime).value) == key;
      MonthKeyParts(cal(data[j].dateTime).value);
    }
    var formatData := FormatData(monthsWithData);
    var activityDays, days := EventsToHeatmapData(data);
    var merged := MergeActivity(formatData, activityDays, days);
    assert activityDays.Keys == (set i | 0 <= i < |data| :: DayKeyOf(data[i]));
    forall k | k in merged ensures merged[k] == KeyCount(data, DayKeyOf, k) {
      if k !in activityDays {
        assert forall i :: 0 <= i < |data| ==> DayKeyOf(data[i]) != k;
        EmptyKeyCount(data, k);
      }
    }
    view := Ok(HeatmapView(merged, StartDate(monthsWithData)));
  }

  lemma {:induction false} EmptyKeyCount(data: seq<Occurrence>, k: string)
    requires forall i :: 0 <= i < |data| ==> DayKeyOf(data[i]) != k
    ensures KeyCount(data, DayKeyOf, k) == 0
    decreases |data|
  {
    if data != [] {
      EmptyKeyCount(data[..|data| - 1], k);
    }
  }

  // ---------------------------------------------------------------------
  // Month keys read back, cover their month and sort chronologically

  /** A month text splits back into its zero-padded year of the era and its month number. */
  lemma MonthTextParts(year: int, month: MonthIndex)
    ensures WellFormedMonthKey(MonthText(year, month))
    ensures KeyYear(MonthText(year, month)) == EraYear(year)
    ensures KeyMonth(MonthText(year, month)) == month
  {
    var y := ZeroPad(EraYear(year), 4);
    var m := ZeroPad(month + 1, 2);
    SplitDigitPair(y, m, '-');
    assert MonthText(year, month) == y + ['-'] + m;
    ZeroPadValue(EraYear(year), 4);
    ZeroPadValue(month + 1, 2);
  }

  /** The month key of a date reads back as its year of the era and its month. */
  lemma MonthKeyParts(date: LocalDate)
    ensures WellFormedMonthKey(MonthKey(date))
    ensures KeyYear(MonthKey(date)) == EraYear(date.year)
    ensures KeyMonth(MonthKey(date)) == date.month
  {
    MonthTextParts(date.year, date.month);
  }

  /**
    For a date from year 100 on, formatData pads the days of the date's own
    month: as many as the month's Gregorian length, each written as the
    month key followed by the day number.
  */
  lemma PaddedDaysOfMonth(date: LocalDate, d: nat)
    requires date.year >= 100
    ensures WellFormedMonthKey(MonthKey(date))
    ensures MonthLength(MonthKey(date)) == DaysInMonth(date.year, date.month)
    ensures PaddedDay(MonthKey(date), d) == DayText(date.year, date.month, d)
  {
    MonthKeyParts(date);
    var k := MonthKey(date);
    assert JsFullYear(KeyYear(k)) == date.year;
  }

  /** Every day of every month with data gets an entry, for occurrences from year 100 on. */
  lemma EveryDayPadded(data: seq<Occurrence>, cal: LocalCalendar, months: seq<string>, i: nat, d: nat)
    requires forall key :: key in months <==> HasMonth(data, cal, key)
    requires forall j :: 0 <= j < |months| ==> WellFormedMonthKey(months[j])
    requires i < |data| && cal(data[i].dateTime).Some? && cal(data[i].dateTime).value.year >= 100
    requires 1 <= d <= DaysInMonth(cal(data[i].dateTime).value.year, cal(data[i].dateTime).value.month)
    ensures DayText(cal(data[i].dateTime).value.year, cal(data[i].dateTime).value.month, d) in PaddedDays(months)
  {
    var date := cal(data[i].dateTime).value;
    var key := MonthKey(date);
    HasKeyOf(data, cal, MonthKey, i);
    assert key in months;
    var j :| 0 <= j < |months| && months[j] == key;
    PaddedDaysOfMonth(date, d);
    PaddedDaysMember(months, j, d);
  }

  /**
    new Date(y, m) reads the years 0 to 99 as 1900 to 1999: the month key of
    a date in year 1 to 99 is padded with the days of that month 1900 years
    later.
  */
  lemma TwoDigitYearPadding(date: LocalDate, d: nat)
    requires 1 <= date.year <= 99
    ensures WellFormedMonthKey(MonthKey(date))
    ensures MonthLength(MonthKey(date)) == DaysInMonth(1900 + date.year, date.month)
    ensures PaddedDay(MonthKey(date), d) == DayText(1900 + date.year, date.month, d)
  {
    MonthKeyParts(date);
    var k := MonthKey(date);
    assert JsFullYear(KeyYear(k)) == 1900 + date.year;
  }

  /**
    For years 1 to 9999 the ascending sort of month keys is chronological:
    a key sorts before another exactly when its month comes first.
  */
  lemma MonthKeyOrder(a: LocalDate, b: LocalDate)
    requires 1 <= a.year <= 9999 && 1 <= b.year <= 9999
    ensures LexLess(MonthKey(a), MonthKey(b)) <==> a.year < b.year || (a.year == b.year && a.month < b.month)
  {
    assert Pow10(4) == 10000 && Pow10(2) == 100;
    var ya, yb := ZeroPad(a.year, 4), ZeroPad(b.year, 4);
    var ma, mb := ZeroPad(a.month + 1, 2), ZeroPad(b.month + 1, 2);
    ZeroPadValue(a.year, 4);
    ZeroPadValue(b.year, 4);
    ZeroPadValue(a.month + 1, 2);
    ZeroPadValue(b.month + 1, 2);
    assert MonthKey(a) == ya + "-" + ma && MonthKey(b) == yb + "-" + mb;
    DigitKeyOrder(ya, ma, yb, mb);
  }

  /** Keys of equally long digit fields joined by '-' sort by the first field, then by the second. */
  lemma DigitKeyOrder(ya: string, ma: string, yb: string, mb: string)
    requires |ya| == |yb| && |ma| == |mb|
    requires AllDigits(ya) && AllDigits(yb) && AllDigits(ma) && AllDigits(mb)
    ensures LexLess(ya + "-" + ma, yb + "-" + mb) <==>
            DecimalValue(ya) < DecimalValue(yb) || (DecimalValue(ya) == DecimalValue(yb) && DecimalValue(ma) < DecimalValue(mb))
  {
    assert ya + "-" + ma == ya + ("-" + ma);
    assert yb + "-" + mb == yb + ("-" + mb);
    LexConcat(ya, yb, "-" + ma, "-" + mb);
    LexConcat("-", "-", ma, mb);
    LexIrreflexive("-");
    LexDigitsOrder(ya, yb);
    LexDigitsOrder(ma, mb);
    if ya != yb {
      LexTotal(ya, yb);
      LexDigitsOrder(yb, ya);
    }
  }

  /** With data present, the heatmap starts on day 1 of the earliest month that has data. */
  lemma StartIsEarliestMonth(data: seq<Occurrence>, cal: LocalCalendar, months: seq<string>)
    requires StrictlyAscending(months) && months != []
    requires forall key :: key in months <==> HasMonth(data, cal, key)
    requires forall i :: 0 <= i < |data| ==> cal(data[i].dateTime).Some? ==> 1 <= cal(data[i].dateTime).value.year <= 9999
    ensures StartDate(months) == Some(months[0] + "-01")
    ensures exists i :: 0 <= i < |data| && cal(data[i].dateTime).Some? && MonthKey(cal(data[i].dateTime).value) == months[0]
    ensures forall i, j :: (0 <= i < |data| && 0 <= j < |data| && cal(data[i].dateTime).Some? && cal(data[j].dateTime).Some?
                            && MonthKey(cal(data[i].dateTime).value) == months[0]) ==>
              EarlierOrSameMonth(cal(data[i].dateTime).value, cal(data[j].dateTime).value)
  {
    assert HasMonth(data, cal, months[0]);
    forall i, j | 0 <= i < |data| && 0 <= j < |data| && cal(data[i].dateTime).Some? && cal(data[j].dateTime).Some?
                  && MonthKey(cal(data[i].dateTime).value) == months[0]
      ensures EarlierOrSameMonth(cal(data[i].dateTime).value, cal(data[j].dateTime).value)
    {
      HasKeyOf(data, cal, MonthKey, j);
      FirstKeyEarliest(months, cal(data[i].dateTime).value, cal(data[j].dateTime).value);
    }
  }

  /** The month of the first of the ascending keys comes no later than that of any other key. */
  lemma FirstKeyEarliest(months: seq<string>, first: LocalDate, other: LocalDate)
    requires StrictlyAscending(months) && months != []
    requires 1 <= first.year <= 9999 && 1 <= other.year <= 9999
    requires MonthKey(first) == months[0] && MonthKey(other) in months
    ensures EarlierOrSameMonth(first, other)
  {
    var q :| 0 <= q < |months| && months[q] == MonthKey(other);
    MonthKeyOrder(other, first);
    if q > 0 {
      LexAsymmetric(months[0], months[q]);
    } else {
      LexIrreflexive(months[0]);
    }
  }

  /** The month of a comes no later than the month of b. */
  predicate EarlierOrSameMonth(a: LocalDate, b: LocalDate) {
    a.year < b.year || (a.year == b.year && a.month <= b.month)
  }
}
