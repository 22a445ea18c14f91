/**
 * The recurrence evaluator `generate_dates` of backend/app/db/seed_schedule.py:
 * a collection rule and an inclusive date range give the ascending, duplicate-free
 * list of collection dates. Only `weekly` and `month_dates` rules exist; any other
 * `type` raises.
 */
module Recurrence {
  import opened Wrappers
  import opened Dates
  import Order

  /** One `"YYYY-MM": [day, ...]` entry of a `month_dates` rule, its key read as numbers. */
  datatype MonthEntry = MonthEntry(year: int, month: int, days: seq<int>)

  /**
   * A rule as the schedule document gives it: the `type` tag, the `weekdays`
   * of a `weekly` rule and the `months` of a `month_dates` rule.
   */
  datatype Rule = Rule(kind: string, weekdays: seq<string>, months: seq<MonthEntry>)

  /** The exceptions `generate_dates` can raise. */
  datatype DateError =
    | UnknownRuleType(kind: string)                 // ValueError("unknown rule type")
    | UnknownWeekday(name: string)                  // KeyError from WEEKDAY_MAP
    | InvalidDate(year: int, month: int, day: int)  // ValueError from date(y, m, d)
    | DateOverflow                                  // OverflowError stepping past 9999-12-31

  /** `WEEKDAY_MAP`. */
  function WeekdayNumber(name: string): Option<int> {
    if name == "MON" then Some(0)
    else if name == "TUE" then Some(1)
    else if name == "WED" then Some(2)
    else if name == "THU" then Some(3)
    else if name == "FRI" then Some(4)
    else if name == "SAT" then Some(5)
    else if name == "SUN" then Some(6)
    else None
  }

  /** `[WEEKDAY_MAP[w] for w in weekdays]`: the first unknown name raises. */
  function WeekdayNumbers(names: seq<string>): Result<seq<int>, DateError> {
    if names == [] then Ok([])
    else match WeekdayNumber(names[0])
      case None => Err(UnknownWeekday(names[0]))
      case Some(n) => Prepend([n], WeekdayNumbers(names[1..]))
  }

  /** The `weekly` loop from day `d` on: each day up to `end` whose weekday is listed. */
  function WeeklyFrom(wd: seq<int>, d: Date, end: Date): Result<seq<Date>, DateError>
    requires ValidDate(d) && ValidDate(end)
    decreases 10000 - d.year, 13 - d.month, 32 - d.day
  {
    if !DateLessEq(d, end) then Ok([])
    else if d == MaxDate then Err(DateOverflow)
    else Prepend(if Weekday(d) in wd then [d] else [], WeeklyFrom(wd, Next(d), end))
  }

  /** The inner `month_dates` loop over the listed days of one month. */
  function DayDates(year: int, month: int, days: seq<int>, start: Date, end: Date): Result<seq<Date>, DateError> {
    if days == [] then Ok([])
    else
      var d := Date(year, month, days[0]);
      if !ValidDate(d) then Err(InvalidDate(year, month, days[0]))
      else Prepend(if DateLessEq(start, d) && DateLessEq(d, end) then [d] else [],
                   DayDates(year, month, days[1..], start, end))
  }

  /** The outer `month_dates` loop over the month entries. */
  function MonthDates(entries: seq<MonthEntry>, start: Date, end: Date): Result<seq<Date>, DateError> {
    if entries == [] then Ok([])
    else Chain(DayDates(entries[0].year, entries[0].month, entries[0].days, start, end),
               MonthDates(entries[1..], start, end))
  }

  /** `sorted(set(out))` on a successful result. */
  function SortDates(r: Result<seq<Date>, DateError>): Result<seq<Date>, DateError> {
    match r
    case Ok(out) => Ok(Order.SortedUnique(DateLess, out))
    case Err(e) => Err(e)
  }

  /**
   * What `generate_dates(rule, start, end)` returns or raises. Every date it
   * returns is a calendar date inside the range.
   */
  function DatesSpec(rule: Rule, start: Date, end: Date): (r: Result<seq<Date>, DateError>)
    requires ValidDate(start) && ValidDate(end)
    ensures r.Ok? ==> forall x :: x in r.value ==> ValidDate(x) && DateLessEq(start, x) && DateLessEq(x, end)
  {
    if rule.kind == "weekly" then
      match WeekdayNumbers(rule.weekdays)
      case Err(e) => Err(e)
      case Ok(wd) =>
        WeeklyFromCorrect(wd, start, end);
        SortDatesCorrect(WeeklyFrom(wd, start, end));
        SortDates(WeeklyFrom(wd, start, end))
    else if rule.kind == "month_dates" then
      MonthDatesCorrect(rule.months, start, end);
      SortDatesCorrect(MonthDates(rule.months, start, end));
      SortDates(MonthDates(rule.months, start, end))
    else
      Err(UnknownRuleType(rule.kind))
  }

  /** Index `k` holds the first name `WEEKDAY_MAP` does not know. */
  ghost predicate FirstUnknownWeekday(names: seq<string>, k: int) {
    && 0 <= k < |names|
    && WeekdayNumber(names[k]).None?
    && forall i :: 0 <= i < k ==> WeekdayNumber(names[i]).Some?
  }

  /** Some name of `names` denotes weekday `n`. */
  ghost predicate NamesWeekday(names: seq<string>, n: int) {
    exists w :: w in names && WeekdayNumber(w) == Some(n)
  }

  /**
   * The weekday lookup succeeds exactly when every name is known, yielding the
   * weekdays the names denote; otherwise it reports the first unknown name.
   */
  lemma {:induction false} WeekdayNumbersCorrect(names: seq<string>)
    ensures WeekdayNumbers(names).Ok? <==> forall w :: w in names ==> WeekdayNumber(w).Some?
    ensures WeekdayNumbers(names).Ok? ==>
              forall n :: n in WeekdayNumbers(names).value <==> NamesWeekday(names, n)
    ensures WeekdayNumbers(names).Err? ==>
              exists k :: FirstUnknownWeekday(names, k) && WeekdayNumbers(names).error == UnknownWeekday(names[k])
  {
    if names != [] {
      WeekdayNumbersCorrect(names[1..]);
      assert forall w :: w in names <==> w == names[0] || w in names[1..];
      var r := WeekdayNumbers(names);
      if WeekdayNumber(names[0]).None? {
        assert FirstUnknownWeekday(names, 0);
      } else if r.Err? {
        var k :| FirstUnknownWeekday(names[1..], k) && WeekdayNumbers(names[1..]).error == UnknownWeekday(names[1..][k]);
        assert FirstUnknownWeekday(names, k + 1);
      } else {
        forall n ensures n in r.value <==> NamesWeekday(names, n) {
          if NamesWeekday(names, n) {
            var w :| w in names && WeekdayNumber(w) == Some(n);
            if w != names[0] {
              assert NamesWeekday(names[1..], n);
            }
          }
          if n in WeekdayNumbers(names[1..]).value {
            var w :| w in names[1..] && WeekdayNumber(w) == Some(n);
            assert w in names;
          }
        }
      }
    }
  }

  /**
   * The `weekly` walk from `d` yields exactly the valid days of [d, end] whose
   * weekday is listed, and fails exactly when it would have to step past
   * 9999-12-31, i.e. when `d <= end` and `end` is the last representable day.
   */
  lemma {:induction false} WeeklyFromCorrect(wd: seq<int>, d: Date, end: Date)
    requires ValidDate(d) && ValidDate(end)
    ensures WeeklyFrom(wd, d, end).Err? <==> DateLessEq(d, end) && end == MaxDate
    ensures WeeklyFrom(wd, d, end).Err? ==> WeeklyFrom(wd, d, end).error == DateOverflow
    ensures WeeklyFrom(wd, d, end).Ok? ==>
              forall x :: x in WeeklyFrom(wd, d, end).value <==>
                ValidDate(x) && DateLessEq(d, x) && DateLessEq(x, end) && Weekday(x) in wd
    decreases 10000 - d.year, 13 - d.month, 32 - d.day
  {
    if DateLessEq(d, end) {
      MaxDateIsLast(end);
      if d != MaxDate {
        var n := Next(d);
        WeeklyFromCorrect(wd, n, end);
        var r := WeeklyFrom(wd, d, end);
        if r.Ok? {
          var hit := if Weekday(d) in wd then [d] else [];
          assert r.value == hit + WeeklyFrom(wd, n, end).value;
          forall x ensures x in r.value <==>
            ValidDate(x) && DateLessEq(d, x) && DateLessEq(x, end) && Weekday(x) in wd
          {
            if ValidDate(x) && DateLess(d, x) {
              assert DateLessEq(n, x);
            }
          }
        }
      }
    }
  }

  /** The dates a `month_dates` rule lists, as unvalidated (year, month, day) triples in document order. */
  function ListedDays(year: int, month: int, days: seq<int>): (r: seq<Date>)
    ensures |r| == |days|
    ensures forall i :: 0 <= i < |days| ==> r[i] == Date(year, month, days[i])
  {
    if days == [] then [] else [Date(year, month, days[0])] + ListedDays(year, month, days[1..])
  }

  function ListedDates(entries: seq<MonthEntry>): seq<Date> {
    if entries == [] then []
    else ListedDays(entries[0].year, entries[0].month, entries[0].days) + ListedDates(entries[1..])
  }

  /** Index `k` holds the first listed triple that is not a calendar date. */
  ghost predicate FirstInvalid(ts: seq<Date>, k: int) {
    && 0 <= k < |ts|
    && !ValidDate(ts[k])
    && forall i :: 0 <= i < k ==> ValidDate(ts[i])
  }

  /** What the month loops compute, stated over the flat list of listed triples `ts`. */
  ghost predicate ListingOutcome(r: Result<seq<Date>, DateError>, ts: seq<Date>, start: Date, end: Date) {
    && (r.Ok? <==> forall t :: t in ts ==> ValidDate(t))
    && (r.Err? ==> exists k :: FirstInvalid(ts, k) && r.error == InvalidDate(ts[k].year, ts[k].month, ts[k].day))
    && (r.Ok? ==> forall x :: x in r.value <==> x in ts && DateLessEq(start, x) && DateLessEq(x, end))
  }

  lemma {:induction false} DayDatesCorrect(year: int, month: int, days: seq<int>, start: Date, end: Date)
    ensures ListingOutcome(DayDates(year, month, days, start, end), ListedDays(year, month, days), start, end)
  {
    if days != [] {
      var d := Date(year, month, days[0]);
      var first: Result<seq<Date>, DateError> :=
        if !ValidDate(d) then Err(InvalidDate(year, month, days[0]))
        else Ok(if DateLessEq(start, d) && DateLessEq(d, end) then [d] else []);
      assert ListingOutcome(first, [d], start, end) by {
        if !ValidDate(d) {
          assert FirstInvalid([d], 0);
        }
      }
      DayDatesCorrect(year, month, days[1..], start, end);
      ListingOutcomeAppend(first, DayDates(year, month, days[1..], start, end),
                           [d], ListedDays(year, month, days[1..]), start, end);
      assert DayDates(year, month, days, start, end) == Chain(first, DayDates(year, month, days[1..], start, end));
      assert ListedDays(year, month, days) == [d] + ListedDays(year, month, days[1..]);
    }
  }

  /** A failed first block fails the whole listing at the same place; a clean one shifts the rest's failure. */
  lemma ListingOutcomeAppend(r1: Result<seq<Date>, DateError>, r2: Result<seq<Date>, DateError>,
                             ts1: seq<Date>, ts2: seq<Date>, start: Date, end: Date)
    requires ListingOutcome(r1, ts1, start, end) && ListingOutcome(r2, ts2, start, end)
    ensures ListingOutcome(Chain(r1, r2), ts1 + ts2, start, end)
  {
    var ts := ts1 + ts2;
    assert forall t :: t in ts <==> t in ts1 || t in ts2;
    if r1.Err? {
      var k :| FirstInvalid(ts1, k) && r1.error == InvalidDate(ts1[k].year, ts1[k].month, ts1[k].day);
      assert ts[k] == ts1[k];
      assert FirstInvalid(ts, k);
    } else if r2.Err? {
      var k :| FirstInvalid(ts2, k) && r2.error == InvalidDate(ts2[k].year, ts2[k].month, ts2[k].day);
      assert ts[|ts1| + k] == ts2[k];
      assert FirstInvalid(ts, |ts1| + k);
    }
  }

  lemma {:induction false} MonthDatesCorrect(entries: seq<MonthEntry>, start: Date, end: Date)
    ensures ListingOutcome(MonthDates(entries, start, end), ListedDates(entries), start, end)
  {
    if entries != [] {
      var e := entries[0];
      DayDatesCorrect(e.year, e.month, e.days, start, end);
      MonthDatesCorrect(entries[1..], start, end);
      ListingOutcomeAppend(DayDates(e.year, e.month, e.days, start, end), MonthDates(entries[1..], start, end),
                           ListedDays(e.year, e.month, e.days), ListedDates(entries[1..]), start, end);
    }
  }

  /** Sorting keeps an error and turns a successful list into its ascending distinct elements. */
  lemma SortDatesCorrect(r: Result<seq<Date>, DateError>)
    ensures SortDates(r).Ok? == r.Ok?
    ensures r.Err? ==> SortDates(r).error == r.error
    ensures r.Ok? ==> Order.Ascending(DateLess, SortDates(r).value)
    ensures r.Ok? ==> forall x :: x in SortDates(r).value <==> x in r.value
  {
    if r.Ok? {
      DateLessStrictTotal();
      Order.SortedUniqueCorrect(DateLess, r.value);
    }
  }

  /**
   * A `weekly` rule yields, in ascending order without repeats, exactly the days
   * of [start, end] falling on one of its weekdays. It raises for the first
   * unknown weekday name and otherwise only when the walk must step past
   * 9999-12-31.
   */
  lemma WeeklyRule(rule: Rule, start: Date, end: Date)
    requires ValidDate(start) && ValidDate(end) && rule.kind == "weekly"
    ensures DatesSpec(rule, start, end).Err? <==>
              (exists w :: w in rule.weekdays && WeekdayNumber(w).None?)
              || (DateLessEq(start, end) && end == MaxDate)
    ensures DatesSpec(rule, start, end).Err? ==>
              || (exists k :: FirstUnknownWeekday(rule.weekdays, k)
                   && DatesSpec(rule, start, end).error == UnknownWeekday(rule.weekdays[k]))
              || DatesSpec(rule, start, end).error == DateOverflow
    ensures DatesSpec(rule, start, end).Ok? ==>
              && Order.Ascending(DateLess, DatesSpec(rule, start, end).value)
              && forall x :: x in DatesSpec(rule, start, end).value <==>
                   ValidDate(x) && DateLessEq(start, x) && DateLessEq(x, end) && NamesWeekday(rule.weekdays, Weekday(x))
  {
    WeekdayNumbersCorrect(rule.weekdays);
    var names := WeekdayNumbers(rule.weekdays);
    if names.Ok? {
      WeeklyFromCorrect(names.value, start, end);
      SortDatesCorrect(WeeklyFrom(names.value, start, end));
    }
  }

  /**
   * A `month_dates` rule yields, in ascending order without repeats, exactly the
   * listed dates inside [start, end]. It raises for the first listed triple that
   * is not a calendar date, whether or not that triple lies in the range.
   */
  lemma MonthDatesRule(rule: Rule, start: Date, end: Date)
    requires ValidDate(start) && ValidDate(end) && rule.kind == "month_dates"
    ensures DatesSpec(rule, start, end).Ok? <==> forall t :: t in ListedDates(rule.months) ==> ValidDate(t)
    ensures DatesSpec(rule, start, end).Err? ==>
              exists k :: FirstInvalid(ListedDates(rule.months), k)
                && var t := ListedDates(rule.months)[k];
                   DatesSpec(rule, start, end).error == InvalidDate(t.year, t.month, t.day)
    ensures DatesSpec(rule, start, end).Ok? ==>
              && Order.Ascending(DateLess, DatesSpec(rule, start, end).value)
              && forall x :: x in DatesSpec(rule, start, end).value <==>
                   x in ListedDates(rule.months) && DateLessEq(start, x) && DateLessEq(x, end)
  {
    MonthDatesCorrect(rule.months, start, end);
    SortDatesCorrect(MonthDates(rule.months, start, end));
  }

  /** Only a rule of another type raises `unknown rule type`. */
  lemma UnknownRuleTypeExactly(rule: Rule, start: Date, end: Date)
    requires ValidDate(start) && ValidDate(end)
    ensures (DatesSpec(rule, start, end).Err? && DatesSpec(rule, start, end).error.UnknownRuleType?)
            <==> rule.kind != "weekly" && rule.kind != "month_dates"
  {
    if rule.kind == "weekly" {
      WeeklyRule(rule, start, end);
    } else if rule.kind == "month_dates" {
      MonthDatesRule(rule, start, end);
    }
  }

  /** The first ten days of April 2025 and their weekdays (2025-04-01 is a Tuesday). */
  lemma EarlyApril2025(x: Date)
    requires ValidDate(x) && DateLessEq(Date(2025, 4, 1), x) && DateLessEq(x, Date(2025, 4, 10))
    ensures x.year == 2025 && x.month == 4 && 1 <= x.day <= 10
    ensures Weekday(x) == x.day % 7
  {
    assert DaysBeforeYear(2025) == 739251;
    assert DaysBeforeMonth(2025, 4) == 90;
    assert Ordinal(x) + 6 == 7 * 105621 + x.day;
  }

  lemma MondayThursday(n: int)
    ensures NamesWeekday(["MON", "THU"], n) <==> n == 0 || n == 3
  {
    var names := ["MON", "THU"];
    if n == 0 { assert names[0] in names; }
    if n == 3 { assert names[1] in names; }
  }

  /** Mondays and Thursdays from 2025-04-01 to 2025-04-10 are the 3rd, 7th and 10th. */
  lemma MondaysThursdaysEarlyApril2025(r: seq<Date>)
    requires Order.Ascending(DateLess, r)
    requires forall x :: x in r <==>
               ValidDate(x) && DateLessEq(Date(2025, 4, 1), x) && DateLessEq(x, Date(2025, 4, 10))
               && NamesWeekday(["MON", "THU"], Weekday(x))
    ensures r == [Date(2025, 4, 3), Date(2025, 4, 7), Date(2025, 4, 10)]
  {
    var hits := [Date(2025, 4, 3), Date(2025, 4, 7), Date(2025, 4, 10)];
    forall x ensures x in r <==> x in hits {
      if ValidDate(x) && DateLessEq(Date(2025, 4, 1), x) && DateLessEq(x, Date(2025, 4, 10)) {
        EarlyApril2025(x);
        MondayThursday(Weekday(x));
      }
    }
    DateLessStrictTotal();
    Order.AscendingUnique(DateLess, r, hits);
  }

  /** The weekly rule of the example above, evaluated by `generate_dates`. */
  lemma WeeklyExample()
    ensures DatesSpec(Rule("weekly", ["MON", "THU"], []), Date(2025, 4, 1), Date(2025, 4, 10))
            == Ok([Date(2025, 4, 3), Date(2025, 4, 7), Date(2025, 4, 10)])
  {
    var rule := Rule("weekly", ["MON", "THU"], []);
    WeeklyRule(rule, Date(2025, 4, 1), Date(2025, 4, 10));
    MondaysThursdaysEarlyApril2025(DatesSpec(rule, Date(2025, 4, 1), Date(2025, 4, 10)).value);
  }

  /** A listed 30 February raises even though the range asked about is April. */
  lemma InvalidOutOfRangeExample()
    ensures DatesSpec(Rule("month_dates", [], [MonthEntry(2025, 4, [5]), MonthEntry(2025, 2, [30])]),
                      Date(2025, 4, 1), Date(2025, 4, 30))
            == Err(InvalidDate(2025, 2, 30))
  {
  }

  /** `generate_dates(rule, start, end)`, with the loops of the source. */
  method GenerateDates(rule: Rule, start: Date, end: Date) returns (r: Result<seq<Date>, DateError>)
    requires ValidDate(start) && ValidDate(end)
    ensures r == DatesSpec(rule, start, end)
  {
    var out: seq<Date> := [];
    if rule.kind == "weekly" {
      var wd: seq<int> := [];
      var i := 0;
      assert rule.weekdays[0..] == rule.weekdays;
      PrependNothing(wd, WeekdayNumbers(rule.weekdays));
      while i < |rule.weekdays|
        invariant 0 <= i <= |rule.weekdays|
        invariant Prepend(wd, WeekdayNumbers(rule.weekdays[i..])) == WeekdayNumbers(rule.weekdays)
      {
        var n := WeekdayNumber(rule.weekdays[i]);
        if n.None? {
          return Err(UnknownWeekday(rule.weekdays[i]));
        }
        assert rule.weekdays[i..][1..] == rule.weekdays[i + 1..];
        PrependTwice(wd, [n.value], WeekdayNumbers(rule.weekdays[i + 1..]));
        wd := wd + [n.value];
        i := i + 1;
      }
      PrependNothing(wd, WeekdayNumbers(rule.weekdays));
      var d := start;
      PrependNothing(out, WeeklyFrom(wd, start, end));
      while DateLessEq(d, end)
        invariant ValidDate(d)
        invariant Prepend(out, WeeklyFrom(wd, d, end)) == WeeklyFrom(wd, start, end)
        decreases 10000 - d.year, 13 - d.month, 32 - d.day
      {
        var hit := if Weekday(d) in wd then [d] else [];
        if d == MaxDate {
          return Err(DateOverflow);
        }
        PrependTwice(out, hit, WeeklyFrom(wd, Next(d), end));
        out := out + hit;
        d := Next(d);
      }
      PrependNothing(out, WeeklyFrom(wd, d, end));
    } else if rule.kind == "month_dates" {
      var months := rule.months;
      var i := 0;
      assert months[0..] == months;
      PrependNothing(out, MonthDates(months, start, end));
      while i < |months|
        invariant 0 <= i <= |months|
        invariant Prepend(out, MonthDates(months[i..], start, end)) == MonthDates(months, start, end)
      {
        var entry := months[i];
        var j := 0;
        assert months[i..][1..] == months[i + 1..];
        assert entry.days[0..] == entry.days;
        while j < |entry.days|
          invariant 0 <= j <= |entry.days|
          invariant Prepend(out, Chain(DayDates(entry.year, entry.month, entry.days[j..], start, end),
                                       MonthDates(months[i + 1..], start, end)))
                    == MonthDates(months, start, end)
        {
          var d := Date(entry.year, entry.month, entry.days[j]);
          if !ValidDate(d) {
            return Err(InvalidDate(entry.year, entry.month, entry.days[j]));
          }
          var hit := if DateLessEq(start, d) && DateLessEq(d, end) then [d] else [];
          assert entry.days[j..][1..] == entry.days[j + 1..];
          ChainPrepend(hit, DayDates(entry.year, entry.month, entry.days[j + 1..], start, end),
                       MonthDates(months[i + 1..], start, end));
          PrependTwice(out, hit, Chain(DayDates(entry.year, entry.month, entry.days[j + 1..], start, end),
                                       MonthDates(months[i + 1..], start, end)));
          out := out + hit;
          j := j + 1;
        }
        PrependNothing(out, MonthDates(months[i + 1..], start, end));
        i := i + 1;
      }
      PrependNothing(out, MonthDates(months, start, end));
    } else {
      return Err(UnknownRuleType(rule.kind));
    }
    r := Ok(Order.SortedUnique(DateLess, out));
  }
}
