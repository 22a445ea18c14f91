/**
 * backend/app/next_pickup.py: the category of an item, the next collection
 * day of a category in an area on or after a given day, and the command
 * line that chooses between an item and a category.
 */
module Pickup {
  import opened Wrappers
  import opened Text
  import opened Dates
  import opened Query

  /** `NextPickup(area, category, collection_date, deadline_time)`. */
  datatype Pickup = Pickup(area: string, category: string, collectionDate: string, deadlineTime: Option<string>)

  /**
   * `category_from_item`: the category name of the first item whose
   * normalised name equals the normalised input. It selects a column of the
   * same query as `find_item_exact`, so it agrees with that lookup.
   */
  function CategoryFromItem(ops: TextOps, db: ReadStore, itemName: string): (r: Option<string>)
    ensures r.None? <==> FindItemExact(ops, db, itemName).None?
    ensures r.Some? ==> r.value == FindItemExact(ops, db, itemName).value.category
    ensures var qn := NormalizeText(ops, Some(itemName));
            r.Some? ==> exists row :: row in ItemsJoined(db.items, db.categories) && row.0.nameNorm == qn && row.1.name == r.value
  {
    var qn := NormalizeText(ops, Some(itemName));
    var rows := Select(ItemsJoined(db.items, db.categories), (row: ItemRow) => NamedRow(qn, row));
    if rows == [] then None else Some(rows[0].1.name)
  }

  /** An event joined to its area and its category. */
  type EventRow = (EventRecord, AreaRecord, CategoryRecord)

  /** The rows `e JOIN areas a ... JOIN categories c ...` for one event. */
  function EventMatches(e: EventRecord, areas: seq<AreaRecord>, cats: seq<CategoryRecord>): (r: seq<EventRow>)
    ensures forall t :: t in r <==> t.0 == e && t.1 in areas && t.2 in cats && t.1.areaId == e.areaId && t.2.categoryId == e.categoryId
  {
    if areas == [] then []
    else
      var a := areas[0];
      var own := if a.areaId == e.areaId then Select(cats, (c: CategoryRecord) => c.categoryId == e.categoryId) else [];
      var triples := seq(|own|, k requires 0 <= k < |own| => (e, a, own[k]));
      assert forall t :: t in triples <==> t.0 == e && t.1 == a && t.2 in own by {
        forall t: EventRow | t.0 == e && t.1 == a && t.2 in own ensures t in triples {
          var k :| 0 <= k < |own| && own[k] == t.2;
          assert triples[k] == t;
        }
      }
      assert forall x :: x in areas <==> x == a || x in areas[1..] by {
        assert areas == [a] + areas[1..];
      }
      triples + EventMatches(e, areas[1..], cats)
  }

  /** `collection_events e JOIN areas a ON a.area_id = e.area_id JOIN categories c ON c.category_id = e.category_id`. */
  function EventsJoined(events: seq<EventRecord>, areas: seq<AreaRecord>, cats: seq<CategoryRecord>): (r: seq<EventRow>)
    ensures forall t :: t in r <==> t.0 in events && t.1 in areas && t.2 in cats && t.1.areaId == t.0.areaId && t.2.categoryId == t.0.categoryId
  {
    if events == [] then []
    else
      assert forall x :: x in events <==> x == events[0] || x in events[1..] by {
        assert events == [events[0]] + events[1..];
      }
      EventMatches(events[0], areas, cats) + EventsJoined(events[1..], areas, cats)
  }

  /** The `WHERE` clause: named area and category, collected on or after `day` (text comparison). */
  predicate Eligible(t: EventRow, area: string, category: string, day: string) {
    t.1.name == area && t.2.name == category && !StrLess(t.0.collectionDate, day)
  }

  /**
   * `ORDER BY e.collection_date ASC LIMIT 1`: a row with the least date. The
   * order SQLite gives rows of equal dates is not fixed; this picks the first
   * of them.
   */
  function Earliest(rows: seq<EventRow>): (r: Option<EventRow>)
    ensures r.None? <==> rows == []
    ensures r.Some? ==> r.value in rows
    ensures r.Some? ==> forall t :: t in rows ==> StrLessEq(r.value.0.collectionDate, t.0.collectionDate)
  {
    if rows == [] then None
    else
      var rest := Earliest(rows[1..]);
      var head := rows[0];
      assert forall t :: t in rows <==> t == head || t in rows[1..] by {
        assert rows == [head] + rows[1..];
      }
      if rest.Some? && StrLess(rest.value.0.collectionDate, head.0.collectionDate) then
        rest
      else
        assert rest.Some? ==> StrLessEq(head.0.collectionDate, rest.value.0.collectionDate) by {
          if rest.Some? && head.0.collectionDate != rest.value.0.collectionDate {
            StrLessTotal(head.0.collectionDate, rest.value.0.collectionDate);
          }
        }
        assert forall t :: t in rows[1..] ==> StrLessEq(head.0.collectionDate, t.0.collectionDate) by {
          forall t | t in rows[1..] ensures StrLessEq(head.0.collectionDate, t.0.collectionDate) {
            var a, b, c := head.0.collectionDate, rest.value.0.collectionDate, t.0.collectionDate;
            if StrLess(a, b) && StrLess(b, c) {
              StrLessTransitive(a, b, c);
            }
          }
        }
        Some(head)
  }

  /**
   * `next_pickup`: among the events of the named area and category collected
   * on or after `today` (the clock's day when none is given), one with the
   * earliest date. There is none exactly when no such event exists.
   */
  function NextPickup(db: ReadStore, area: string, category: string, today: Option<string>, clockToday: string): (r: Option<Pickup>)
    ensures var day := today.GetOr(clockToday);
            r.None? <==> forall t :: t in EventsJoined(db.events, db.areas, db.categories) ==> !Eligible(t, area, category, day)
    ensures var day := today.GetOr(clockToday);
            r.Some? ==> exists t :: t in EventsJoined(db.events, db.areas, db.categories) && Eligible(t, area, category, day)
                                    && r.value == Pickup(t.1.name, t.2.name, t.0.collectionDate, t.0.deadlineTime)
    ensures var day := today.GetOr(clockToday);
            r.Some? ==> r.value.area == area && r.value.category == category && StrLessEq(day, r.value.collectionDate)
    ensures var day := today.GetOr(clockToday);
            r.Some? ==> forall t :: t in EventsJoined(db.events, db.areas, db.categories) && Eligible(t, area, category, day) ==>
                                      StrLessEq(r.value.collectionDate, t.0.collectionDate)
  {
    var day := today.GetOr(clockToday);
    var rows := Select(EventsJoined(db.events, db.areas, db.categories), (t: EventRow) => Eligible(t, area, category, day));
    match Earliest(rows)
    case None => None
    case Some(t) =>
      assert StrLessEq(day, t.0.collectionDate) by {
        if day != t.0.collectionDate {
          StrLessTotal(day, t.0.collectionDate);
        }
      }
      Some(Pickup(t.1.name, t.2.name, t.0.collectionDate, t.0.deadlineTime))
  }

  /** Two texts that parse as ISO dates compare as text exactly as their dates compare. */
  lemma ParsedOrder(s1: string, s2: string)
    requires ParseIsoDate(s1).Some? && ParseIsoDate(s2).Some?
    ensures StrLess(s1, s2) <==> DateLess(ParseIsoDate(s1).value, ParseIsoDate(s2).value)
  {
    IsoRoundTrip(s1, ParseIsoDate(s1).value);
    IsoRoundTrip(s2, ParseIsoDate(s2).value);
    IsoOrder(ParseIsoDate(s1).value, ParseIsoDate(s2).value);
  }

  /**
   * When every stored date is an ISO calendar date, the text order the query
   * uses is the calendar order: the pickup found is on or after `today` and no
   * eligible collection is on an earlier calendar day.
   */
  lemma NextPickupChronological(db: ReadStore, area: string, category: string, today: Date, clockToday: string)
    requires ValidDate(today)
    requires forall e :: e in db.events ==> ParseIsoDate(e.collectionDate).Some?
    ensures var r := NextPickup(db, area, category, Some(IsoFormat(today)), clockToday);
            r.Some? ==>
              && ParseIsoDate(r.value.collectionDate).Some?
              && !DateLess(ParseIsoDate(r.value.collectionDate).value, today)
              && forall t :: (t in EventsJoined(db.events, db.areas, db.categories) && t.1.name == area && t.2.name == category
                              && !DateLess(ParseIsoDate(t.0.collectionDate).value, today))
                             ==> !DateLess(ParseIsoDate(t.0.collectionDate).value, ParseIsoDate(r.value.collectionDate).value)
  {
    var day := IsoFormat(today);
    IsoRoundTrip(day, today);
    var r := NextPickup(db, area, category, Some(day), clockToday);
    if r.Some? {
      var joined := EventsJoined(db.events, db.areas, db.categories);
      var found := r.value.collectionDate;
      var w :| w in joined && Eligible(w, area, category, day) && r.value == Pickup(w.1.name, w.2.name, w.0.collectionDate, w.0.deadlineTime);
      ParsedOrder(found, day);
      forall t | t in joined && t.1.name == area && t.2.name == category && !DateLess(ParseIsoDate(t.0.collectionDate).value, today)
        ensures !DateLess(ParseIsoDate(t.0.collectionDate).value, ParseIsoDate(found).value)
      {
        ParsedOrder(t.0.collectionDate, day);
        assert Eligible(t, area, category, day);
        StrLessEqNotGreater(found, t.0.collectionDate);
        ParsedOrder(t.0.collectionDate, found);
      }
    }
  }

  /** What the command line ends with. */
  datatype Outcome =
    | Exit(message: string)   // `SystemExit(message)`
    | NoUpcoming              // "No upcoming pickup found."
    | Found(pickup: Pickup)   // the pickup is printed

  /** Python truthiness of an optional argument: absent and empty both count as missing. */
  predicate Given(arg: Option<string>) {
    arg.Some? && arg.value != ""
  }

  function Report(p: Option<Pickup>): Outcome {
    if p.Some? then Found(p.value) else NoUpcoming
  }

  /**
   * `main`: an item, when given, decides the category and overrides
   * `--category`; an item without a (non-empty) category is an error, and so
   * is giving neither.
   */
  function NextPickupMain(ops: TextOps, db: ReadStore, area: string, item: Option<string>, category: Option<string>,
                          today: Option<string>, clockToday: string): (r: Outcome)
    ensures r.Exit? <==> (!Given(item) && !Given(category)) || (Given(item) && !Given(CategoryFromItem(ops, db, item.value)))
    ensures r.Exit? && !Given(item) ==> r.message == "Either --item or --category is required"
    ensures r.Exit? && Given(item) ==> r.message == "Item not found: " + item.value
    ensures !r.Exit? ==>
              var chosen := if Given(item) then CategoryFromItem(ops, db, item.value).value else category.value;
              r == Report(NextPickup(db, area, chosen, today, clockToday))
  {
    if !Given(item) && !Given(category) then
      Exit("Either --item or --category is required")
    else if Given(item) then
      var found := CategoryFromItem(ops, db, item.value);
      if !Given(found) then Exit("Item not found: " + item.value)
      else Report(NextPickup(db, area, found.value, today, clockToday))
    else
      Report(NextPickup(db, area, category.value, today, clockToday))
  }

  /** With an item given, `--category` has no effect. */
  lemma ItemOverridesCategory(ops: TextOps, db: ReadStore, area: string, item: Option<string>,
                              c1: Option<string>, c2: Option<string>, today: Option<string>, clockToday: string)
    requires Given(item)
    ensures NextPickupMain(ops, db, area, item, c1, today, clockToday) == NextPickupMain(ops, db, area, item, c2, today, clockToday)
  {
  }
}
