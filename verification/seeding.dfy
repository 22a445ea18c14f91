/**
 * What each step of the seeding pass in backend/app/db/seed_schedule.py
 * writes, stated as functions of the schedule document and the tables
 * before the step. The `Database` class (database.dfy) performs the steps
 * with the source's loops and is proved to agree with these functions.
 */
module Seeding {
  import opened Wrappers
  import opened Text
  import opened Dates
  import opened Recurrence
  import Order
  import Tables

  /** The fixed provenance key `upsert_source` writes under. */
  const PdfSourceId := "src_pdf_r7"

  /** `make_id`'s default digest length. */
  const IdLength := 12

  // The schedule document, as the YAML loader hands it over.

  datatype PdfSource = PdfSource(title: string, filePath: string, fetchedAt: Option<string>)

  datatype CategoryEntry = CategoryEntry(name: string, deadlineTime: Option<string>)

  /** An area group; a missing or null `areas` list reads as the empty list. */
  datatype GroupEntry = GroupEntry(id: string, name: string, areas: seq<string>)

  /** A collection rule; `notes` is the JSON text of a present, non-null `notes` value. */
  datatype RuleEntry = RuleEntry(category: string, areaGroupId: string, rule: Rule, notes: Option<string>)

  datatype ScheduleDoc = ScheduleDoc(
    pdf: PdfSource,
    categories: seq<CategoryEntry>,
    areaGroups: seq<GroupEntry>,
    collectionRules: seq<RuleEntry>,
    effectiveStart: string,
    effectiveEnd: string)

  // Table rows, each stored under its primary key.

  datatype SourceRow = SourceRow(sourceType: string, title: string, filePath: string, fetchedAt: string)
  datatype CategoryRow = CategoryRow(name: string, deadlineTime: Option<string>, sourceId: string, updatedAt: string)
  datatype AreaRow = AreaRow(name: string, sourceId: string, updatedAt: string)
  datatype GroupRow = GroupRow(name: string, sourceId: string, updatedAt: string)
  datatype RuleRow = RuleRow(
    groupId: string, categoryId: string, ruleType: string, rule: Rule,
    effectiveStart: string, effectiveEnd: string, note: Option<string>,
    sourceId: string, updatedAt: string)

  /** `collection_events` is unique on (area_id, category_id, collection_date). */
  datatype EventKey = EventKey(areaId: string, categoryId: string, date: string)
  datatype EventRow = EventRow(deadlineTime: Option<string>, note: Option<string>, sourceId: string)

  /** `area_group_members` rows: (group_id, area_id) pairs. */
  type Members = set<(string, string)>

  /** The exceptions that abort `upsert_rules_and_events`. */
  datatype SeedError =
    | BadEffectiveDate(text: string)   // ValueError from date.fromisoformat
    | UnknownCategory(name: string)    // KeyError from cat_id_by_name
    | BadRule(error: DateError)        // raised by generate_dates

  // upsert_source

  /** The `sources` row: an absent or empty `fetched_at` is replaced by `now`. */
  function SourceRowFor(pdf: PdfSource, now: string): SourceRow {
    SourceRow("pdf", pdf.title, pdf.filePath,
              if pdf.fetchedAt.Some? && pdf.fetchedAt.value != "" then pdf.fetchedAt.value else now)
  }

  // upsert_categories

  function CategoryId(ops: TextOps, name: string): string {
    MakeId(ops, "cat", name, IdLength)
  }

  /** The `INSERT OR REPLACE` statements of `upsert_categories`, in document order. */
  function CategoryRows(ops: TextOps, cats: seq<CategoryEntry>, sourceId: string, now: string): seq<(string, CategoryRow)> {
    seq(|cats|, i requires 0 <= i < |cats| =>
      (CategoryId(ops, cats[i].name), CategoryRow(cats[i].name, cats[i].deadlineTime, sourceId, now)))
  }

  /** Every category row sits under the id derived from its own name. */
  ghost predicate CategoriesKeyed(ops: TextOps, cats: map<string, CategoryRow>) {
    forall id :: id in cats ==> id == CategoryId(ops, cats[id].name)
  }

  lemma UpsertCategoriesKeyed(ops: TextOps, t: map<string, CategoryRow>, cats: seq<CategoryEntry>, sourceId: string, now: string)
    requires CategoriesKeyed(ops, t)
    ensures CategoriesKeyed(ops, Tables.Upsert(t, CategoryRows(ops, cats, sourceId, now)))
  {
    var rows := CategoryRows(ops, cats, sourceId, now);
    Tables.UpsertRows(t, rows);
    forall id | id in Tables.Upsert(t, rows) && Tables.LastFor(rows, id).Some?
      ensures id == CategoryId(ops, Tables.Upsert(t, rows)[id].name)
    {
      Tables.LastForIn(rows, id);
    }
  }

  /**
   * `cat_id_by_name[name]`: the dictionary built from every `(name, category_id)`
   * row. Since rows sit under the id of their name, the only candidate is that id.
   */
  function CategoryIdOf(ops: TextOps, cats: map<string, CategoryRow>, name: string): (r: Option<string>)
    ensures r.Some? ==> r.value in cats
  {
    var id := CategoryId(ops, name);
    if id in cats && cats[id].name == name then Some(id) else None
  }

  /** In a keyed table the lookup finds a row exactly when some row carries the name. */
  lemma CategoryIdOfExact(ops: TextOps, cats: map<string, CategoryRow>, name: string, id: string)
    requires CategoriesKeyed(ops, cats)
    ensures CategoryIdOf(ops, cats, name) == Some(id) <==> id in cats && cats[id].name == name
  {
  }

  /**
   * After `upsert_categories`, a listed name that no later entry overwrites with a
   * different name resolves to its own id, carrying its listed deadline.
   */
  lemma CategoryFoundAfterUpsert(ops: TextOps, t: map<string, CategoryRow>, cats: seq<CategoryEntry>,
                                 sourceId: string, now: string, i: int)
    requires 0 <= i < |cats|
    requires forall j :: i < j < |cats| && CategoryId(ops, cats[j].name) == CategoryId(ops, cats[i].name) ==> cats[j] == cats[i]
    ensures var after := Tables.Upsert(t, CategoryRows(ops, cats, sourceId, now));
            && CategoryIdOf(ops, after, cats[i].name) == Some(CategoryId(ops, cats[i].name))
            && after[CategoryId(ops, cats[i].name)].deadlineTime == cats[i].deadlineTime
  {
    var rows := CategoryRows(ops, cats, sourceId, now);
    var id := CategoryId(ops, cats[i].name);
    assert rows[i].0 == id;
    Tables.UpsertRows(t, rows);
    Tables.LastForLatest(rows, i);
    var m :| i <= m < |rows| && rows[m].0 == id && Tables.LastFor(rows, id) == Some(rows[m].1);
    if m > i {
      assert rows[m].0 == CategoryId(ops, cats[m].name);
      assert cats[m] == cats[i];
    }
    assert rows[m] == rows[i];
  }

  // upsert_areas_and_groups

  function AreaId(ops: TextOps, name: string): string {
    MakeId(ops, "area", name, IdLength)
  }

  /** Every area name of every group, in document order (the additions to `area_names`). */
  function AllAreaNames(groups: seq<GroupEntry>): seq<string> {
    if groups == [] then []
    else AllAreaNames(groups[..|groups| - 1]) + groups[|groups| - 1].areas
  }

  lemma {:induction false} AllAreaNamesHas(groups: seq<GroupEntry>, i: int, a: string)
    requires 0 <= i < |groups| && a in groups[i].areas
    ensures a in AllAreaNames(groups)
  {
    if i < |groups| - 1 {
      AllAreaNamesHas(groups[..|groups| - 1], i, a);
    }
  }

  /** A name is collected exactly when some group lists it. */
  lemma {:induction false} AllAreaNamesExact(groups: seq<GroupEntry>, a: string)
    ensures a in AllAreaNames(groups) <==> exists i :: 0 <= i < |groups| && a in groups[i].areas
  {
    if groups != [] {
      var init := groups[..|groups| - 1];
      AllAreaNamesExact(init, a);
      if a in AllAreaNames(init) {
        var i :| 0 <= i < |init| && a in init[i].areas;
        assert groups[i] == init[i];
      }
      if exists i :: 0 <= i < |groups| && a in groups[i].areas {
        var i :| 0 <= i < |groups| && a in groups[i].areas;
        AllAreaNamesHas(groups, i, a);
      }
    }
  }

  /** `sorted(area_names)`. */
  function SortedAreaNames(groups: seq<GroupEntry>): seq<string> {
    Order.SortedUnique(StrLess, AllAreaNames(groups))
  }

  /** Every area a group lists is among the sorted names. */
  lemma SortedAreaNamesHas(groups: seq<GroupEntry>, i: int, a: string)
    requires 0 <= i < |groups| && a in groups[i].areas
    ensures a in SortedAreaNames(groups)
  {
    StrLessStrictTotal();
    Order.SortedUniqueCorrect(StrLess, AllAreaNames(groups));
    AllAreaNamesHas(groups, i, a);
  }

  function AreaRows(ops: TextOps, names: seq<string>, sourceId: string, now: string): seq<(string, AreaRow)> {
    seq(|names|, i requires 0 <= i < |names| => (AreaId(ops, names[i]), AreaRow(names[i], sourceId, now)))
  }

  function GroupRows(groups: seq<GroupEntry>, sourceId: string, now: string): seq<(string, GroupRow)> {
    seq(|groups|, i requires 0 <= i < |groups| => (groups[i].id, GroupRow(groups[i].name, sourceId, now)))
  }

  /** The membership rows a group's listed areas give. */
  function AreaPairs(ops: TextOps, gid: string, areas: seq<string>): Members {
    set a | a in areas :: (gid, AreaId(ops, a))
  }

  /** Listing one more area adds its membership row. */
  lemma AreaPairsNext(ops: TextOps, gid: string, areas: seq<string>, j: int)
    requires 0 <= j < |areas|
    ensures AreaPairs(ops, gid, areas[..j + 1]) == AreaPairs(ops, gid, areas[..j]) + {(gid, AreaId(ops, areas[j]))}
  {
    assert areas[..j + 1] == areas[..j] + [areas[j]];
  }

  /** One group's `DELETE` of its members followed by the `INSERT OR IGNORE` of its listed areas. */
  function Regroup(ops: TextOps, m: Members, g: GroupEntry): Members {
    (set p | p in m && p.0 != g.id) + AreaPairs(ops, g.id, g.areas)
  }

  /** The membership table after regrouping every group in document order. */
  function MembersAfter(ops: TextOps, m: Members, groups: seq<GroupEntry>): Members {
    if groups == [] then m
    else Regroup(ops, MembersAfter(ops, m, groups[..|groups| - 1]), groups[|groups| - 1])
  }

  /** The last group entry with id `gid`, if the document lists one. */
  function LastGroup(groups: seq<GroupEntry>, gid: string): Option<GroupEntry> {
    if groups == [] then None
    else if groups[|groups| - 1].id == gid then Some(groups[|groups| - 1])
    else LastGroup(groups[..|groups| - 1], gid)
  }

  /** The members of group `gid` according to its last entry, or the old ones if it is not listed. */
  ghost predicate MemberAfter(ops: TextOps, m: Members, groups: seq<GroupEntry>, p: (string, string)) {
    match LastGroup(groups, p.0)
    case None => p in m
    case Some(g) => exists a :: a in g.areas && p.1 == AreaId(ops, a)
  }

  /**
   * After `upsert_areas_and_groups`, a listed group's members are exactly the ids
   * of the areas its last entry lists (stale members are gone), and the
   * memberships of unlisted groups are untouched.
   */
  lemma {:induction false} MembersAfterExact(ops: TextOps, m: Members, groups: seq<GroupEntry>)
    ensures forall p :: p in MembersAfter(ops, m, groups) <==> MemberAfter(ops, m, groups, p)
  {
    if groups != [] {
      MembersAfterExact(ops, m, groups[..|groups| - 1]);
    }
  }

  /** Regrouping again with the same document changes nothing. */
  lemma MembersIdempotent(ops: TextOps, m: Members, groups: seq<GroupEntry>)
    ensures MembersAfter(ops, MembersAfter(ops, m, groups), groups) == MembersAfter(ops, m, groups)
  {
    var once := MembersAfter(ops, m, groups);
    MembersAfterExact(ops, m, groups);
    MembersAfterExact(ops, once, groups);
    forall p ensures p in MembersAfter(ops, once, groups) <==> p in once {
      if LastGroup(groups, p.0).None? {
        assert MemberAfter(ops, once, groups, p) == (p in once);
      }
    }
  }

  /**
   * After `upsert_areas_and_groups`, every area name any group lists has an area
   * row under `make_id("area", name)`, and the name stored there derives that id.
   */
  lemma AreasCover(ops: TextOps, t: map<string, AreaRow>, groups: seq<GroupEntry>, sourceId: string, now: string)
    ensures var after := Tables.Upsert(t, AreaRows(ops, SortedAreaNames(groups), sourceId, now));
            forall i, a :: 0 <= i < |groups| && a in groups[i].areas ==>
              AreaId(ops, a) in after && AreaId(ops, after[AreaId(ops, a)].name) == AreaId(ops, a)
  {
    var names := SortedAreaNames(groups);
    var rows := AreaRows(ops, names, sourceId, now);
    StrLessStrictTotal();
    Order.SortedUniqueCorrect(StrLess, AllAreaNames(groups));
    Tables.UpsertRows(t, rows);
    forall i, a | 0 <= i < |groups| && a in groups[i].areas
      ensures AreaId(ops, a) in Tables.Upsert(t, rows)
      ensures AreaId(ops, Tables.Upsert(t, rows)[AreaId(ops, a)].name) == AreaId(ops, a)
    {
      AllAreaNamesHas(groups, i, a);
      var k :| 0 <= k < |names| && names[k] == a;
      Tables.LastForWritten(rows, k);
      Tables.LastForIn(rows, AreaId(ops, a));
    }
  }

  // upsert_rules_and_events

  /** What the rule loop reads besides the rule entries: tables and values fixed before it starts. */
  datatype RuleContext = RuleContext(
    ops: TextOps,
    cats: map<string, CategoryRow>,
    members: Members,
    start: CalendarDate,
    end: CalendarDate,
    startText: string,
    endText: string,
    sourceId: string,
    now: string)

  /** The rule's id: its content (group, category name, rule type) hashed. */
  function RuleId(ops: TextOps, r: RuleEntry): string {
    MakeId(ops, "rule", r.areaGroupId + "|" + r.category + "|" + r.rule.kind, IdLength)
  }

  /** `SELECT area_id FROM area_group_members WHERE group_id=?`. */
  function MemberAreas(m: Members, gid: string): set<string> {
    set p | p in m && p.0 == gid :: p.1
  }

  /** The events one rule fans out: every member area on every generated date. */
  function EventKeys(areaIds: set<string>, categoryId: string, dates: seq<Date>): set<EventKey> {
    set a, d | a in areaIds && d in dates && ValidDate(d) :: EventKey(a, categoryId, IsoFormat(d))
  }

  /** Everything one iteration of the rule loop writes. */
  datatype Step = Step(ruleId: string, rule: RuleRow, keys: set<EventKey>, event: EventRow)

  /** One iteration of the rule loop: the writes it makes, or the exception it raises. */
  function StepFor(ctx: RuleContext, r: RuleEntry): (res: Result<Step, SeedError>)
    ensures res.Ok? <==> CategoryIdOf(ctx.ops, ctx.cats, r.category).Some? && DatesSpec(r.rule, ctx.start, ctx.end).Ok?
  {
    match CategoryIdOf(ctx.ops, ctx.cats, r.category)
    case None => Err(UnknownCategory(r.category))
    case Some(cid) =>
      match DatesSpec(r.rule, ctx.start, ctx.end)
      case Err(e) => Err(BadRule(e))
      case Ok(dates) =>
        Ok(Step(RuleId(ctx.ops, r),
                RuleRow(r.areaGroupId, cid, r.rule.kind, r.rule, ctx.startText, ctx.endText, r.notes, ctx.sourceId, ctx.now),
                EventKeys(MemberAreas(ctx.members, r.areaGroupId), cid, dates),
                EventRow(ctx.cats[cid].deadlineTime, r.notes, ctx.sourceId)))
  }

  /** The writes of the whole rule loop, or the first exception. */
  function Plan(ctx: RuleContext, rules: seq<RuleEntry>): (res: Result<seq<Step>, SeedError>)
    ensures res.Ok? <==> forall i :: 0 <= i < |rules| ==> StepFor(ctx, rules[i]).Ok?
  {
    var f := (r: RuleEntry) => StepFor(ctx, r);
    TraverseExact(f, rules);
    Traverse(f, rules)
  }

  /**
   * The rule loop succeeds exactly when every rule does, giving one step per
   * rule in order; otherwise it reports the error of the first rule that fails.
   */
  lemma PlanExact(ctx: RuleContext, rules: seq<RuleEntry>)
    ensures var res := Plan(ctx, rules);
            && (res.Ok? <==> forall i :: 0 <= i < |rules| ==> StepFor(ctx, rules[i]).Ok?)
            && (res.Ok? ==> |res.value| == |rules| && forall i :: 0 <= i < |rules| ==> res.value[i] == StepFor(ctx, rules[i]).value)
            && (res.Err? ==>
                  exists k :: 0 <= k < |rules| && StepFor(ctx, rules[k]).Err? && res.error == StepFor(ctx, rules[k]).error
                    && forall i :: 0 <= i < k ==> StepFor(ctx, rules[i]).Ok?)
  {
    var f := (r: RuleEntry) => StepFor(ctx, r);
    TraverseExact(f, rules);
  }

  function RuleRows(steps: seq<Step>): seq<(string, RuleRow)> {
    seq(|steps|, i requires 0 <= i < |steps| => (steps[i].ruleId, steps[i].rule))
  }

  /** The `INSERT OR IGNORE` fan-out of every step, in order. */
  function Fill(events: map<EventKey, EventRow>, steps: seq<Step>): (r: map<EventKey, EventRow>)
    ensures forall k :: k in events ==> k in r && r[k] == events[k]
  {
    if steps == [] then events
    else
      var last := steps[|steps| - 1];
      Tables.InsertAbsent(Fill(events, steps[..|steps| - 1]), last.keys, last.event)
  }

  /** The context `upsert_rules_and_events` runs in, once both effective dates parse. */
  function ContextFor(ops: TextOps, doc: ScheduleDoc, cats: map<string, CategoryRow>, members: Members,
                      sourceId: string, now: string): Result<RuleContext, SeedError>
  {
    match ParseIsoDate(doc.effectiveStart)
    case None => Err(BadEffectiveDate(doc.effectiveStart))
    case Some(start) =>
      match ParseIsoDate(doc.effectiveEnd)
      case None => Err(BadEffectiveDate(doc.effectiveEnd))
      case Some(end) =>
        Ok(RuleContext(ops, cats, members, start, end, doc.effectiveStart, doc.effectiveEnd, sourceId, now))
  }

  function PlanFor(ops: TextOps, doc: ScheduleDoc, cats: map<string, CategoryRow>, members: Members,
                   sourceId: string, now: string): Result<seq<Step>, SeedError>
  {
    match ContextFor(ops, doc, cats, members, sourceId, now)
    case Err(e) => Err(e)
    case Ok(ctx) => Plan(ctx, doc.collectionRules)
  }

  /**
   * The fan-out: afterwards the table holds the old events with their rows unchanged,
   * plus every key some step fans out; a new key carries the row of the first step
   * that produced it.
   */
  lemma {:induction false} FillExact(events: map<EventKey, EventRow>, steps: seq<Step>)
    ensures forall k :: k in Fill(events, steps) <==> k in events || exists i :: 0 <= i < |steps| && k in steps[i].keys
    ensures forall k :: k in Fill(events, steps) && k !in events ==>
              exists i :: 0 <= i < |steps| && k in steps[i].keys && Fill(events, steps)[k] == steps[i].event
                && forall j :: 0 <= j < i ==> k !in steps[j].keys
  {
    FillKeys(events, steps);
    FillRows(events, steps);
  }

  /** The keys after the fan-out: the old ones and every key some step produces. */
  lemma {:induction false} FillKeys(events: map<EventKey, EventRow>, steps: seq<Step>)
    ensures forall k :: k in Fill(events, steps) <==> k in events || exists i :: 0 <= i < |steps| && k in steps[i].keys
  {
    if steps != [] {
      var init := steps[..|steps| - 1];
      FillKeys(events, init);
      forall k ensures k in Fill(events, steps) <==> k in events || exists i :: 0 <= i < |steps| && k in steps[i].keys {
        if exists i :: 0 <= i < |init| && k in init[i].keys {
          var i :| 0 <= i < |init| && k in init[i].keys;
          assert steps[i] == init[i];
        }
        if exists i :: 0 <= i < |steps| && k in steps[i].keys {
          var i :| 0 <= i < |steps| && k in steps[i].keys;
          if i < |init| {
            assert steps[i] == init[i];
          }
        }
      }
    }
  }

  /** A new key carries the row of the first step that produces it. */
  lemma {:induction false} FillRows(events: map<EventKey, EventRow>, steps: seq<Step>)
    ensures forall k :: k in Fill(events, steps) && k !in events ==>
              exists i :: 0 <= i < |steps| && k in steps[i].keys && Fill(events, steps)[k] == steps[i].event
                && forall j :: 0 <= j < i ==> k !in steps[j].keys
  {
    if steps != [] {
      var init := steps[..|steps| - 1];
      var before := Fill(events, init);
      FillKeys(events, init);
      FillRows(events, init);
      forall k | k in Fill(events, steps) && k !in events
        ensures exists i :: 0 <= i < |steps| && k in steps[i].keys && Fill(events, steps)[k] == steps[i].event
                  && forall j :: 0 <= j < i ==> k !in steps[j].keys
      {
        if k in before {
          var i :| 0 <= i < |init| && k in init[i].keys && before[k] == init[i].event
                   && forall j :: 0 <= j < i ==> k !in init[j].keys;
          assert steps[i] == init[i];
          assert forall j :: 0 <= j < i ==> steps[j] == init[j];
        } else {
          var i := |steps| - 1;
          assert forall j :: 0 <= j < i ==> steps[j] == init[j];
          assert forall j :: 0 <= j < i ==> k !in steps[j].keys;
        }
      }
    }
  }

  /** Fanning out keys that are all present already changes nothing. */
  lemma {:induction false} FillPresent(events: map<EventKey, EventRow>, steps: seq<Step>)
    requires forall i :: 0 <= i < |steps| ==> steps[i].keys <= events.Keys
    ensures Fill(events, steps) == events
  {
    if steps != [] {
      FillPresent(events, steps[..|steps| - 1]);
      Tables.InsertAbsentPresent(events, steps[|steps| - 1].keys, steps[|steps| - 1].event);
    }
  }

  /** Re-running the fan-out leaves the event table unchanged. */
  lemma FillIdempotent(events: map<EventKey, EventRow>, steps: seq<Step>)
    ensures Fill(Fill(events, steps), steps) == Fill(events, steps)
  {
    FillExact(events, steps);
    FillPresent(Fill(events, steps), steps);
  }

  /** A rule's step fans out to every member area of its group on every date the rule generates. */
  lemma StepKeys(ctx: RuleContext, r: RuleEntry)
    requires StepFor(ctx, r).Ok?
    ensures var cid := CategoryIdOf(ctx.ops, ctx.cats, r.category).value;
            forall a, d :: a in MemberAreas(ctx.members, r.areaGroupId) && d in DatesSpec(r.rule, ctx.start, ctx.end).value ==>
              EventKey(a, cid, IsoFormat(d)) in StepFor(ctx, r).value.keys
    ensures StepFor(ctx, r).value.event.deadlineTime == ctx.cats[CategoryIdOf(ctx.ops, ctx.cats, r.category).value].deadlineTime
    ensures forall k :: k in StepFor(ctx, r).value.keys ==> k.categoryId == CategoryIdOf(ctx.ops, ctx.cats, r.category).value
  {
    var cid := CategoryIdOf(ctx.ops, ctx.cats, r.category).value;
    var dates := DatesSpec(r.rule, ctx.start, ctx.end).value;
    var areaIds := MemberAreas(ctx.members, r.areaGroupId);
    assert StepFor(ctx, r).value.keys == EventKeys(areaIds, cid, dates);
    forall a, d | a in areaIds && d in dates ensures EventKey(a, cid, IsoFormat(d)) in EventKeys(areaIds, cid, dates) {
      EventKeysHas(areaIds, cid, dates, a, d);
    }
  }

  lemma EventKeysHas(areaIds: set<string>, categoryId: string, dates: seq<Date>, a: string, d: Date)
    requires a in areaIds && d in dates && ValidDate(d)
    ensures EventKey(a, categoryId, IsoFormat(d)) in EventKeys(areaIds, categoryId, dates)
  {
  }

  /**
   * After a successful `upsert_rules_and_events`: every member area of each rule's
   * group has an event on every date the rule generates; an event that existed
   * before keeps its row; and every new event carries its category's stored
   * `deadline_time`.
   */
  lemma EventsCover(ctx: RuleContext, rules: seq<RuleEntry>, events: map<EventKey, EventRow>)
    requires Plan(ctx, rules).Ok?
    ensures var after := Fill(events, Plan(ctx, rules).value);
            && (forall i, a, d ::
                  0 <= i < |rules| && a in MemberAreas(ctx.members, rules[i].areaGroupId)
                  && d in DatesSpec(rules[i].rule, ctx.start, ctx.end).value
                  ==> EventKey(a, CategoryIdOf(ctx.ops, ctx.cats, rules[i].category).value, IsoFormat(d)) in after)
            && (forall k :: k in events ==> after[k] == events[k])
            && (forall k :: k in after && k !in events ==>
                  k.categoryId in ctx.cats && after[k].deadlineTime == ctx.cats[k.categoryId].deadlineTime)
  {
    var steps := Plan(ctx, rules).value;
    PlanExact(ctx, rules);
    FillExact(events, steps);
    var after := Fill(events, steps);
    forall i | 0 <= i < |rules|
      ensures forall a, d :: a in MemberAreas(ctx.members, rules[i].areaGroupId)
                && d in DatesSpec(rules[i].rule, ctx.start, ctx.end).value
                ==> EventKey(a, CategoryIdOf(ctx.ops, ctx.cats, rules[i].category).value, IsoFormat(d)) in after
    {
      assert steps[i] == StepFor(ctx, rules[i]).value;
      StepKeys(ctx, rules[i]);
    }
    forall k | k in after && k !in events
      ensures k.categoryId in ctx.cats && after[k].deadlineTime == ctx.cats[k.categoryId].deadlineTime
    {
      var i :| 0 <= i < |steps| && k in steps[i].keys && after[k] == steps[i].event;
      assert steps[i] == StepFor(ctx, rules[i]).value;
      StepKeys(ctx, rules[i]);
    }
  }

  /** The rule loop, one rule at a time: a failing rule stops it, a passing one adds its step. */
  lemma PlanCons(ctx: RuleContext, rules: seq<RuleEntry>)
    requires rules != []
    ensures Plan(ctx, rules) == match StepFor(ctx, rules[0])
                                case Err(e) => Err(e)
                                case Ok(st) => Prepend([st], Plan(ctx, rules[1..]))
  {
  }

  /** The rule loop stops at the first rule that raises, with that rule's error. */
  lemma PlanStops(ctx: RuleContext, rules: seq<RuleEntry>, i: int, done: seq<Step>)
    requires 0 <= i < |rules| && StepFor(ctx, rules[i]).Err?
    requires Prepend(done, Plan(ctx, rules[i..])) == Plan(ctx, rules)
    ensures Plan(ctx, rules) == Err(StepFor(ctx, rules[i]).error)
  {
    PlanCons(ctx, rules[i..]);
  }

  /** A rule that succeeds moves its step from the plan still to run to the steps done. */
  lemma PlanAdvances(ctx: RuleContext, rules: seq<RuleEntry>, i: int, done: seq<Step>)
    requires 0 <= i < |rules| && StepFor(ctx, rules[i]).Ok?
    requires Prepend(done, Plan(ctx, rules[i..])) == Plan(ctx, rules)
    ensures Prepend(done + [StepFor(ctx, rules[i]).value], Plan(ctx, rules[i + 1..])) == Plan(ctx, rules)
  {
    PlanCons(ctx, rules[i..]);
    assert rules[i..][1..] == rules[i + 1..];
    PrependTwice(done, [StepFor(ctx, rules[i]).value], Plan(ctx, rules[i + 1..]));
  }

  /** One more step writes one more rule row. */
  lemma RuleRowsNext(steps: seq<Step>, st: Step)
    ensures RuleRows(steps + [st]) == RuleRows(steps) + [(st.ruleId, st.rule)]
  {
  }

  /** One more step fans out its keys over the table the earlier steps left. */
  lemma FillNext(events: map<EventKey, EventRow>, steps: seq<Step>, st: Step)
    ensures Fill(events, steps + [st]) == Tables.InsertAbsent(Fill(events, steps), st.keys, st.event)
  {
    assert (steps + [st])[..|steps|] == steps;
  }

  /** Fanning out one more date for a single area adds one key. */
  lemma EventKeysNextDate(a: string, categoryId: string, dates: seq<Date>, j: int)
    requires 0 <= j < |dates| && ValidDate(dates[j])
    ensures EventKeys({a}, categoryId, dates[..j + 1])
            == EventKeys({a}, categoryId, dates[..j]) + {EventKey(a, categoryId, IsoFormat(dates[j]))}
  {
    assert dates[..j + 1] == dates[..j] + [dates[j]];
  }

  /** Fanning out one more area adds that area's keys. */
  lemma EventKeysNextArea(areaIds: set<string>, a: string, categoryId: string, dates: seq<Date>)
    ensures EventKeys(areaIds + {a}, categoryId, dates) == EventKeys(areaIds, categoryId, dates) + EventKeys({a}, categoryId, dates)
  {
  }

  // main: the four steps in order

  /** All tables, as values. */
  datatype Store = Store(
    sources: map<string, SourceRow>,
    categories: map<string, CategoryRow>,
    areas: map<string, AreaRow>,
    groups: map<string, GroupRow>,
    members: Members,
    rules: map<string, RuleRow>,
    events: map<EventKey, EventRow>)

  /** The `datetime.utcnow()` reading each step takes. */
  datatype Clock = Clock(source: string, categories: string, areas: string, rules: string)

  /** The tables a run leaves, and whether it finished or raised. */
  datatype Seeded = Seeded(store: Store, result: Result<(), SeedError>)

  /** The tables after `upsert_source`. */
  function AfterSource(s: Store, pdf: PdfSource, now: string): (r: Store)
    ensures r == s.(sources := r.sources)
    ensures r.sources.Keys == s.sources.Keys + {PdfSourceId}
    ensures forall k :: k in s.sources && k != PdfSourceId ==> r.sources[k] == s.sources[k]
    ensures pdf.fetchedAt.None? ==> r.sources[PdfSourceId].fetchedAt == now
  {
    s.(sources := s.sources[PdfSourceId := SourceRowFor(pdf, now)])
  }

  /** The tables after `upsert_categories`. */
  function AfterCategories(ops: TextOps, s: Store, cats: seq<CategoryEntry>, sourceId: string, now: string): (r: Store)
    ensures r == s.(categories := r.categories)
    ensures forall k :: k in s.categories ==> k in r.categories
    ensures forall i :: 0 <= i < |cats| ==> CategoryId(ops, cats[i].name) in r.categories
  {
    var rows := CategoryRows(ops, cats, sourceId, now);
    assert forall i :: 0 <= i < |cats| ==> rows[i].0 == CategoryId(ops, cats[i].name);
    s.(categories := Tables.Upsert(s.categories, rows))
  }

  /** The tables after `upsert_areas_and_groups`. */
  function AfterGroups(ops: TextOps, s: Store, groups: seq<GroupEntry>, sourceId: string, now: string): (r: Store)
    ensures r == s.(areas := r.areas, groups := r.groups, members := r.members)
    ensures forall k :: k in s.areas ==> k in r.areas
    ensures forall i :: 0 <= i < |groups| ==> groups[i].id in r.groups
  {
    var rows := GroupRows(groups, sourceId, now);
    assert forall i :: 0 <= i < |groups| ==> rows[i].0 == groups[i].id;
    s.(areas := Tables.Upsert(s.areas, AreaRows(ops, SortedAreaNames(groups), sourceId, now)),
       groups := Tables.Upsert(s.groups, GroupRows(groups, sourceId, now)),
       members := MembersAfter(ops, s.members, groups))
  }

  /** The tables after `upsert_rules_and_events`, which leaves both its tables as they were when it raises. */
  function AfterRules(ops: TextOps, s: Store, doc: ScheduleDoc, sourceId: string, now: string): (r: Seeded)
    ensures r.store == s.(rules := r.store.rules, events := r.store.events)
    ensures r.result.Err? ==> r.store == s
  {
    match PlanFor(ops, doc, s.categories, s.members, sourceId, now)
    case Err(e) => Seeded(s, Err(e))
    case Ok(steps) =>
      Seeded(s.(rules := Tables.Upsert(s.rules, RuleRows(steps)), events := Fill(s.events, steps)), Ok(()))
  }

  /** The rule step when an effective date does not parse: nothing is written. */
  lemma AfterRulesBadContext(ops: TextOps, s: Store, doc: ScheduleDoc, sourceId: string, now: string, e: SeedError)
    requires ContextFor(ops, doc, s.categories, s.members, sourceId, now) == Err(e)
    ensures AfterRules(ops, s, doc, sourceId, now) == Seeded(s, Err(e))
  {
  }

  /** The rule step when a rule raises: nothing is written, and the first rule's error is reported. */
  lemma AfterRulesFails(ops: TextOps, s: Store, doc: ScheduleDoc, sourceId: string, now: string, ctx: RuleContext, e: SeedError)
    requires ContextFor(ops, doc, s.categories, s.members, sourceId, now) == Ok(ctx)
    requires Plan(ctx, doc.collectionRules) == Err(e)
    ensures AfterRules(ops, s, doc, sourceId, now) == Seeded(s, Err(e))
  {
  }

  /** The rule step when every rule succeeds: all rule rows are written and all steps fanned out. */
  lemma AfterRulesSucceeds(ops: TextOps, s: Store, doc: ScheduleDoc, sourceId: string, now: string, ctx: RuleContext, steps: seq<Step>)
    requires ContextFor(ops, doc, s.categories, s.members, sourceId, now) == Ok(ctx)
    requires Plan(ctx, doc.collectionRules) == Ok(steps)
    ensures AfterRules(ops, s, doc, sourceId, now)
            == Seeded(s.(rules := Tables.Upsert(s.rules, RuleRows(steps)), events := Fill(s.events, steps)), Ok(()))
  {
  }

  /**
   * `main`: `upsert_source`, `upsert_categories`, `upsert_areas_and_groups` and
   * `upsert_rules_and_events`, in this order. The first three commit; an exception
   * in the last leaves its two tables as they were.
   */
  function SeedSpec(ops: TextOps, s: Store, doc: ScheduleDoc, clock: Clock): (r: Seeded)
    ensures PdfSourceId in r.store.sources
    ensures forall k :: k in s.events ==> k in r.store.events && r.store.events[k] == s.events[k]
    ensures forall i :: 0 <= i < |doc.categories| ==> CategoryId(ops, doc.categories[i].name) in r.store.categories
  {
    var s1 := AfterSource(s, doc.pdf, clock.source);
    var s2 := AfterCategories(ops, s1, doc.categories, PdfSourceId, clock.categories);
    var s3 := AfterGroups(ops, s2, doc.areaGroups, PdfSourceId, clock.areas);
    AfterRules(ops, s3, doc, PdfSourceId, clock.rules)
  }

  /** Re-running `upsert_rules_and_events` on the tables it left changes nothing and raises the same way. */
  lemma RulesIdempotent(ops: TextOps, s: Store, doc: ScheduleDoc, sourceId: string, now: string)
    ensures AfterRules(ops, AfterRules(ops, s, doc, sourceId, now).store, doc, sourceId, now) == AfterRules(ops, s, doc, sourceId, now)
  {
    var plan := PlanFor(ops, doc, s.categories, s.members, sourceId, now);
    if plan.Ok? {
      Tables.UpsertIdempotent(s.rules, RuleRows(plan.value));
      FillIdempotent(s.events, plan.value);
    }
  }

  /** Re-running `upsert_areas_and_groups` changes nothing. */
  lemma GroupsIdempotent(ops: TextOps, s: Store, groups: seq<GroupEntry>, sourceId: string, now: string)
    ensures AfterGroups(ops, AfterGroups(ops, s, groups, sourceId, now), groups, sourceId, now) == AfterGroups(ops, s, groups, sourceId, now)
  {
    Tables.UpsertIdempotent(s.areas, AreaRows(ops, SortedAreaNames(groups), sourceId, now));
    Tables.UpsertIdempotent(s.groups, GroupRows(groups, sourceId, now));
    MembersIdempotent(ops, s.members, groups);
  }

  /** A run over tables the first three steps leave as they are is just the rule step. */
  lemma SeedSettled(ops: TextOps, t: Store, doc: ScheduleDoc, clock: Clock)
    requires AfterSource(t, doc.pdf, clock.source) == t
    requires AfterCategories(ops, t, doc.categories, PdfSourceId, clock.categories) == t
    requires AfterGroups(ops, t, doc.areaGroups, PdfSourceId, clock.areas) == t
    ensures SeedSpec(ops, t, doc, clock) == AfterRules(ops, t, doc, PdfSourceId, clock.rules)
  {
  }

  /** Tables whose source row is the one `upsert_source` writes are left as they are by it. */
  lemma SourceSettled(t: Store, s: Store, pdf: PdfSource, now: string)
    requires t.sources == AfterSource(s, pdf, now).sources
    ensures AfterSource(t, pdf, now) == t
  {
  }

  /** Tables whose categories `upsert_categories` already wrote are left as they are by it. */
  lemma CategoriesSettled(ops: TextOps, t: Store, s: Store, cats: seq<CategoryEntry>, sourceId: string, now: string)
    requires t.categories == AfterCategories(ops, s, cats, sourceId, now).categories
    ensures AfterCategories(ops, t, cats, sourceId, now) == t
  {
    Tables.UpsertIdempotent(s.categories, CategoryRows(ops, cats, sourceId, now));
  }

  /** Tables whose areas, groups and memberships `upsert_areas_and_groups` already wrote are left as they are by it. */
  lemma GroupsSettled(ops: TextOps, t: Store, s: Store, groups: seq<GroupEntry>, sourceId: string, now: string)
    requires var g := AfterGroups(ops, s, groups, sourceId, now);
             t.areas == g.areas && t.groups == g.groups && t.members == g.members
    ensures AfterGroups(ops, t, groups, sourceId, now) == t
  {
    GroupsIdempotent(ops, s, groups, sourceId, now);
  }

  /**
   * Seeding twice from the same document, with the same clock readings, leaves
   * exactly the tables one seeding leaves, and reports the same outcome.
   */
  lemma SeedIdempotent(ops: TextOps, s: Store, doc: ScheduleDoc, clock: Clock)
    ensures SeedSpec(ops, SeedSpec(ops, s, doc, clock).store, doc, clock) == SeedSpec(ops, s, doc, clock)
  {
    var s1 := AfterSource(s, doc.pdf, clock.source);
    var s2 := AfterCategories(ops, s1, doc.categories, PdfSourceId, clock.categories);
    var s3 := AfterGroups(ops, s2, doc.areaGroups, PdfSourceId, clock.areas);
    var t := AfterRules(ops, s3, doc, PdfSourceId, clock.rules).store;
    SourceSettled(t, s, doc.pdf, clock.source);
    CategoriesSettled(ops, t, s1, doc.categories, PdfSourceId, clock.categories);
    GroupsSettled(ops, t, s2, doc.areaGroups, PdfSourceId, clock.areas);
    SeedSettled(ops, t, doc, clock);
    RulesIdempotent(ops, s3, doc, PdfSourceId, clock.rules);
  }
}
