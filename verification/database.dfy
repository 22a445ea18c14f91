/**
 * The SQLite connection of backend/app/db/seed_schedule.py as an object whose
 * tables the seeding steps update in place, one statement at a time, with the
 * loops of the source. Each step is proved to leave exactly the tables the
 * matching function of module Seeding describes.
 */
module SeedDb {
  import opened Wrappers
  import opened Text
  import opened Dates
  import opened Recurrence
  import opened Seeding
  import Order
  import Tables

  /** The `name -> area_id` dictionary knows every listed area, under its `make_id("area", name)`. */
  ghost predicate NamesMapped(ops: TextOps, areaGroups: seq<GroupEntry>, areaIdByName: map<string, string>) {
    forall i, a :: 0 <= i < |areaGroups| && a in areaGroups[i].areas ==>
      a in areaIdByName && areaIdByName[a] == AreaId(ops, a)
  }

  /** A dictionary that maps the sorted names to their ids maps every listed area. */
  lemma NamesMappedBySorted(ops: TextOps, areaGroups: seq<GroupEntry>, areaIdByName: map<string, string>)
    requires forall n :: n in SortedAreaNames(areaGroups) ==> n in areaIdByName
    requires forall n :: n in areaIdByName ==> areaIdByName[n] == AreaId(ops, n)
    ensures NamesMapped(ops, areaGroups, areaIdByName)
  {
    forall i, a | 0 <= i < |areaGroups| && a in areaGroups[i].areas ensures a in areaIdByName {
      SortedAreaNamesHas(areaGroups, i, a);
    }
  }

  /** The `name -> area_id` dictionary holds the first `k` names, each under its id. */
  ghost predicate IdsSoFar(ops: TextOps, names: seq<string>, k: int, areaIdByName: map<string, string>) {
    && (forall j :: 0 <= j < k && j < |names| ==> names[j] in areaIdByName)
    && (forall n :: n in areaIdByName ==> areaIdByName[n] == AreaId(ops, n))
  }

  /** Recording one more name under its id extends the dictionary by that name. */
  lemma IdsNext(ops: TextOps, names: seq<string>, k: int, areaIdByName: map<string, string>)
    requires 0 <= k < |names| && IdsSoFar(ops, names, k, areaIdByName)
    ensures IdsSoFar(ops, names, k + 1, areaIdByName[names[k] := AreaId(ops, names[k])])
  {
  }

  class Database {
    /** The NFKC and SHA-1 implementations the ids are derived with. */
    const ops: TextOps

    var sources: map<string, SourceRow>
    var categories: map<string, CategoryRow>
    var areas: map<string, AreaRow>
    var groups: map<string, GroupRow>
    var members: Members
    var rules: map<string, RuleRow>
    var events: map<EventKey, EventRow>

    /**
     * Every category row sits under `make_id("cat", name)`, so the
     * `name -> category_id` dictionary of the rule step is the lookup
     * `CategoryIdOf` performs. A fresh database has this property and every
     * seeding step keeps it.
     */
    ghost predicate Valid()
      reads this
    {
      CategoriesKeyed(ops, categories)
    }

    /** All tables, as values. */
    function Snapshot(): Store
      reads this
    {
      Store(sources, categories, areas, groups, members, rules, events)
    }

    /** A fresh database: every table empty. */
    constructor (ops: TextOps)
      ensures this.ops == ops
      ensures Snapshot() == Store(map[], map[], map[], map[], {}, map[], map[])
      ensures Valid()
    {
      this.ops := ops;
      sources, categories, areas, groups := map[], map[], map[], map[];
      members, rules, events := {}, map[], map[];
    }

    /** `upsert_source`: one `INSERT OR REPLACE` under the fixed source id, which it returns. */
    method UpsertSource(pdf: PdfSource, now: string) returns (sourceId: string)
      modifies this`sources
      ensures sourceId == PdfSourceId
      ensures Snapshot() == AfterSource(old(Snapshot()), pdf, now)
      ensures old(Valid()) ==> Valid()
    {
      sourceId := PdfSourceId;
      sources := sources[sourceId := SourceRowFor(pdf, now)];
    }

    /** `upsert_categories`: one `INSERT OR REPLACE` per listed category, in order. */
    method UpsertCategories(cats: seq<CategoryEntry>, sourceId: string, now: string)
      modifies this`categories
      ensures Snapshot() == AfterCategories(ops, old(Snapshot()), cats, sourceId, now)
      ensures old(Valid()) ==> Valid()
    {
      ghost var rows := CategoryRows(ops, cats, sourceId, now);
      for i := 0 to |cats|
        invariant categories == Tables.Upsert(old(categories), rows[..i])
      {
        var categoryId := CategoryId(ops, cats[i].name);
        categories := categories[categoryId := CategoryRow(cats[i].name, cats[i].deadlineTime, sourceId, now)];
        Tables.UpsertNext(old(categories), rows, i);
      }
      assert rows[..|cats|] == rows;
      if old(Valid()) {
        UpsertCategoriesKeyed(ops, old(categories), cats, sourceId, now);
      }
    }

    /**
     * `upsert_areas_and_groups`: collects every listed area name, writes one area
     * row per distinct name in sorted order, then for each group rewrites its row
     * and replaces its memberships.
     */
    method UpsertAreasAndGroups(areaGroups: seq<GroupEntry>, sourceId: string, now: string)
      modifies this`areas, this`groups, this`members
      ensures Snapshot() == AfterGroups(ops, old(Snapshot()), areaGroups, sourceId, now)
      ensures old(Valid()) ==> Valid()
    {
      var collected := CollectAreaNames(areaGroups);
      var names := Order.SortedUnique(StrLess, collected);
      assert names == SortedAreaNames(areaGroups);
      var areaIdByName := UpsertAreas(names, sourceId, now);
      NamesMappedBySorted(ops, areaGroups, areaIdByName);
      RegroupAll(areaGroups, areaIdByName, sourceId, now);
      assert areas == Tables.Upsert(old(areas), AreaRows(ops, SortedAreaNames(areaGroups), sourceId, now));
    }

    /** The first loop of `upsert_areas_and_groups`: every area name, in the order the groups list them. */
    method CollectAreaNames(areaGroups: seq<GroupEntry>) returns (collected: seq<string>)
      ensures forall a :: a in collected <==> exists i :: 0 <= i < |areaGroups| && a in areaGroups[i].areas
      ensures collected == AllAreaNames(areaGroups)
    {
      collected := [];
      for gi := 0 to |areaGroups|
        invariant collected == AllAreaNames(areaGroups[..gi])
      {
        var areaList := areaGroups[gi].areas;
        for j := 0 to |areaList|
          invariant collected == AllAreaNames(areaGroups[..gi]) + areaList[..j]
        {
          collected := collected + [areaList[j]];
          assert areaList[..j + 1] == areaList[..j] + [areaList[j]];
        }
        assert areaGroups[..gi + 1][..gi] == areaGroups[..gi];
        assert areaList[..|areaList|] == areaList;
      }
      assert areaGroups[..|areaGroups|] == areaGroups;
      forall a ensures a in collected <==> exists i :: 0 <= i < |areaGroups| && a in areaGroups[i].areas {
        AllAreaNamesExact(areaGroups, a);
      }
    }

    /** The area loop: one `INSERT OR REPLACE` per name, remembering each name's id. */
    method UpsertAreas(names: seq<string>, sourceId: string, now: string) returns (areaIdByName: map<string, string>)
      modifies this`areas
      ensures areas == Tables.Upsert(old(areas), AreaRows(ops, names, sourceId, now))
      ensures forall n :: n in names ==> n in areaIdByName
      ensures forall n :: n in areaIdByName ==> areaIdByName[n] == AreaId(ops, n)
    {
      ghost var areaRows := AreaRows(ops, names, sourceId, now);
      areaIdByName := map[];
      for k := 0 to |names|
        invariant areas == Tables.Upsert(old(areas), areaRows[..k])
        invariant IdsSoFar(ops, names, k, areaIdByName)
      {
        var areaId := AreaId(ops, names[k]);
        IdsNext(ops, names, k, areaIdByName);
        areaIdByName := areaIdByName[names[k] := areaId];
        areas := areas[areaId := AreaRow(names[k], sourceId, now)];
        assert areaRows[k] == (areaId, AreaRow(names[k], sourceId, now));
        Tables.UpsertNext(old(areas), areaRows, k);
      }
      assert areaRows[..|names|] == areaRows;
      forall n | n in names ensures n in areaIdByName {
        var j :| 0 <= j < |names| && names[j] == n;
      }
    }

    /** The group loop: each group's row is rewritten and its memberships replaced by its listed areas. */
    method RegroupAll(areaGroups: seq<GroupEntry>, areaIdByName: map<string, string>, sourceId: string, now: string)
      requires NamesMapped(ops, areaGroups, areaIdByName)
      modifies this`groups, this`members
      ensures groups == Tables.Upsert(old(groups), GroupRows(areaGroups, sourceId, now))
      ensures members == MembersAfter(ops, old(members), areaGroups)
    {
      ghost var groupRows := GroupRows(areaGroups, sourceId, now);
      for gi := 0 to |areaGroups|
        invariant groups == Tables.Upsert(old(groups), groupRows[..gi])
        invariant members == MembersAfter(ops, old(members), areaGroups[..gi])
      {
        var g := areaGroups[gi];
        groups := groups[g.id := GroupRow(g.name, sourceId, now)];
        var kept := set p | p in members && p.0 != g.id;
        members := kept;
        ghost var groupsNow := groups;
        for j := 0 to |g.areas|
          invariant members == kept + AreaPairs(ops, g.id, g.areas[..j])
          invariant groups == groupsNow
        {
          var areaName := g.areas[j];
          members := members + {(g.id, areaIdByName[areaName])};
          AreaPairsNext(ops, g.id, g.areas, j);
        }
        assert g.areas[..|g.areas|] == g.areas;
        assert areaGroups[..gi + 1][..gi] == areaGroups[..gi];
        assert groupRows[gi] == (g.id, GroupRow(g.name, sourceId, now));
        Tables.UpsertNext(old(groups), groupRows, gi);
      }
      assert areaGroups[..|areaGroups|] == areaGroups;
      assert groupRows[..|areaGroups|] == groupRows;
    }

    /**
     * The `INSERT OR IGNORE` fan-out of one rule: every member area of the group
     * on every date, all with the same row.
     */
    method FanOut(areaIds: set<string>, categoryId: string, dates: seq<Date>, row: EventRow)
      requires forall d :: d in dates ==> ValidDate(d)
      modifies this`events
      ensures Snapshot() == old(Snapshot()).(events := Tables.InsertAbsent(old(events), EventKeys(areaIds, categoryId, dates), row))
    {
      var todo := areaIds;
      while todo != {}
        invariant todo <= areaIds
        invariant events == Tables.InsertAbsent(old(events), EventKeys(areaIds - todo, categoryId, dates), row)
        decreases todo
      {
        var areaId :| areaId in todo;
        ghost var before := events;
        for j := 0 to |dates|
          invariant events == Tables.InsertAbsent(before, EventKeys({areaId}, categoryId, dates[..j]), row)
        {
          var key := EventKey(areaId, categoryId, IsoFormat(dates[j]));
          Tables.InsertAbsentOne(events, key, row);
          if key !in events {
            events := events[key := row];
          }
          EventKeysNextDate(areaId, categoryId, dates, j);
          Tables.InsertAbsentSplit(before, EventKeys({areaId}, categoryId, dates[..j]), {key}, row);
        }
        assert dates[..|dates|] == dates;
        EventKeysNextArea(areaIds - todo, areaId, categoryId, dates);
        Tables.InsertAbsentSplit(old(events), EventKeys(areaIds - todo, categoryId, dates), EventKeys({areaId}, categoryId, dates), row);
        assert (areaIds - todo) + {areaId} == areaIds - (todo - {areaId});
        todo := todo - {areaId};
      }
      assert areaIds - todo == areaIds;
    }

    /**
     * `upsert_rules_and_events`: parses both effective dates, then for each rule
     * writes its row and fans its dates out over its group's areas. The step
     * commits only at its end, so an exception leaves both tables as they were.
     */
    method UpsertRulesAndEvents(doc: ScheduleDoc, sourceId: string, now: string) returns (r: Result<(), SeedError>)
      modifies this`rules, this`events
      ensures Snapshot() == AfterRules(ops, old(Snapshot()), doc, sourceId, now).store
      ensures r == AfterRules(ops, old(Snapshot()), doc, sourceId, now).result
      ensures old(Valid()) ==> Valid()
    {
      ghost var s0 := Snapshot();
      var startParsed := ParseIsoDate(doc.effectiveStart);
      if startParsed.None? {
        AfterRulesBadContext(ops, s0, doc, sourceId, now, BadEffectiveDate(doc.effectiveStart));
        return Err(BadEffectiveDate(doc.effectiveStart));
      }
      var endParsed := ParseIsoDate(doc.effectiveEnd);
      if endParsed.None? {
        AfterRulesBadContext(ops, s0, doc, sourceId, now, BadEffectiveDate(doc.effectiveEnd));
        return Err(BadEffectiveDate(doc.effectiveEnd));
      }
      var start, end := startParsed.value, endParsed.value;
      ghost var ctx := RuleContext(ops, categories, members, start, end, doc.effectiveStart, doc.effectiveEnd, sourceId, now);
      assert ContextFor(ops, doc, categories, members, sourceId, now) == Ok(ctx);

      r := RunRules(doc.collectionRules, start, end, doc.effectiveStart, doc.effectiveEnd, sourceId, now, ctx);
      assert Snapshot() == s0.(rules := rules, events := events);
      if r.Err? {
        AfterRulesFails(ops, s0, doc, sourceId, now, ctx, r.error);
      } else {
        AfterRulesSucceeds(ops, s0, doc, sourceId, now, ctx, Plan(ctx, doc.collectionRules).value);
      }
    }

    /**
     * The rule loop of `upsert_rules_and_events`, inside its transaction: either
     * every rule is written and fanned out, or the first rule that raises
     * discards all of the loop's writes.
     */
    method RunRules(entries: seq<RuleEntry>, start: CalendarDate, end: CalendarDate, startText: string, endText: string,
                    sourceId: string, now: string, ghost ctx: RuleContext) returns (r: Result<(), SeedError>)
      requires ctx == RuleContext(ops, categories, members, start, end, startText, endText, sourceId, now)
      modifies this`rules, this`events
      ensures r.Ok? <==> Plan(ctx, entries).Ok?
      ensures r.Err? ==> r.error == Plan(ctx, entries).error && rules == old(rules) && events == old(events)
      ensures r.Ok? ==> r == Ok(()) && rules == Tables.Upsert(old(rules), RuleRows(Plan(ctx, entries).value))
                        && events == Fill(old(events), Plan(ctx, entries).value)
    {
      var rulesBefore, eventsBefore := rules, events;
      ghost var done: seq<Step> := [];
      PrependNothing(done, Plan(ctx, entries));
      for i := 0 to |entries|
        invariant Prepend(done, Plan(ctx, entries[i..])) == Plan(ctx, entries)
        invariant rules == Tables.Upsert(rulesBefore, RuleRows(done))
        invariant events == Fill(eventsBefore, done)
      {
        var outcome := UpsertRule(entries[i], start, end, startText, endText, sourceId, now, ctx);
        if outcome.Err? {
          rules, events := rulesBefore, eventsBefore;
          PlanStops(ctx, entries, i, done);
          return outcome;
        }
        ghost var step := StepFor(ctx, entries[i]).value;
        PlanAdvances(ctx, entries, i, done);
        assert rules == Tables.Upsert(rulesBefore, RuleRows(done + [step])) by {
          RuleRowsNext(done, step);
          Tables.UpsertSnoc(rulesBefore, RuleRows(done), step.ruleId, step.rule);
        }
        assert events == Fill(eventsBefore, done + [step]) by {
          FillNext(eventsBefore, done, step);
        }
        done := done + [step];
      }
      assert entries[|entries|..] == [];
      PrependNothing(done, Plan(ctx, []));
      return Ok(());
    }

    /**
     * One iteration of the rule loop: looks the category up, writes the rule row,
     * generates the dates and fans them out over the group's member areas. On an
     * exception the caller discards the partial writes.
     */
    method UpsertRule(entry: RuleEntry, start: CalendarDate, end: CalendarDate, startText: string, endText: string,
                      sourceId: string, now: string, ghost ctx: RuleContext) returns (outcome: Result<(), SeedError>)
      requires ctx == RuleContext(ops, categories, members, start, end, startText, endText, sourceId, now)
      modifies this`rules, this`events
      ensures outcome.Ok? <==> StepFor(ctx, entry).Ok?
      ensures outcome.Err? ==> outcome.error == StepFor(ctx, entry).error
      ensures outcome.Ok? ==>
                rules == old(rules)[StepFor(ctx, entry).value.ruleId := StepFor(ctx, entry).value.rule]
                && events == Tables.InsertAbsent(old(events), StepFor(ctx, entry).value.keys, StepFor(ctx, entry).value.event)
    {
      var categoryId := CategoryIdOf(ops, categories, entry.category);
      if categoryId.None? {
        return Err(UnknownCategory(entry.category));
      }
      var cid := categoryId.value;
      var ruleRow := RuleRow(entry.areaGroupId, cid, entry.rule.kind, entry.rule, startText, endText, entry.notes, sourceId, now);
      rules := rules[RuleId(ops, entry) := ruleRow];
      var dates := GenerateDates(entry.rule, start, end);
      if dates.Err? {
        return Err(BadRule(dates.error));
      }
      var row := EventRow(categories[cid].deadlineTime, entry.notes, sourceId);
      FanOut(MemberAreas(members, entry.areaGroupId), cid, dates.value, row);
      return Ok(());
    }

    /**
     * `main`: the four steps in order, each taking its own clock reading; the
     * first three commit whatever the last one does.
     */
    method Seed(doc: ScheduleDoc, clock: Clock) returns (r: Result<(), SeedError>)
      modifies this
      ensures old(Valid()) ==> Valid()
      ensures Snapshot() == SeedSpec(ops, old(Snapshot()), doc, clock).store
      ensures r == SeedSpec(ops, old(Snapshot()), doc, clock).result
    {
      var sourceId := UpsertSource(doc.pdf, clock.source);
      UpsertCategories(doc.categories, sourceId, clock.categories);
      UpsertAreasAndGroups(doc.areaGroups, sourceId, clock.areas);
      r := UpsertRulesAndEvents(doc, sourceId, clock.rules);
    }
  }
}
