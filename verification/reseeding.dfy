/**
 * Seeding again at a later time. Every step of backend/app/db/seed_schedule.py
 * stamps the rows it writes with its own `datetime.utcnow()` reading
 * (`updated_at`, and `fetched_at` when the document gives none). A re-run
 * therefore rewrites those columns, and nothing else: its outcome, the events
 * and the memberships are those of the first run, and every other table keeps
 * its keys and its rows up to the stamps.
 */
module Reseeding {
  import opened Wrappers
  import opened Text
  import opened Seeding
  import Tables

  // The rows with their clock-derived column blanked.

  function UnstampSource(r: SourceRow): SourceRow { r.(fetchedAt := "") }
  function UnstampCategory(r: CategoryRow): CategoryRow { r.(updatedAt := "") }
  function UnstampArea(r: AreaRow): AreaRow { r.(updatedAt := "") }
  function UnstampGroup(r: GroupRow): GroupRow { r.(updatedAt := "") }
  function UnstampRule(r: RuleRow): RuleRow { r.(updatedAt := "") }

  /**
   * Two sets of tables that differ at most in `updated_at` and `fetched_at`:
   * the same memberships and events, and every other table with the same keys
   * and rows that agree in every other column.
   */
  ghost predicate SameUpToTimestamps(s: Store, t: Store) {
    && s.members == t.members
    && s.events == t.events
    && Tables.SameThrough(UnstampSource, s.sources, t.sources)
    && Tables.SameThrough(UnstampCategory, s.categories, t.categories)
    && Tables.SameThrough(UnstampArea, s.areas, t.areas)
    && Tables.SameThrough(UnstampGroup, s.groups, t.groups)
    && Tables.SameThrough(UnstampRule, s.rules, t.rules)
  }

  // One step at a time.

  /** `upsert_source` with two clock readings on tables that agree up to timestamps. */
  lemma SourceAnyClock(s: Store, t: Store, pdf: PdfSource, now1: string, now2: string)
    requires SameUpToTimestamps(s, t)
    ensures SameUpToTimestamps(AfterSource(s, pdf, now1), AfterSource(t, pdf, now2))
  {
  }

  /** `upsert_categories` with two clock readings on tables that agree up to timestamps. */
  lemma CategoriesAnyClock(ops: TextOps, s: Store, t: Store, cats: seq<CategoryEntry>, sourceId: string, now1: string, now2: string)
    requires SameUpToTimestamps(s, t)
    ensures SameUpToTimestamps(AfterCategories(ops, s, cats, sourceId, now1), AfterCategories(ops, t, cats, sourceId, now2))
  {
    var rows1, rows2 := CategoryRows(ops, cats, sourceId, now1), CategoryRows(ops, cats, sourceId, now2);
    assert Tables.MapPairs(UnstampCategory, rows1) == Tables.MapPairs(UnstampCategory, rows2);
    Tables.UpsertSameThrough(UnstampCategory, s.categories, t.categories, rows1, rows2);
  }

  /** `upsert_areas_and_groups` with two clock readings on tables that agree up to timestamps. */
  lemma GroupsAnyClock(ops: TextOps, s: Store, t: Store, groups: seq<GroupEntry>, sourceId: string, now1: string, now2: string)
    requires SameUpToTimestamps(s, t)
    ensures SameUpToTimestamps(AfterGroups(ops, s, groups, sourceId, now1), AfterGroups(ops, t, groups, sourceId, now2))
  {
    var names := SortedAreaNames(groups);
    var a1, a2 := AreaRows(ops, names, sourceId, now1), AreaRows(ops, names, sourceId, now2);
    assert Tables.MapPairs(UnstampArea, a1) == Tables.MapPairs(UnstampArea, a2);
    Tables.UpsertSameThrough(UnstampArea, s.areas, t.areas, a1, a2);
    var g1, g2 := GroupRows(groups, sourceId, now1), GroupRows(groups, sourceId, now2);
    assert Tables.MapPairs(UnstampGroup, g1) == Tables.MapPairs(UnstampGroup, g2);
    Tables.UpsertSameThrough(UnstampGroup, s.groups, t.groups, g1, g2);
  }

  // The rule step.

  /** Two categories tables that differ only in `updated_at`. */
  ghost predicate SameCategories(cats1: map<string, CategoryRow>, cats2: map<string, CategoryRow>) {
    Tables.SameThrough(UnstampCategory, cats1, cats2)
  }

  /** Two steps that write the same rule row up to `updated_at`, the same events and the same event row. */
  predicate SameStep(a: Step, b: Step) {
    a.(rule := UnstampRule(a.rule)) == b.(rule := UnstampRule(b.rule))
  }

  /** The category lookup reads only names and deadlines, so it finds the same id and deadline in both tables. */
  lemma CategoryIdAnyClock(ops: TextOps, cats1: map<string, CategoryRow>, cats2: map<string, CategoryRow>, name: string)
    requires SameCategories(cats1, cats2)
    ensures CategoryIdOf(ops, cats1, name) == CategoryIdOf(ops, cats2, name)
    ensures CategoryIdOf(ops, cats1, name).Some? ==>
              cats1[CategoryIdOf(ops, cats1, name).value].deadlineTime == cats2[CategoryIdOf(ops, cats1, name).value].deadlineTime
  {
    var id := CategoryId(ops, name);
    if id in cats1 {
      assert UnstampCategory(cats1[id]) == UnstampCategory(cats2[id]);
    }
  }

  /**
   * One rule, in a context and in the same context with a later clock and
   * restamped categories: the same error, or the same step up to the rule
   * row's stamp.
   */
  lemma StepAnyClock(c1: RuleContext, cats2: map<string, CategoryRow>, now2: string, r: RuleEntry)
    requires SameCategories(c1.cats, cats2)
    ensures var c2 := c1.(cats := cats2, now := now2);
            && (StepFor(c1, r).Ok? <==> StepFor(c2, r).Ok?)
            && (StepFor(c1, r).Err? ==> StepFor(c1, r).error == StepFor(c2, r).error)
            && (StepFor(c1, r).Ok? ==> SameStep(StepFor(c1, r).value, StepFor(c2, r).value))
  {
    CategoryIdAnyClock(c1.ops, c1.cats, cats2, r.category);
  }

  /** Every rule in both contexts: the same error, or the same step up to the rule row's stamp. */
  lemma StepsAnyClock(c1: RuleContext, cats2: map<string, CategoryRow>, now2: string, rules: seq<RuleEntry>)
    requires SameCategories(c1.cats, cats2)
    ensures var c2 := c1.(cats := cats2, now := now2);
            forall i :: 0 <= i < |rules| ==>
              && (StepFor(c1, rules[i]).Ok? <==> StepFor(c2, rules[i]).Ok?)
              && (StepFor(c1, rules[i]).Err? ==> StepFor(c1, rules[i]).error == StepFor(c2, rules[i]).error)
              && (StepFor(c1, rules[i]).Ok? ==> SameStep(StepFor(c1, rules[i]).value, StepFor(c2, rules[i]).value))
  {
    forall i | 0 <= i < |rules| {
      StepAnyClock(c1, cats2, now2, rules[i]);
    }
  }

  /** A rule loop that succeeds in one context succeeds in the other with the same steps up to stamps. */
  lemma PlanOkAnyClock(c1: RuleContext, cats2: map<string, CategoryRow>, now2: string, rules: seq<RuleEntry>)
    requires SameCategories(c1.cats, cats2)
    requires Plan(c1, rules).Ok?
    ensures var c2 := c1.(cats := cats2, now := now2);
            && Plan(c2, rules).Ok?
            && |Plan(c1, rules).value| == |Plan(c2, rules).value|
            && forall i :: 0 <= i < |Plan(c1, rules).value| ==> SameStep(Plan(c1, rules).value[i], Plan(c2, rules).value[i])
  {
    var c2 := c1.(cats := cats2, now := now2);
    StepsAnyClock(c1, cats2, now2, rules);
    PlanExact(c1, rules);
    PlanExact(c2, rules);
  }

  /** A rule loop that raises in one context raises the same error in the other. */
  lemma PlanErrAnyClock(c1: RuleContext, cats2: map<string, CategoryRow>, now2: string, rules: seq<RuleEntry>)
    requires SameCategories(c1.cats, cats2)
    requires Plan(c1, rules).Err?
    ensures var c2 := c1.(cats := cats2, now := now2);
            Plan(c2, rules).Err? && Plan(c1, rules).error == Plan(c2, rules).error
  {
    var c2 := c1.(cats := cats2, now := now2);
    StepsAnyClock(c1, cats2, now2, rules);
    PlanExact(c1, rules);
    PlanExact(c2, rules);
    var k1 :| 0 <= k1 < |rules| && StepFor(c1, rules[k1]).Err? && Plan(c1, rules).error == StepFor(c1, rules[k1]).error
               && forall i :: 0 <= i < k1 ==> StepFor(c1, rules[i]).Ok?;
    var k2 :| 0 <= k2 < |rules| && StepFor(c2, rules[k2]).Err? && Plan(c2, rules).error == StepFor(c2, rules[k2]).error
               && forall i :: 0 <= i < k2 ==> StepFor(c2, rules[i]).Ok?;
    assert k1 == k2;
  }

  /** The rule loop in both contexts: the same error, or the same steps up to the rule rows' stamps. */
  lemma PlanAnyClock(c1: RuleContext, cats2: map<string, CategoryRow>, now2: string, rules: seq<RuleEntry>)
    requires SameCategories(c1.cats, cats2)
    ensures var c2 := c1.(cats := cats2, now := now2);
            && (Plan(c1, rules).Ok? <==> Plan(c2, rules).Ok?)
            && (Plan(c1, rules).Err? ==> Plan(c1, rules).error == Plan(c2, rules).error)
            && (Plan(c1, rules).Ok? ==>
                  && |Plan(c1, rules).value| == |Plan(c2, rules).value|
                  && forall i :: 0 <= i < |Plan(c1, rules).value| ==> SameStep(Plan(c1, rules).value[i], Plan(c2, rules).value[i]))
  {
    if Plan(c1, rules).Ok? {
      PlanOkAnyClock(c1, cats2, now2, rules);
    } else {
      PlanErrAnyClock(c1, cats2, now2, rules);
    }
  }

  /** The fan-out reads only the steps' keys and event rows. */
  lemma {:induction false} FillSameSteps(events: map<EventKey, EventRow>, steps1: seq<Step>, steps2: seq<Step>)
    requires |steps1| == |steps2|
    requires forall i :: 0 <= i < |steps1| ==> SameStep(steps1[i], steps2[i])
    ensures Fill(events, steps1) == Fill(events, steps2)
    decreases |steps1|
  {
    if steps1 != [] {
      var n := |steps1| - 1;
      FillSameSteps(events, steps1[..n], steps2[..n]);
      assert SameStep(steps1[n], steps2[n]);
      assert steps1[n].keys == steps2[n].keys && steps1[n].event == steps2[n].event;
    }
  }

  /** The rule rows of steps that agree up to stamps agree up to stamps. */
  lemma RuleRowsSameSteps(steps1: seq<Step>, steps2: seq<Step>)
    requires |steps1| == |steps2|
    requires forall i :: 0 <= i < |steps1| ==> SameStep(steps1[i], steps2[i])
    ensures Tables.MapPairs(UnstampRule, RuleRows(steps1)) == Tables.MapPairs(UnstampRule, RuleRows(steps2))
  {
    forall i | 0 <= i < |steps1|
      ensures Tables.MapPairs(UnstampRule, RuleRows(steps1))[i] == Tables.MapPairs(UnstampRule, RuleRows(steps2))[i]
    {
      assert SameStep(steps1[i], steps2[i]);
      assert steps1[i].ruleId == steps2[i].ruleId && UnstampRule(steps1[i].rule) == UnstampRule(steps2[i].rule);
    }
  }

  /** The rule loop with its context, on categories that differ only in `updated_at`, at two clock readings. */
  lemma PlanForAnyClock(ops: TextOps, doc: ScheduleDoc, cats1: map<string, CategoryRow>, cats2: map<string, CategoryRow>,
                        members: Members, sourceId: string, now1: string, now2: string)
    requires SameCategories(cats1, cats2)
    ensures var p1, p2 := PlanFor(ops, doc, cats1, members, sourceId, now1), PlanFor(ops, doc, cats2, members, sourceId, now2);
            && (p1.Ok? <==> p2.Ok?)
            && (p1.Err? ==> p1.error == p2.error)
            && (p1.Ok? ==> |p1.value| == |p2.value| && forall i :: 0 <= i < |p1.value| ==> SameStep(p1.value[i], p2.value[i]))
  {
    var ctx1 := ContextFor(ops, doc, cats1, members, sourceId, now1);
    if ctx1.Ok? {
      PlanAnyClock(ctx1.value, cats2, now2, doc.collectionRules);
    }
  }

  /** Writing steps that agree up to stamps, on tables that agree up to timestamps, leaves tables that agree up to timestamps. */
  lemma WritesAnyClock(s: Store, t: Store, steps1: seq<Step>, steps2: seq<Step>)
    requires SameUpToTimestamps(s, t)
    requires |steps1| == |steps2|
    requires forall i :: 0 <= i < |steps1| ==> SameStep(steps1[i], steps2[i])
    ensures SameUpToTimestamps(s.(rules := Tables.Upsert(s.rules, RuleRows(steps1)), events := Fill(s.events, steps1)),
                               t.(rules := Tables.Upsert(t.rules, RuleRows(steps2)), events := Fill(t.events, steps2)))
  {
    FillSameSteps(s.events, steps1, steps2);
    RuleRowsSameSteps(steps1, steps2);
    Tables.UpsertSameThrough(UnstampRule, s.rules, t.rules, RuleRows(steps1), RuleRows(steps2));
  }

  /**
   * `upsert_rules_and_events` with two clock readings on tables that agree up to
   * timestamps: the same outcome, and tables that again agree up to timestamps.
   */
  lemma RulesAnyClock(ops: TextOps, s: Store, t: Store, doc: ScheduleDoc, sourceId: string, now1: string, now2: string)
    requires SameUpToTimestamps(s, t)
    ensures AfterRules(ops, s, doc, sourceId, now1).result == AfterRules(ops, t, doc, sourceId, now2).result
    ensures SameUpToTimestamps(AfterRules(ops, s, doc, sourceId, now1).store, AfterRules(ops, t, doc, sourceId, now2).store)
  {
    PlanForAnyClock(ops, doc, s.categories, t.categories, s.members, sourceId, now1, now2);
    var p1 := PlanFor(ops, doc, s.categories, s.members, sourceId, now1);
    var p2 := PlanFor(ops, doc, t.categories, t.members, sourceId, now2);
    if p1.Ok? {
      WritesAnyClock(s, t, p1.value, p2.value);
    }
  }

  // main

  /**
   * A whole run with two clock readings on tables that agree up to timestamps:
   * the same outcome, and tables that again agree up to timestamps. The clock
   * never decides what is written, only when it is stamped.
   */
  lemma SeedAnyClock(ops: TextOps, s: Store, t: Store, doc: ScheduleDoc, clock1: Clock, clock2: Clock)
    requires SameUpToTimestamps(s, t)
    ensures SeedSpec(ops, s, doc, clock1).result == SeedSpec(ops, t, doc, clock2).result
    ensures SameUpToTimestamps(SeedSpec(ops, s, doc, clock1).store, SeedSpec(ops, t, doc, clock2).store)
  {
    var s1, t1 := AfterSource(s, doc.pdf, clock1.source), AfterSource(t, doc.pdf, clock2.source);
    SourceAnyClock(s, t, doc.pdf, clock1.source, clock2.source);
    var s2 := AfterCategories(ops, s1, doc.categories, PdfSourceId, clock1.categories);
    var t2 := AfterCategories(ops, t1, doc.categories, PdfSourceId, clock2.categories);
    CategoriesAnyClock(ops, s1, t1, doc.categories, PdfSourceId, clock1.categories, clock2.categories);
    var s3 := AfterGroups(ops, s2, doc.areaGroups, PdfSourceId, clock1.areas);
    var t3 := AfterGroups(ops, t2, doc.areaGroups, PdfSourceId, clock2.areas);
    GroupsAnyClock(ops, s2, t2, doc.areaGroups, PdfSourceId, clock1.areas, clock2.areas);
    RulesAnyClock(ops, s3, t3, doc, PdfSourceId, clock1.rules, clock2.rules);
  }

  /**
   * Re-running `upsert_rules_and_events` later, with its own clock reading,
   * raises the same way, leaves the same events, and changes the rule rows
   * only in `updated_at`.
   */
  lemma RulesIdempotentAnyClock(ops: TextOps, s: Store, doc: ScheduleDoc, sourceId: string, now1: string, now2: string)
    ensures var first := AfterRules(ops, s, doc, sourceId, now1);
            var second := AfterRules(ops, first.store, doc, sourceId, now2);
            && second.result == first.result
            && second.store.events == first.store.events
            && SameUpToTimestamps(second.store, first.store)
  {
    var first := AfterRules(ops, s, doc, sourceId, now1);
    RulesIdempotent(ops, s, doc, sourceId, now1);
    RulesAnyClock(ops, first.store, first.store, doc, sourceId, now2, now1);
  }

  /**
   * Seeding again from the same document at any later time reports the same
   * outcome and leaves the same events and memberships; every other table
   * keeps its keys, and its rows change at most in `updated_at` and
   * `fetched_at`.
   */
  lemma SeedIdempotentAnyClock(ops: TextOps, s: Store, doc: ScheduleDoc, clock1: Clock, clock2: Clock)
    ensures var first := SeedSpec(ops, s, doc, clock1);
            var second := SeedSpec(ops, first.store, doc, clock2);
            && second.result == first.result
            && second.store.events == first.store.events
            && second.store.members == first.store.members
            && SameUpToTimestamps(second.store, first.store)
  {
    var first := SeedSpec(ops, s, doc, clock1);
    SeedIdempotent(ops, s, doc, clock1);
    SeedAnyClock(ops, first.store, first.store, doc, clock2, clock1);
  }
}
