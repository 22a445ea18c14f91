# Nonoichi waste schedule — a Dafny model

This project models the core of the Nonoichi waste-collection assistant (a Python code base over SQLite):

- **Seeding.** `backend/app/db/seed_schedule.py` turns the city's schedule document into tables. These are sources, categories, areas, area groups and their members, collection rules, and one collection event per (area, category, date).
  - `generate_dates` expands a `weekly` or `month_dates` rule over the effective period.
  - `normalize_text` and `make_id` derive stable identifiers.
  - `main` runs the four upsert steps in order.
- **Lookups.** `backend/app/query.py` finds an item by exact normalised name, then by alias, and otherwise suggests items by prefix.
- **Next pickup.** `backend/app/next_pickup.py` finds the next collection of a category in an area, or of the category an item belongs to.
- **Page count.** `backend/collector/collect_data.py` reads the total page count of the sorting dictionary from its first page. It falls back to 90 pages. `int()` follows CPython's default limit of 4300 digits (Python 3.11 and later, and 3.10.7): a longer count raises ValueError, and `main` then reaches the crawl loop with `total_pages` unassigned.

The files are:

- **Table writes.** `tables.dfy` models the two SQLite write disciplines: `INSERT OR REPLACE` and `INSERT OR IGNORE`.
- **Text and identifiers.** `text.dfy` holds normalisation, hex digests, identifiers and code-point string order.
- **Dates.** `dates.dfy` holds calendar dates, weekdays, ISO text and its parsing.
- **Rules.** `recurrence.dfy` holds `generate_dates`.
- **Seeding, as functions.** `seeding.dfy` states what every seeding step writes, as functions of the document and the tables before the step.
- **Seeding again.** `reseeding.dfy` shows that the clock only stamps rows. A re-run at a later time gives the same outcome, events and memberships, and changes other rows only in `updated_at`/`fetched_at`.
- **Seeding, as a class.** `database.dfy` holds a `Database` class whose fields are the tables. Its methods run the source's loops and are proved to leave exactly the tables that `seeding.dfy` describes.
- **Read side.** `query.dfy`, `next_pickup.dfy` and `collector.dfy` model the read side and the page count. They are pure functions, as in the source.
- **Shared helpers.** `wrappers.dfy` and `order.dfy` hold `Option`/`Result`, the first-error traversal and `sorted(set(...))`.

Two library calls are parameters, in `Text.TextOps`: Unicode NFKC and SHA-1. Clock readings are parameters too: `datetime.utcnow()` and `date.today()`. The model assumes these facts about the database schema (`backend/app/db/schema.sql` is not part of this model):

- The primary keys are `source_id`, `category_id`, `area_id`, `group_id` and `rule_id`.
- `area_group_members` is unique on (group, area).
- `collection_events` is unique on (area, category, date).
- `items.name_norm` is unique (`Query.SchemaKeys`).

The read side sees each table as a sequence in storage order. A `LIMIT 1` without an `ORDER BY` returns the first qualifying row of that order. The read-side contracts hold for whichever qualifying row is returned, with one exception. `Pickup.CategoryFromItem` equates its result with the category `find_item_exact` reports, and those are two separate queries. The two agree because `items.name_norm` is unique: `Query.ExactHitDetermined` proves that under this key the exact-name hit is the same whatever the row order.

The model follows the code:

- Categories are keyed by `make_id("cat", name)`.
- Rules go to `collection_rules`.
- Stale events are never deleted.
- Only `weekly` and `month_dates` rules exist.

## Model

| member | source | states |
|---|---|---|
| Text.TrimLeftFacts | backend/app/db/seed_schedule.py:79 | `lstrip` leaves a suffix that starts with a non-space; everything dropped is whitespace |
| Text.TrimRightFacts | backend/app/db/seed_schedule.py:79 | `rstrip` leaves a prefix that ends with a non-space; everything dropped is whitespace |
| Text.StripFacts | backend/app/db/seed_schedule.py:79 | stripped text neither starts nor ends with whitespace |
| Text.CollapseFacts | backend/app/db/seed_schedule.py:80 | after `\s+ -> " "`, whitespace is only U+0020 and never appears twice in a row; emptiness and whitespace at either end are kept |
| Text.CollapseEnds | backend/app/db/seed_schedule.py:80 | collapsing whitespace runs keeps emptiness and whether the text starts or ends with whitespace |
| Text.CollapseSpaces | backend/app/db/seed_schedule.py:80 | after `\s+ -> " "`, every whitespace character is U+0020 and no two are adjacent |
| Text.NormalizeText | backend/app/db/seed_schedule.py:78-81 | normalised text has no whitespace at either end, only single plain spaces inside |
| Text.SquashKeeps | backend/app/db/seed_schedule.py:79-80 | stripping and collapsing leave already-squashed text unchanged |
| Text.NormalizeNone | backend/app/db/seed_schedule.py:79 | `None` and `""` both normalise to `""` |
| Text.NormalizeIdempotent | backend/app/db/seed_schedule.py:78-81 | normalising twice equals normalising once |
| Text.Hex | backend/app/db/seed_schedule.py:84 | `hexdigest()` has two lower-case hex digits per byte |
| Text.HexDecodes | backend/app/db/seed_schedule.py:84 | each digit pair of the hex text reads back as its byte, so the text determines the digest |
| Text.SeedDigest | backend/app/db/seed_schedule.py:84 | the SHA-1 hex digest of the normalised seed has 40 hex digits |
| Text.MakeId | backend/app/db/seed_schedule.py:83-85 | an id is the prefix, `_`, then `min(n, 40)` hex digits |
| Text.MakeIdSameNormal | backend/app/db/seed_schedule.py:83-85 | seeds that normalise alike get the same id |
| Text.MakeIdOfNormalized | backend/app/db/seed_schedule.py:84 | deriving an id from an already normalised seed gives the same id |
| Text.StrLessIrreflexive | backend/app/db/seed_schedule.py:113 | no string sorts before itself |
| Text.StrLessTransitive | backend/app/db/seed_schedule.py:113 | string order is transitive |
| Text.StrLessTotal | backend/app/db/seed_schedule.py:113 | of two different strings one sorts first |
| Text.StrLessEqNotGreater | backend/app/next_pickup.py:54-55 | a string that is at most another never sorts after it |
| Text.StrLessStrictTotal | backend/app/db/seed_schedule.py:113 | the order `sorted(area_names)` uses is a strict total order |
| Text.StrLessConcat | backend/app/db/seed_schedule.py:219 | strings compare block by block when leading blocks have equal length |
| Order.InsertUniqueCorrect | backend/app/db/seed_schedule.py:46 | inserting into an ascending list keeps it ascending, with exactly the old elements and the new one |
| Order.SortedUniqueCorrect | backend/app/db/seed_schedule.py:46 | `sorted(set(xs))` is strictly ascending with exactly the elements of `xs` |
| Order.SortedUniqueOfAscending | backend/app/db/seed_schedule.py:46 | `sorted(set(xs))` leaves a strictly ascending list as it is |
| Order.AscendingUnique | backend/app/db/seed_schedule.py:46 | a strictly ascending list is determined by its elements |
| Dates.IsoOrder | backend/app/db/seed_schedule.py:219 | ISO texts of calendar dates compare as strings exactly as the dates compare, and are equal exactly for equal dates |
| Dates.IsoLess | backend/app/db/seed_schedule.py:219 | the ISO text of one calendar date sorts before another's exactly when the date is earlier |
| Dates.DigitsOrder | backend/app/db/seed_schedule.py:219 | zero-padded digit strings of one width compare as text exactly as their values compare |
| Dates.DecimalValue | backend/collector/collect_data.py:42 | `int` of a run of `k` digits is below `10^k` |
| Dates.IsoRoundTrip | backend/app/db/seed_schedule.py:147-148 | `fromisoformat` returns `d` exactly for `d`'s ISO text, for calendar dates `d` |
| Recurrence.WeekdayNumbersCorrect | backend/app/db/seed_schedule.py:28 | the weekday lookup succeeds exactly when every name is in `WEEKDAY_MAP`, else it reports the first unknown name |
| Recurrence.WeeklyFromCorrect | backend/app/db/seed_schedule.py:29-33 | the walk yields exactly the days of [d, end] on listed weekdays; it fails (overflow) exactly when `end` is 9999-12-31 |
| Recurrence.ListedDays | backend/app/db/seed_schedule.py:39-40 | the listed triples of a month, one per listed day, in order |
| Recurrence.DayDatesCorrect | backend/app/db/seed_schedule.py:39-42 | one month's days yield the in-range dates, or fail at the first day that is not a calendar date |
| Recurrence.MonthDatesCorrect | backend/app/db/seed_schedule.py:35-42 | all months together yield the in-range listed dates, or fail at the first invalid triple |
| Recurrence.SortDatesCorrect | backend/app/db/seed_schedule.py:46 | sorting keeps errors and yields the ascending distinct dates of a result |
| Recurrence.DatesSpec | backend/app/db/seed_schedule.py:23-46 | every generated date is a calendar date inside [start, end] |
| Recurrence.WeeklyRule | backend/app/db/seed_schedule.py:27-33 | a weekly rule yields ascending, without repeats, exactly the in-range days on its weekdays; it raises only for an unknown weekday or an overflow |
| Recurrence.MonthDatesRule | backend/app/db/seed_schedule.py:35-42 | a month_dates rule yields ascending exactly the listed in-range dates; it raises exactly when a listed triple, in range or not, is invalid |
| Recurrence.UnknownRuleTypeExactly | backend/app/db/seed_schedule.py:43-44 | `unknown rule type` is raised exactly for types other than weekly and month_dates |
| Recurrence.WeeklyExample | backend/app/db/seed_schedule.py:27-33 | Mondays and Thursdays from 2025-04-01 to 2025-04-10 are the 3rd, 7th and 10th |
| Recurrence.InvalidOutOfRangeExample | backend/app/db/seed_schedule.py:40 | a listed 30 February raises even when the range is April |
| Recurrence.GenerateDates | backend/app/db/seed_schedule.py:23-46 | the loops return or raise exactly what `DatesSpec` states |
| Tables.Upsert | backend/app/db/seed_schedule.py:93-99 | after `INSERT OR REPLACE` statements every old key is still present and every written key is present |
| Tables.UpsertMap | backend/app/db/seed_schedule.py:93-99 | rewriting a column of every row commutes with the replace statements |
| Tables.UpsertSameThrough | backend/app/db/seed_schedule.py:93-99 | replacing rows that agree outside one column into tables that agree outside that column leaves tables that still agree outside it |
| Tables.UpsertRows | backend/app/db/seed_schedule.py:93-99 | after the replace statements each key holds the row of the last statement writing it; other keys are untouched |
| Tables.LastForIn | backend/app/db/seed_schedule.py:93-99 | the row a key ends up with comes from one of the statements |
| Tables.LastForLatest | backend/app/db/seed_schedule.py:93-99 | the row a key ends up with comes from the last statement writing it |
| Tables.UpsertIdempotent | backend/app/db/seed_schedule.py:93-99 | replaying the same replace statements changes nothing |
| Tables.UpsertWritten | backend/app/db/seed_schedule.py:93-99 | every written key is present afterwards |
| Tables.InsertAbsent | backend/app/db/seed_schedule.py:211-224 | insert-or-ignore adds the missing keys with the new row and keeps every present row |
| Tables.InsertAbsentOne | backend/app/db/seed_schedule.py:139 | insert-or-ignore of one key adds it only when it is missing |
| Tables.InsertAbsentSplit | backend/app/db/seed_schedule.py:207-224 | inserting two key sets one after the other equals inserting their union |
| Tables.InsertAbsentPresent | backend/app/db/seed_schedule.py:211-224 | inserting keys that are all present changes nothing |
| Seeding.UpsertCategoriesKeyed | backend/app/db/seed_schedule.py:87-100 | after `upsert_categories` every category row still sits under the id of its own name |
| Seeding.CategoryIdOf | backend/app/db/seed_schedule.py:151-159 | a category id found by name is a key of the table |
| Seeding.CategoryIdOfExact | backend/app/db/seed_schedule.py:151-159 | in a keyed table, a name resolves to `id` exactly when the row under `id` has that name |
| Seeding.CategoryFoundAfterUpsert | backend/app/db/seed_schedule.py:87-100 | a listed category that no later entry overwrites is present under its id, with its listed deadline |
| Seeding.AllAreaNamesHas | backend/app/db/seed_schedule.py:106-109 | every area a group lists is collected |
| Seeding.AllAreaNamesExact | backend/app/db/seed_schedule.py:106-109 | an area name is collected exactly when some group lists it |
| Seeding.SortedAreaNamesHas | backend/app/db/seed_schedule.py:106-113 | every area a group lists is among `sorted(area_names)` |
| Seeding.MembersAfterExact | backend/app/db/seed_schedule.py:125-141 | a listed group's members are exactly the areas of its last entry (stale members removed); unlisted groups keep theirs |
| Seeding.MembersIdempotent | backend/app/db/seed_schedule.py:135-141 | regrouping again with the same document changes nothing |
| Seeding.AreasCover | backend/app/db/seed_schedule.py:112-122 | every listed area has a row under `make_id("area", name)` whose stored name derives that id |
| Seeding.StepFor | backend/app/db/seed_schedule.py:156-224 | one rule succeeds exactly when its category resolves and its dates generate |
| Seeding.Plan | backend/app/db/seed_schedule.py:156-224 | the rule loop succeeds exactly when every rule does |
| Seeding.PlanExact | backend/app/db/seed_schedule.py:156-224 | the rule loop succeeds exactly when every rule does, giving one step per rule in order, else the first failing rule's error |
| Seeding.PlanStops | backend/app/db/seed_schedule.py:156-159 | the loop fails with the error of the first rule that raises |
| Seeding.PlanAdvances | backend/app/db/seed_schedule.py:156-224 | a rule that succeeds adds its step to the steps done, in order |
| Seeding.Fill | backend/app/db/seed_schedule.py:207-224 | the fan-out keeps every existing event with its row |
| Seeding.FillExact | backend/app/db/seed_schedule.py:207-224 | after the fan-out the events are the old ones plus every key some rule fans out; a new key has the first such rule's row |
| Seeding.FillKeys | backend/app/db/seed_schedule.py:207-224 | after the fan-out the event keys are the old ones plus every key some rule fans out |
| Seeding.FillRows | backend/app/db/seed_schedule.py:207-224 | a new event carries the row of the first rule that fans its key out (`INSERT OR IGNORE`) |
| Seeding.FillPresent | backend/app/db/seed_schedule.py:207-224 | a fan-out whose keys are all present changes nothing |
| Seeding.FillIdempotent | backend/app/db/seed_schedule.py:207-224 | re-running the fan-out leaves the events unchanged |
| Seeding.StepKeys | backend/app/db/seed_schedule.py:194-224 | a rule's events are every member area on every generated date, with its category's stored deadline |
| Seeding.EventsCover | backend/app/db/seed_schedule.py:145-226 | after a successful rule step every member area of each rule's group has an event on every generated date; old events keep their rows; new ones carry the category deadline |
| Seeding.AfterRules | backend/app/db/seed_schedule.py:145-226 | the rule step changes only the rule and event tables, and changes nothing when it raises |
| Seeding.RulesIdempotent | backend/app/db/seed_schedule.py:145-226 | re-running the rule step on the tables it left changes nothing and gives the same outcome |
| Seeding.GroupsIdempotent | backend/app/db/seed_schedule.py:102-143 | re-running the area and group step changes nothing |
| Seeding.SeedSettled | backend/app/db/seed_schedule.py:250-253 | on tables the first three steps leave unchanged, a run is just the rule step |
| Seeding.SourceSettled | backend/app/db/seed_schedule.py:58-75 | `upsert_source` changes nothing on tables holding the row it writes |
| Seeding.CategoriesSettled | backend/app/db/seed_schedule.py:87-100 | `upsert_categories` changes nothing on tables holding the rows it writes |
| Seeding.GroupsSettled | backend/app/db/seed_schedule.py:102-143 | `upsert_areas_and_groups` changes nothing on tables holding the areas, groups and memberships it writes |
| Seeding.SeedIdempotent | backend/app/db/seed_schedule.py:243-258 | seeding twice from the same document (same clock readings) leaves the tables and outcome of seeding once |
| Seeding.SeedSpec | backend/app/db/seed_schedule.py:243-253 | `main`'s four steps in order: the source row exists afterwards, every listed category has a row, and no existing event is removed or changed |
| Seeding.AfterSource | backend/app/db/seed_schedule.py:58-75 | `upsert_source` changes only the source table: it adds `src_pdf_r7`, keeps every other source row, and stamps `now` when `fetched_at` is absent |
| Seeding.AfterCategories | backend/app/db/seed_schedule.py:87-100 | `upsert_categories` changes only the categories, keeps every existing key, and gives every listed category a row under its id |
| Seeding.AfterGroups | backend/app/db/seed_schedule.py:102-143 | `upsert_areas_and_groups` changes only areas, groups and members, keeps every area key, and gives every listed group a row |
| Reseeding.SourceAnyClock | backend/app/db/seed_schedule.py:58-75 | `upsert_source` at two clock readings leaves tables that agree up to timestamps |
| Reseeding.CategoriesAnyClock | backend/app/db/seed_schedule.py:87-100 | `upsert_categories` at two clock readings leaves tables that agree up to timestamps |
| Reseeding.GroupsAnyClock | backend/app/db/seed_schedule.py:102-143 | `upsert_areas_and_groups` at two clock readings leaves tables that agree up to timestamps |
| Reseeding.CategoryIdAnyClock | backend/app/db/seed_schedule.py:151-199 | `cat_id_by_name` and the deadline lookup read no stamp, so they agree on categories that differ only in `updated_at` |
| Reseeding.StepAnyClock | backend/app/db/seed_schedule.py:156-224 | one rule at two clock readings raises the same error or writes the same events and the same rule row up to `updated_at` |
| Reseeding.PlanAnyClock | backend/app/db/seed_schedule.py:156-224 | the rule loop at two clock readings stops at the same error or plans the same steps up to the rule rows' `updated_at` |
| Reseeding.PlanOkAnyClock | backend/app/db/seed_schedule.py:156-224 | a rule loop that completes at one clock reading completes at any other with as many steps, each the same up to the rule row's `updated_at` |
| Reseeding.PlanErrAnyClock | backend/app/db/seed_schedule.py:156-224 | a rule loop that raises at one clock reading raises the same error at any other |
| Reseeding.PlanForAnyClock | backend/app/db/seed_schedule.py:145-224 | building the rule context and running the rule loop at two clock readings, on categories that agree up to `updated_at`, gives the same error or the same steps up to stamps |
| Reseeding.FillSameSteps | backend/app/db/seed_schedule.py:207-224 | the fan-out reads only the steps' keys and event rows, never a stamp |
| Reseeding.RuleRowsSameSteps | backend/app/db/seed_schedule.py:171-191 | steps that agree up to stamps write rule rows that agree up to `updated_at` |
| Reseeding.WritesAnyClock | backend/app/db/seed_schedule.py:171-224 | writing steps that agree up to stamps into tables that agree up to timestamps leaves tables that again agree up to timestamps |
| Reseeding.RulesAnyClock | backend/app/db/seed_schedule.py:145-226 | the rule step at two clock readings, on tables that agree up to timestamps, gives the same outcome and again tables that agree up to timestamps |
| Reseeding.SeedAnyClock | backend/app/db/seed_schedule.py:243-253 | a whole run at two clock readings, on tables that agree up to timestamps, gives the same outcome and tables that agree up to timestamps |
| Reseeding.RulesIdempotentAnyClock | backend/app/db/seed_schedule.py:145-226 | re-running the rule step at a later time raises the same way, leaves the same events, and changes rule rows only in `updated_at` |
| Reseeding.SeedIdempotentAnyClock | backend/app/db/seed_schedule.py:243-253 | seeding again at a later time gives the same outcome, events and members; every other table keeps its keys and changes only in `updated_at`/`fetched_at` |
| SeedDb.Database.UpsertSource | backend/app/db/seed_schedule.py:58-75 | returns `src_pdf_r7` and replaces only the source row, with `now` standing in for a missing `fetched_at` |
| SeedDb.Database.UpsertCategories | backend/app/db/seed_schedule.py:87-100 | the loop leaves the categories the replace statements give; other tables are unchanged |
| SeedDb.Database.CollectAreaNames | backend/app/db/seed_schedule.py:106-109 | the collected names are exactly the areas some group lists |
| SeedDb.Database.UpsertAreas | backend/app/db/seed_schedule.py:112-122 | writes one area row per name and maps each name to `make_id("area", name)` |
| SeedDb.NamesMappedBySorted | backend/app/db/seed_schedule.py:112-140 | a dictionary holding every sorted name under its id holds every area any group lists, as `area_id_by_name[area_name]` needs |
| SeedDb.Database.RegroupAll | backend/app/db/seed_schedule.py:125-141 | rewrites every group row and leaves exactly the regrouped memberships |
| SeedDb.Database.UpsertAreasAndGroups | backend/app/db/seed_schedule.py:102-143 | the whole step leaves exactly the tables `AfterGroups` describes |
| SeedDb.Database.FanOut | backend/app/db/seed_schedule.py:207-224 | the nested loops insert-or-ignore every (area, date) event and change nothing else |
| SeedDb.Database.UpsertRule | backend/app/db/seed_schedule.py:156-224 | one iteration succeeds or raises exactly as `StepFor`, writing that step's rule row and events |
| SeedDb.Database.RunRules | backend/app/db/seed_schedule.py:156-226 | the rule loop writes every rule row and fan-out of the plan, or on the first exception leaves both tables as they were |
| SeedDb.Database.UpsertRulesAndEvents | backend/app/db/seed_schedule.py:145-226 | the step leaves the tables and outcome of `AfterRules`, rolling back on an exception |
| SeedDb.Database.Seed | backend/app/db/seed_schedule.py:243-253 | the four steps in order leave the tables and outcome of `SeedSpec`; a categories table keyed by name stays so |
| Query.ItemsJoined | backend/app/query.py:32-34 | the join holds exactly the (item, category) pairs with matching category id |
| Query.Select | backend/app/query.py:35-36 | the selected rows are exactly those satisfying the condition, the first one preceded by none that does |
| Query.ExactHitDetermined | backend/app/query.py:28-42 | with `items.name_norm` unique and categories keyed by id, every joined row carrying the normalised name is the reported hit, whatever the row order |
| Query.SameNameSameRow | backend/app/query.py:28-42 | under those keys two joined rows with one normalised name are the same row |
| Query.FindItemExact | backend/app/query.py:28-42 | no hit exactly when no joined item has the normalised name; a hit is such an item with its category and note (`""` for none) |
| Query.AliasesJoined | backend/app/query.py:50-52 | the join holds exactly the (alias, item, category) triples with matching ids |
| Query.FindItemAlias | backend/app/query.py:45-60 | no hit exactly when no alias with the normalised text leads to an item; a hit is that alias's item |
| Query.MatchingRows | backend/app/query.py:72 | the rows kept are exactly those whose normalised name the pattern accepts |
| Query.MatchingAgree | backend/app/query.py:72 | two patterns accepting the same names keep the same rows |
| Query.InsertByLength | backend/app/query.py:73 | inserting keeps the rows (as a multiset) and the ascending length order |
| Query.ByLengthCons | backend/app/query.py:73 | a row no longer than every row of a length-ordered list may lead it |
| Query.ByLengthTail | backend/app/query.py:73 | the tail of a length-ordered list is ordered and no shorter than its head |
| Query.SortByLength | backend/app/query.py:73 | the rows, permuted into ascending length of the normalised name |
| Query.Limit | backend/app/query.py:74 | `LIMIT k` keeps the first `k` rows, or all of them when `k` is negative or too large |
| Query.PrefixByLength | backend/app/query.py:73-74 | a leading part of a length-sorted list is sorted and no longer than any row it leaves out |
| Query.SuggestRows | backend/app/query.py:63-78 | suggestions are qualifying rows, shortest first, as many as the limit allows; a left-out match is no shorter than any suggestion |
| Query.SuggestItemsPrefixAsWritten | backend/app/query.py:63-78 | as written: at most the limit of hits, each from an item whose normalised name matches the `LIKE` pattern `qn%`, shortest first; a matching item left out is no shorter than any suggestion |
| Query.SuggestItemsPrefix | backend/app/query.py:63-78 | corrected: suggestions are the shortest items whose normalised names start with the normalised query (ASCII case folded) |
| Query.LikeAnyRest | backend/app/query.py:76 | the pattern `%` matches any text |
| Query.LikePlainPrefix | backend/app/query.py:72-76 | for a query without `%` or `_`, `LIKE query%` is exactly a prefix test |
| Query.SuggestionsAgreeWithoutWildcards | backend/app/query.py:63-78 | without wildcards in the normalised query the written and the corrected suggestions coincide |
| Query.UnderscoreMatchesAnyName | backend/app/query.py:72-76 | the query `_` matches every non-empty name although such names do not start with `_` |
| Query.UnderscoreQuerySuggestsAll | backend/app/query.py:63-78 | as written, a query normalising to `_` admits every item with a non-empty name, while the prefix match rejects names not starting with `_` |
| Query.UnderscoreMatchesPetBottle | backend/app/query.py:76 | `ペットボトル` matches the pattern `_%` yet does not start with `_` |
| Query.Lookup | backend/app/query.py:81-100 | an exact hit wins, then an alias hit, else the as-written `LIKE` suggestions; there is a hit exactly when a name or alias equals the normalised text |
| Query.LookupIntended | backend/app/query.py:81-100 | corrected: the same hits as `main`, with the literal prefix suggestions when nothing matches |
| Query.LookupAgreesWithoutWildcards | backend/app/query.py:81-100 | without `_` or `%` in the normalised text, `main` as written answers as the corrected one |
| Query.LookupUnderscoreSuggests | backend/app/query.py:81-100 | as written, an unmatched text normalising to `_` gets suggestions whenever some item has a non-empty name |
| Pickup.CategoryFromItem | backend/app/next_pickup.py:27-39 | the category of the item `find_item_exact` finds, or none exactly when that finds none |
| Pickup.EventMatches | backend/app/next_pickup.py:49-51 | one event's join rows are exactly its area and category rows |
| Pickup.EventsJoined | backend/app/next_pickup.py:49-51 | the join holds exactly the (event, area, category) triples with matching ids |
| Pickup.Earliest | backend/app/next_pickup.py:55-56 | none exactly for no rows; otherwise a row whose date is no later than any row's |
| Pickup.NextPickup | backend/app/next_pickup.py:42-61 | none exactly when no event of the area and category is on or after the day; otherwise such an event with the least date |
| Pickup.ParsedOrder | backend/app/next_pickup.py:54 | texts that parse as ISO dates compare as text exactly as their dates compare |
| Pickup.NextPickupChronological | backend/app/next_pickup.py:52-56 | with ISO dates stored, the pickup found is on or after today and no eligible collection falls on an earlier calendar day |
| Pickup.NextPickupMain | backend/app/next_pickup.py:64-91 | exits exactly when neither argument is given or the item has no category; otherwise the pickup for the item's category, else for `--category` |
| Pickup.ItemOverridesCategory | backend/app/next_pickup.py:79-83 | with an item given, `--category` does not matter |
| Collector.SkipWhile | backend/collector/collect_data.py:41 | the greedy run of a character class ends where the class stops |
| Collector.SkipWhileEnd | backend/collector/collect_data.py:41 | a run ending where its class stops is the greedy run |
| Collector.GreedyRuns | backend/collector/collect_data.py:41 | every match uses exactly the longest whitespace, digit and whitespace runs |
| Collector.MatchHereSound | backend/collector/collect_data.py:41 | when the longest runs end at `ページ`, the pattern matches there |
| Collector.MatchHereExact | backend/collector/collect_data.py:41 | the pattern matches at a position exactly when the greedy runs do, and then captures their digits |
| Collector.FirstMatch | backend/collector/collect_data.py:41 | `re.search` finds the match at the leftmost position where the pattern matches, and its group is a non-empty run of ASCII digits |
| Collector.IntOfDigits | backend/collector/collect_data.py:42 | `int()` of a digit run raises ValueError exactly when it has more than 4300 digits, and otherwise gives its decimal value |
| Collector.ParseTotalPages | backend/collector/collect_data.py:39-42 | `None` exactly when `re.search` finds nothing; otherwise `int()` of the group of a match with no match at any earlier position, ValueError included |
| Collector.FirstHitExact | backend/collector/collect_data.py:41 | `re.search` reports the leftmost position that matches |
| Collector.ParseTotalPagesNone | backend/collector/collect_data.py:39-42 | `None` exactly when the pattern matches nowhere |
| Collector.ParseTotalPagesLeftmost | backend/collector/collect_data.py:39-42 | otherwise the leftmost match decides: the value of its digits when there are at most 4300 of them, ValueError beyond |
| Collector.PageCountExample | backend/collector/collect_data.py:40-42 | "全 84 ページ" reads as 84 |
| Collector.TotalPages | backend/collector/collect_data.py:131-146 | the planned page count is at least 1: the stated count, or 90 when it is missing or 0; a ValueError from `parse_total_pages` leaves `total_pages` unassigned and the crawl loop fails |
| Collector.LongCountRaises | backend/collector/collect_data.py:42-146 | a page stating a count of more than 4300 digits makes `parse_total_pages` raise ValueError and leaves the crawl without a page count |
| Collector.ZeroCountFallsBack | backend/collector/collect_data.py:131 | a stated count of 0 falls back to 90 pages |

## Left out

- Reading the schedule file, connecting to SQLite, printing, and the exit status of `seed_schedule.py`'s `main` are not modelled (I/O). The commit points are modelled as the state each step leaves: `AfterRules` and `RunRules` restore the rule and event tables on an error, and the first three steps stay written. Only the I/O of `conn.commit()` itself is left out. The FileNotFoundError check of `main` is left out for the same reason.
- `export_csv` (CSV files for inspection) is left out; it only reads the tables.
- YAML loading is left out. The document arrives as `Seeding.ScheduleDoc`. The KeyError for a missing mandatory key is not modelled. A missing or null `areas` list reads as empty.
- `month_dates` keys are given as numbers. The `ym.split("-")` / `int(day)` parsing and its ValueError on malformed text are not modelled.
- `json.dumps` of the rule and of the notes is not modelled. The rule row stores the rule value, and notes arrive as their JSON text.
- `Dates.ParseIsoDate` accepts only `YYYY-MM-DD`. The other forms `date.fromisoformat` accepts from Python 3.11 on (basic format, week dates) are not modelled.
- NFKC and SHA-1 are opaque function values (`Text.TextOps`). Only the laws in `Text.NfkcLaws` are assumed, and only for idempotence.
- Clock readings (`datetime.utcnow()`, `date.today()`) are parameters.
- The schema file is not part of this model. Its keys and unique constraints are assumed as stated above. Foreign-key enforcement (`PRAGMA foreign_keys = ON`) is not modelled: a rule naming an unlisted group, say, is accepted.
- SQLite row order for `LIMIT 1` without `ORDER BY`, and among equal dates or lengths, is modelled as storage order. Only `Pickup.CategoryFromItem`'s tie to `find_item_exact` depends on that choice, and the unique `items.name_norm` makes it immaterial (`Query.ExactHitDetermined`).
- `Seeding.CategoryIdOf`, `Seeding.StepFor`, `Seeding.AfterRules`, `SeedDb.Database.UpsertRule`, `SeedDb.Database.RunRules`, `SeedDb.Database.UpsertRulesAndEvents` and `SeedDb.Database.Seed` agree with `cat_id_by_name` only on a categories table where every row sits under `make_id("cat", its name)` (`Valid()`). On such a table `Seeding.CategoryIdOfExact` proves the two agree. An empty database has such a table, and every seeding step keeps it so (`ensures old(Valid()) ==> Valid()`). A table written by other code may hold a row under another id. The dictionary would find that row, but the model reports `UnknownCategory`. If several rows share a name, the dictionary takes the last one in SQLite's scan order, which is also not modelled.
- `Query.SuggestItemsPrefix`: "starts with the query" holds only up to ASCII letter case, because SQLite's default `LIKE` folds ASCII case only.
- Collector page fetching with retries, HTML table parsing, the crawl loop, CSV output, and the other collector scripts (`analyze_categories.py`, `fetch_test.py`) are left out. They use the network and pandas.
- Collector.IntOfDigits: the digit limit is fixed at CPython's default of 4300. Raising it with `PYTHONINTMAXSTRDIGITS` or `-X int_max_str_digits`, and older interpreters without a limit, are not modelled. Those are settings of the interpreter, not of the script.

## Findings

| source | as written | input that shows it | evidently intended | confidence | as-written member | corrected member |
|---|---|---|---|---|---|---|
| backend/app/query.py:72-76 | the normalised query is pasted into a `LIKE` pattern unescaped, so `_` and `%` in it are wildcards | query `_` suggests every item, e.g. `ペットボトル` | a prefix match of the literal query (the comment says prefix match) | not executed | Query.UnderscoreQuerySuggestsAll | Query.SuggestItemsPrefix |
