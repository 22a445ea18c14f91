/**
 * The read-only lookup layer of backend/app/query.py: exact and alias item
 * lookups, prefix suggestions, and the exact -> alias -> suggest precedence of
 * its command line. Tables are read as sequences in storage order; a `LIMIT 1`
 * without `ORDER BY` yields the first qualifying row of that order.
 */
module Query {
  import opened Wrappers
  import opened Text

  // Rows of the tables the lookups read.

  datatype ItemRecord = ItemRecord(itemId: string, name: string, nameNorm: string, categoryId: string, note: Option<string>)
  datatype AliasRecord = AliasRecord(itemId: string, aliasNorm: string)
  datatype CategoryRecord = CategoryRecord(categoryId: string, name: string)
  datatype AreaRecord = AreaRecord(areaId: string, name: string)
  datatype EventRecord = EventRecord(areaId: string, categoryId: string, collectionDate: string, deadlineTime: Option<string>)

  /** The tables as the read side sees them, each in storage order. */
  datatype ReadStore = ReadStore(
    items: seq<ItemRecord>,
    aliases: seq<AliasRecord>,
    categories: seq<CategoryRecord>,
    areas: seq<AreaRecord>,
    events: seq<EventRecord>)

  /** `ItemHit(name, category, note)`. */
  datatype ItemHit = ItemHit(name: string, category: string, note: string)

  /** An item row joined to its category row. */
  type ItemRow = (ItemRecord, CategoryRecord)

  /** The selected columns `i.name, c.name, COALESCE(i.note, '')`. */
  function HitOf(row: ItemRow): ItemHit {
    ItemHit(row.0.name, row.1.name, row.0.note.GetOr(""))
  }

  /** The rows of `xs` that satisfy `keep`, in order. */
  function Select<T(!new)>(xs: seq<T>, keep: T -> bool): (r: seq<T>)
    ensures forall x :: x in r <==> x in xs && keep(x)
    ensures |r| <= |xs|
    ensures multiset(r) <= multiset(xs)
    ensures r != [] ==> exists i :: 0 <= i < |xs| && xs[i] == r[0] && forall j :: 0 <= j < i ==> !keep(xs[j])
  {
    if xs == [] then []
    else if keep(xs[0]) then
      assert xs == [xs[0]] + xs[1..];
      [xs[0]] + Select(xs[1..], keep)
    else
      var rest := Select(xs[1..], keep);
      assert rest != [] ==> exists i :: 0 <= i < |xs| && xs[i] == rest[0] && forall j :: 0 <= j < i ==> !keep(xs[j]) by {
        if rest != [] {
          var i :| 0 <= i < |xs[1..]| && xs[1..][i] == rest[0] && forall j :: 0 <= j < i ==> !keep(xs[1..][j]);
          assert xs[i + 1] == rest[0];
          forall j | 0 <= j < i + 1 ensures !keep(xs[j]) {
            if j > 0 { assert xs[j] == xs[1..][j - 1]; }
          }
        }
      }
      assert xs == [xs[0]] + xs[1..];
      rest
  }

  /** `items i JOIN categories c ON c.category_id = i.category_id`, items in order. */
  function ItemsJoined(items: seq<ItemRecord>, cats: seq<CategoryRecord>): (r: seq<ItemRow>)
    ensures forall row :: row in r <==> row.0 in items && row.1 in cats && row.1.categoryId == row.0.categoryId
  {
    if items == [] then []
    else
      var item := items[0];
      var own := Select(cats, (c: CategoryRecord) => c.categoryId == item.categoryId);
      var pairs := seq(|own|, k requires 0 <= k < |own| => (item, own[k]));
      assert forall row :: row in pairs <==> row.0 == item && row.1 in own by {
        forall row: ItemRow | row.0 == item && row.1 in own ensures row in pairs {
          var k :| 0 <= k < |own| && own[k] == row.1;
          assert pairs[k] == row;
        }
      }
      assert forall x :: x in items <==> x == item || x in items[1..] by {
        assert items == [item] + items[1..];
      }
      pairs + ItemsJoined(items[1..], cats)
  }

  /** An item row whose normalised name is `qn`. */
  predicate NamedRow(qn: string, row: ItemRow) {
    row.0.nameNorm == qn
  }

  /**
   * `find_item_exact`: the first joined item whose `name_norm` equals the
   * normalised query. There is no hit exactly when no item with a category
   * carries that normalised name.
   */
  function FindItemExact(ops: TextOps, db: ReadStore, query: string): (r: Option<ItemHit>)
    ensures var qn := NormalizeText(ops, Some(query));
            r.None? <==> forall row :: row in ItemsJoined(db.items, db.categories) ==> !NamedRow(qn, row)
    ensures var qn := NormalizeText(ops, Some(query));
            r.Some? ==> exists row :: row in ItemsJoined(db.items, db.categories) && NamedRow(qn, row) && r.value == HitOf(row)
  {
    var qn := NormalizeText(ops, Some(query));
    var rows := Select(ItemsJoined(db.items, db.categories), (row: ItemRow) => NamedRow(qn, row));
    if rows == [] then None else Some(HitOf(rows[0]))
  }

  /** `items.name_norm` is unique and `categories` is keyed by `category_id`, as the schema declares. */
  predicate SchemaKeys(db: ReadStore) {
    && (forall i, j :: 0 <= i < j < |db.items| ==> db.items[i].nameNorm != db.items[j].nameNorm)
    && (forall i, j :: 0 <= i < j < |db.categories| ==> db.categories[i].categoryId != db.categories[j].categoryId)
  }

  /** Under the schema's keys two joined rows with one normalised name are the same row. */
  lemma SameNameSameRow(db: ReadStore, x: ItemRow, y: ItemRow)
    requires SchemaKeys(db)
    requires x.0 in db.items && y.0 in db.items && x.0.nameNorm == y.0.nameNorm
    requires x.1 in db.categories && y.1 in db.categories
    requires x.1.categoryId == x.0.categoryId && y.1.categoryId == y.0.categoryId
    ensures x == y
  {
    var i :| 0 <= i < |db.items| && db.items[i] == x.0;
    var j :| 0 <= j < |db.items| && db.items[j] == y.0;
    assert i == j;
    var a :| 0 <= a < |db.categories| && db.categories[a] == x.1;
    var b :| 0 <= b < |db.categories| && db.categories[b] == y.1;
    assert a == b;
  }

  /**
   * Under the schema's keys an exact-name hit does not depend on row order:
   * any joined row carrying the normalised name is the one reported.
   */
  lemma ExactHitDetermined(ops: TextOps, db: ReadStore, query: string, row: ItemRow)
    requires SchemaKeys(db)
    requires row in ItemsJoined(db.items, db.categories) && row.0.nameNorm == NormalizeText(ops, Some(query))
    ensures FindItemExact(ops, db, query) == Some(HitOf(row))
  {
    var qn := NormalizeText(ops, Some(query));
    var joined := ItemsJoined(db.items, db.categories);
    var rows := Select(joined, (r: ItemRow) => NamedRow(qn, r));
    assert row in rows;
    var other := rows[0];
    assert other in rows;
    assert FindItemExact(ops, db, query) == Some(HitOf(other));
    SameNameSameRow(db, row, other);
  }

  /** An alias row joined to its item row and that item's category row. */
  type AliasRow = (AliasRecord, ItemRow)

  /** `item_aliases a JOIN items i ON i.item_id = a.item_id JOIN categories c ON ...`, aliases in order. */
  function AliasesJoined(aliases: seq<AliasRecord>, joined: seq<ItemRow>): (r: seq<AliasRow>)
    ensures forall row :: row in r <==> row.0 in aliases && row.1 in joined && row.1.0.itemId == row.0.itemId
  {
    if aliases == [] then []
    else
      var alias := aliases[0];
      var own := Select(joined, (ir: ItemRow) => ir.0.itemId == alias.itemId);
      var pairs := seq(|own|, k requires 0 <= k < |own| => (alias, own[k]));
      assert forall row :: row in pairs <==> row.0 == alias && row.1 in own by {
        forall row: AliasRow | row.0 == alias && row.1 in own ensures row in pairs {
          var k :| 0 <= k < |own| && own[k] == row.1;
          assert pairs[k] == row;
        }
      }
      assert forall x :: x in aliases <==> x == alias || x in aliases[1..] by {
        assert aliases == [alias] + aliases[1..];
      }
      pairs + AliasesJoined(aliases[1..], joined)
  }

  /**
   * `find_item_alias`: the item owning the first alias whose `alias_norm`
   * equals the normalised query; no hit exactly when no such alias leads to an
   * item with a category.
   */
  function FindItemAlias(ops: TextOps, db: ReadStore, query: string): (r: Option<ItemHit>)
    ensures var qn := NormalizeText(ops, Some(query));
            var rows := AliasesJoined(db.aliases, ItemsJoined(db.items, db.categories));
            r.None? <==> forall row :: row in rows ==> row.0.aliasNorm != qn
    ensures var qn := NormalizeText(ops, Some(query));
            var rows := AliasesJoined(db.aliases, ItemsJoined(db.items, db.categories));
            r.Some? ==> exists row :: row in rows && row.0.aliasNorm == qn && r.value == HitOf(row.1)
  {
    var qn := NormalizeText(ops, Some(query));
    var rows := Select(AliasesJoined(db.aliases, ItemsJoined(db.items, db.categories)), (row: AliasRow) => row.0.aliasNorm == qn);
    if rows == [] then None else Some(HitOf(rows[0].1))
  }

  // suggest_items_prefix

  /** SQLite's default `LIKE` folds the case of ASCII letters only. */
  function AsciiLower(c: char): char {
    if 'A' <= c <= 'Z' then (c as int + 32) as char else c
  }

  /**
   * SQLite `s LIKE p` without an `ESCAPE` clause: `%` matches any run of
   * characters, `_` any one character, and any other character itself up to
   * ASCII case.
   */
  predicate Like(s: string, p: string)
    decreases |s| + |p|
  {
    if p == [] then s == []
    else if p[0] == '%' then Like(s, p[1..]) || (s != [] && Like(s[1..], p))
    else s != [] && (p[0] == '_' || AsciiLower(s[0]) == AsciiLower(p[0])) && Like(s[1..], p[1..])
  }

  /** `s` starts with `q`, letters compared up to ASCII case. */
  predicate FoldPrefix(q: string, s: string) {
    |q| <= |s| && forall i :: 0 <= i < |q| ==> AsciiLower(s[i]) == AsciiLower(q[i])
  }

  /** How a suggestion query is matched against a normalised name. */
  datatype Pattern =
    | LikePattern(p: string)    // `name_norm LIKE p`
    | LiteralPrefix(q: string)  // `name_norm` starts with `q`, up to ASCII case

  predicate Accepts(pat: Pattern, s: string) {
    match pat
    case LikePattern(p) => Like(s, p)
    case LiteralPrefix(q) => FoldPrefix(q, s)
  }

  /** `WHERE name_norm ...`: the rows whose normalised name the pattern accepts, in order. */
  function MatchingRows(rows: seq<ItemRow>, pat: Pattern): (r: seq<ItemRow>)
    ensures forall row :: row in r <==> row in rows && Accepts(pat, row.0.nameNorm)
    ensures multiset(r) <= multiset(rows)
  {
    if rows == [] then []
    else
      assert rows == [rows[0]] + rows[1..];
      if Accepts(pat, rows[0].0.nameNorm) then [rows[0]] + MatchingRows(rows[1..], pat)
      else MatchingRows(rows[1..], pat)
  }

  /** Two patterns accepting the same names of `rows` select the same rows. */
  lemma {:induction false} MatchingAgree(rows: seq<ItemRow>, p1: Pattern, p2: Pattern)
    requires forall row :: row in rows ==> (Accepts(p1, row.0.nameNorm) <==> Accepts(p2, row.0.nameNorm))
    ensures MatchingRows(rows, p1) == MatchingRows(rows, p2)
  {
    if rows != [] {
      assert rows == [rows[0]] + rows[1..];
      MatchingAgree(rows[1..], p1, p2);
    }
  }

  function NameLength(row: ItemRow): nat {
    |row.0.nameNorm|
  }

  /** Rows in ascending length of their normalised names. */
  ghost predicate ByLength(rows: seq<ItemRow>) {
    forall i, j :: 0 <= i < j < |rows| ==> NameLength(rows[i]) <= NameLength(rows[j])
  }

  /** A row no longer than any of a length-ordered list may lead it. */
  lemma ByLengthCons(h: ItemRow, rest: seq<ItemRow>)
    requires ByLength(rest)
    requires forall y :: y in rest ==> NameLength(h) <= NameLength(y)
    ensures ByLength([h] + rest)
  {
    forall i, j | 0 <= i < j < |[h] + rest| ensures NameLength(([h] + rest)[i]) <= NameLength(([h] + rest)[j]) {
      assert ([h] + rest)[j] == rest[j - 1];
      if i > 0 {
        assert ([h] + rest)[i] == rest[i - 1];
      }
    }
  }

  /** The tail of a length-ordered list is length-ordered and no shorter than its head. */
  lemma ByLengthTail(s: seq<ItemRow>)
    requires ByLength(s) && s != []
    ensures ByLength(s[1..])
    ensures forall y :: y in s[1..] ==> NameLength(s[0]) <= NameLength(y)
  {
    forall i, j | 0 <= i < j < |s[1..]| ensures NameLength(s[1..][i]) <= NameLength(s[1..][j]) {
      assert s[1..][i] == s[i + 1] && s[1..][j] == s[j + 1];
    }
    forall y | y in s[1..] ensures NameLength(s[0]) <= NameLength(y) {
      var m :| 0 <= m < |s[1..]| && s[1..][m] == y;
      assert s[m + 1] == y;
    }
  }

  /** `ORDER BY LENGTH(name_norm)`: inserts a row before the first longer one. */
  function InsertByLength(x: ItemRow, sorted: seq<ItemRow>): (r: seq<ItemRow>)
    ensures multiset(r) == multiset(sorted) + multiset{x}
    ensures ByLength(sorted) ==> ByLength(r)
  {
    if sorted == [] then [x]
    else if NameLength(x) <= NameLength(sorted[0]) then
      assert ByLength(sorted) ==> ByLength([x] + sorted) by {
        if ByLength(sorted) {
          ByLengthTail(sorted);
          assert sorted == [sorted[0]] + sorted[1..];
          ByLengthCons(x, sorted);
        }
      }
      [x] + sorted
    else
      var head := sorted[0];
      var rest := InsertByLength(x, sorted[1..]);
      assert sorted == [head] + sorted[1..];
      assert ByLength(sorted) ==> ByLength([head] + rest) by {
        if ByLength(sorted) {
          ByLengthTail(sorted);
          forall y | y in rest ensures NameLength(head) <= NameLength(y) {
            assert y in multiset(rest);
          }
          ByLengthCons(head, rest);
        }
      }
      [head] + rest
  }

  /** Rows ordered by the length of their normalised names; rows of equal length keep their order. */
  function SortByLength(rows: seq<ItemRow>): (r: seq<ItemRow>)
    ensures multiset(r) == multiset(rows)
    ensures ByLength(r)
  {
    if rows == [] then []
    else
      assert rows == [rows[0]] + rows[1..];
      InsertByLength(rows[0], SortByLength(rows[1..]))
  }

  /** `LIMIT k`: a negative limit means no limit. */
  function Limit<T>(xs: seq<T>, k: int): (r: seq<T>)
    ensures |r| == if 0 <= k < |xs| then k else |xs|
    ensures r == xs[..|r|]
  {
    if 0 <= k < |xs| then xs[..k] else xs
  }

  /** A leading part of a length-ordered sequence is length-ordered, and no longer than what it leaves out. */
  lemma PrefixByLength(sorted: seq<ItemRow>, n: nat)
    requires ByLength(sorted) && n <= |sorted|
    ensures ByLength(sorted[..n])
    ensures multiset(sorted[..n]) <= multiset(sorted)
    ensures forall x, y :: x in sorted && x !in sorted[..n] && y in sorted[..n] ==> NameLength(y) <= NameLength(x)
  {
    assert sorted == sorted[..n] + sorted[n..];
    forall x, y | x in sorted && x !in sorted[..n] && y in sorted[..n] ensures NameLength(y) <= NameLength(x) {
      var a :| 0 <= a < |sorted| && sorted[a] == x;
      var b :| 0 <= b < n && sorted[..n][b] == y;
      assert a >= n;
    }
  }

  /**
   * The joined rows the pattern accepts, shortest name first, at most `k` of
   * them: every returned row qualifies, the lengths ascend, the count is the
   * limit or all qualifying rows, and any qualifying row left out is at least
   * as long as every returned one.
   */
  function SuggestRows(db: ReadStore, pat: Pattern, k: int): (r: seq<ItemRow>)
    ensures var m := MatchingRows(ItemsJoined(db.items, db.categories), pat);
            && |r| == (if 0 <= k < |m| then k else |m|)
            && multiset(r) <= multiset(m)
            && (forall row :: row in r ==> row in ItemsJoined(db.items, db.categories) && Accepts(pat, row.0.nameNorm))
            && ByLength(r)
            && (forall x, y :: x in m && x !in r && y in r ==> NameLength(y) <= NameLength(x))
  {
    var m := MatchingRows(ItemsJoined(db.items, db.categories), pat);
    var sorted := SortByLength(m);
    var r := Limit(sorted, k);
    PrefixByLength(sorted, |r|);
    assert forall row :: row in r ==> row in m by {
      forall row | row in r ensures row in m {
        assert row in multiset(r);
        assert row in multiset(m);
      }
    }
    assert forall x :: x in m <==> x in sorted by {
      forall x ensures x in m <==> x in sorted {
        assert x in m <==> x in multiset(m);
      }
    }
    r
  }

  /** `h` is the selected columns of a joined row the pattern accepts. */
  ghost predicate HitFrom(joined: seq<ItemRow>, pat: Pattern, h: ItemHit) {
    exists row :: row in joined && Accepts(pat, row.0.nameNorm) && h == HitOf(row)
  }

  /** Each hit of qualifying rows comes from a qualifying row. */
  lemma HitsOfRows(rows: seq<ItemRow>, joined: seq<ItemRow>, pat: Pattern)
    requires forall row :: row in rows ==> row in joined && Accepts(pat, row.0.nameNorm)
    ensures forall i :: 0 <= i < |rows| ==> HitFrom(joined, pat, HitOf(rows[i]))
  {
    forall i | 0 <= i < |rows| ensures HitFrom(joined, pat, HitOf(rows[i])) {
      var row := rows[i];
      assert row in rows;
      assert row in joined && Accepts(pat, row.0.nameNorm) && HitOf(rows[i]) == HitOf(row);
    }
  }

  /**
   * `suggest_items_prefix` as written: `name_norm LIKE qn || '%'`, so a `%` or
   * `_` in the query acts as a wildcard.
   */
  function SuggestItemsPrefixAsWritten(ops: TextOps, db: ReadStore, query: string, k: int): (r: seq<ItemHit>)
    ensures var rows := SuggestRows(db, LikePattern(NormalizeText(ops, Some(query)) + "%"), k);
            |r| == |rows| && forall i :: 0 <= i < |r| ==> r[i] == HitOf(rows[i])
    ensures 0 <= k ==> |r| <= k
    ensures forall i :: 0 <= i < |r| ==>
              HitFrom(ItemsJoined(db.items, db.categories), LikePattern(NormalizeText(ops, Some(query)) + "%"), r[i])
  {
    var qn := NormalizeText(ops, Some(query));
    var rows := SuggestRows(db, LikePattern(qn + "%"), k);
    var r := seq(|rows|, i requires 0 <= i < |rows| => HitOf(rows[i]));
    HitsOfRows(rows, ItemsJoined(db.items, db.categories), LikePattern(qn + "%"));
    r
  }

  /**
   * `suggest_items_prefix` as its comment says ("prefix match"): the query is
   * matched literally (an escaped `LIKE` pattern), so every suggestion's
   * normalised name starts with the normalised query, up to ASCII case.
   */
  function SuggestItemsPrefix(ops: TextOps, db: ReadStore, query: string, k: int): (r: seq<ItemHit>)
    ensures var rows := SuggestRows(db, LiteralPrefix(NormalizeText(ops, Some(query))), k);
            |r| == |rows| && forall i :: 0 <= i < |r| ==> r[i] == HitOf(rows[i])
  {
    var rows := SuggestRows(db, LiteralPrefix(NormalizeText(ops, Some(query))), k);
    seq(|rows|, i requires 0 <= i < |rows| => HitOf(rows[i]))
  }

  lemma {:induction false} LikeAnyRest(s: string)
    ensures Like(s, "%")
    decreases |s|
  {
    if s != [] {
      LikeAnyRest(s[1..]);
    }
  }

  /** For a query without wildcards, the `LIKE` pattern is exactly a prefix test up to ASCII case. */
  lemma {:induction false} LikePlainPrefix(s: string, q: string)
    requires forall i :: 0 <= i < |q| ==> q[i] != '%' && q[i] != '_'
    ensures Like(s, q + "%") <==> FoldPrefix(q, s)
    decreases |q|
  {
    if q == [] {
      assert q + "%" == "%";
      LikeAnyRest(s);
    } else {
      assert (q + "%")[0] == q[0];
      assert (q + "%")[1..] == q[1..] + "%";
      if s != [] {
        LikePlainPrefix(s[1..], q[1..]);
        if FoldPrefix(q[1..], s[1..]) && AsciiLower(s[0]) == AsciiLower(q[0]) {
          forall i | 0 <= i < |q| ensures AsciiLower(s[i]) == AsciiLower(q[i]) {
            if i > 0 { assert s[1..][i - 1] == s[i] && q[1..][i - 1] == q[i]; }
          }
        }
        if FoldPrefix(q, s) {
          forall i | 0 <= i < |q[1..]| ensures AsciiLower(s[1..][i]) == AsciiLower(q[1..][i]) {
            assert s[1..][i] == s[i + 1] && q[1..][i] == q[i + 1];
          }
        }
      }
    }
  }

  /** Without wildcards in the normalised query, the written and the intended suggestions coincide. */
  lemma SuggestionsAgreeWithoutWildcards(ops: TextOps, db: ReadStore, query: string, k: int)
    requires var qn := NormalizeText(ops, Some(query));
             forall i :: 0 <= i < |qn| ==> qn[i] != '%' && qn[i] != '_'
    ensures SuggestItemsPrefixAsWritten(ops, db, query, k) == SuggestItemsPrefix(ops, db, query, k)
  {
    var qn := NormalizeText(ops, Some(query));
    var joined := ItemsJoined(db.items, db.categories);
    forall row | row in joined ensures Accepts(LikePattern(qn + "%"), row.0.nameNorm) <==> Accepts(LiteralPrefix(qn), row.0.nameNorm) {
      LikePlainPrefix(row.0.nameNorm, qn);
    }
    MatchingAgree(joined, LikePattern(qn + "%"), LiteralPrefix(qn));
  }

  /**
   * The written pattern lets the one-character query `_` match every non-empty
   * name, although such a name does not start with `_`.
   */
  lemma UnderscoreMatchesAnyName(s: string)
    requires s != [] && AsciiLower(s[0]) != '_'
    ensures Like(s, "_" + "%")
    ensures !FoldPrefix("_", s)
  {
    assert ("_" + "%")[1..] == "%";
    LikeAnyRest(s[1..]);
  }

  /**
   * As written, a query that normalises to `_` makes every item with a
   * non-empty name a suggestion candidate, while the intended prefix match
   * rejects every name that does not start with `_`.
   */
  lemma UnderscoreQuerySuggestsAll(ops: TextOps, db: ReadStore, query: string)
    requires NormalizeText(ops, Some(query)) == "_"
    ensures forall row :: row in ItemsJoined(db.items, db.categories) && row.0.nameNorm != [] ==>
              row in MatchingRows(ItemsJoined(db.items, db.categories), LikePattern(NormalizeText(ops, Some(query)) + "%"))
    ensures forall row :: row in ItemsJoined(db.items, db.categories) && row.0.nameNorm != [] && AsciiLower(row.0.nameNorm[0]) != '_' ==>
              row !in MatchingRows(ItemsJoined(db.items, db.categories), LiteralPrefix(NormalizeText(ops, Some(query))))
  {
    forall row | row in ItemsJoined(db.items, db.categories) && row.0.nameNorm != [] && AsciiLower(row.0.nameNorm[0]) != '_'
      ensures Like(row.0.nameNorm, "_" + "%") && !FoldPrefix("_", row.0.nameNorm)
    {
      UnderscoreMatchesAnyName(row.0.nameNorm);
    }
    forall row | row in ItemsJoined(db.items, db.categories) && row.0.nameNorm != []
      ensures Like(row.0.nameNorm, "_" + "%")
    {
      assert ("_" + "%")[1..] == "%";
      LikeAnyRest(row.0.nameNorm[1..]);
    }
  }

  /** A concrete instance: the query `_` matches the item name ペットボトル (PET bottle). */
  lemma UnderscoreMatchesPetBottle()
    ensures Like("ペットボトル", "_%") && !FoldPrefix("_", "ペットボトル")
  {
    UnderscoreMatchesAnyName("ペットボトル");
  }

  // main

  datatype LookupResult = Hit(hit: ItemHit) | NoHit(suggestions: seq<ItemHit>)

  /**
   * `main`: `find_item_exact(text) or find_item_alias(text)`; only when both
   * miss are suggestions produced, through `suggest_items_prefix` as written.
   * A hit is reported exactly when an item's normalised name or one of its
   * aliases equals the normalised text.
   */
  function Lookup(ops: TextOps, db: ReadStore, text: string, k: int): (r: LookupResult)
    ensures FindItemExact(ops, db, text).Some? ==> r == Hit(FindItemExact(ops, db, text).value)
    ensures FindItemExact(ops, db, text).None? && FindItemAlias(ops, db, text).Some? ==> r == Hit(FindItemAlias(ops, db, text).value)
    ensures var qn := NormalizeText(ops, Some(text));
            r.Hit? <==> (exists row :: row in ItemsJoined(db.items, db.categories) && row.0.nameNorm == qn)
                        || (exists row :: row in AliasesJoined(db.aliases, ItemsJoined(db.items, db.categories)) && row.0.aliasNorm == qn)
    ensures r.NoHit? ==> r.suggestions == SuggestItemsPrefixAsWritten(ops, db, text, k)
  {
    match FindItemExact(ops, db, text)
    case Some(h) => Hit(h)
    case None =>
      match FindItemAlias(ops, db, text)
      case Some(h) => Hit(h)
      case None => NoHit(SuggestItemsPrefixAsWritten(ops, db, text, k))
  }

  /** `main` with the intended literal prefix match for its suggestions. */
  function LookupIntended(ops: TextOps, db: ReadStore, text: string, k: int): (r: LookupResult)
    ensures r.Hit? <==> Lookup(ops, db, text, k).Hit?
    ensures r.Hit? ==> r == Lookup(ops, db, text, k)
    ensures r.NoHit? ==> r.suggestions == SuggestItemsPrefix(ops, db, text, k)
  {
    match Lookup(ops, db, text, k)
    case Hit(h) => Hit(h)
    case NoHit(_) => NoHit(SuggestItemsPrefix(ops, db, text, k))
  }

  /** Without wildcards in the normalised text, `main` as written prints the intended suggestions. */
  lemma LookupAgreesWithoutWildcards(ops: TextOps, db: ReadStore, text: string, k: int)
    requires var qn := NormalizeText(ops, Some(text));
             forall i :: 0 <= i < |qn| ==> qn[i] != '%' && qn[i] != '_'
    ensures Lookup(ops, db, text, k) == LookupIntended(ops, db, text, k)
  {
    SuggestionsAgreeWithoutWildcards(ops, db, text, k);
  }

  /**
   * As written, `main` answers an unmatched text that normalises to `_` with
   * suggestions whenever some item has a non-empty name, although no name
   * starts with `_`.
   */
  lemma LookupUnderscoreSuggests(ops: TextOps, db: ReadStore, text: string, k: int, row: ItemRow)
    requires NormalizeText(ops, Some(text)) == "_" && 0 < k
    requires row in ItemsJoined(db.items, db.categories) && row.0.nameNorm != []
    requires Lookup(ops, db, text, k).NoHit?
    ensures Lookup(ops, db, text, k).suggestions != []
  {
    UnderscoreQuerySuggestsAll(ops, db, text);
    var m := MatchingRows(ItemsJoined(db.items, db.categories), LikePattern(NormalizeText(ops, Some(text)) + "%"));
    assert row in m;
  }
}
