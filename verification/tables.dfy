/**
 * SQLite tables as maps from primary key to row, and the two write
 * disciplines the seeding code uses on them: `INSERT OR REPLACE` (the row
 * under the key is overwritten) and `INSERT OR IGNORE` (a row already under
 * the key is kept).
 */
module Tables {
  import opened Wrappers

  /** A run of `INSERT OR REPLACE` statements, in order: each pair overwrites the row under its key. */
  function Upsert<K, V>(t: map<K, V>, rows: seq<(K, V)>): (r: map<K, V>)
    ensures forall k :: k in t ==> k in r
    ensures forall i :: 0 <= i < |rows| ==> rows[i].0 in r
  {
    if rows == [] then t
    else
      var last := rows[|rows| - 1];
      Upsert(t, rows[..|rows| - 1])[last.0 := last.1]
  }

  /** Running one more statement of a prefix writes that statement's row. */
  lemma UpsertNext<K, V>(t: map<K, V>, rows: seq<(K, V)>, i: int)
    requires 0 <= i < |rows|
    ensures Upsert(t, rows[..i + 1]) == Upsert(t, rows[..i])[rows[i].0 := rows[i].1]
  {
    assert rows[..i + 1][..i] == rows[..i];
  }

  /** One more statement at the end writes its row over the earlier ones. */
  lemma UpsertSnoc<K, V>(t: map<K, V>, rows: seq<(K, V)>, k: K, v: V)
    ensures Upsert(t, rows + [(k, v)]) == Upsert(t, rows)[k := v]
  {
    assert (rows + [(k, v)])[..|rows|] == rows;
  }

  /** Every row of a table passed through `f`, under the same keys. */
  function MapRows<K, V>(f: V -> V, t: map<K, V>): (r: map<K, V>)
    ensures r.Keys == t.Keys
    ensures forall k :: k in t ==> r[k] == f(t[k])
  {
    map k | k in t :: f(t[k])
  }

  /** Every statement's row passed through `f`, keys and order unchanged. */
  function MapPairs<K, V>(f: V -> V, rows: seq<(K, V)>): (r: seq<(K, V)>)
    ensures |r| == |rows|
    ensures forall i :: 0 <= i < |rows| ==> r[i] == (rows[i].0, f(rows[i].1))
  {
    seq(|rows|, i requires 0 <= i < |rows| => (rows[i].0, f(rows[i].1)))
  }

  /** Two tables with the same keys whose rows agree once passed through `f`. */
  ghost predicate SameThrough<K, V>(f: V -> V, a: map<K, V>, b: map<K, V>) {
    a.Keys == b.Keys && forall k :: k in a ==> f(a[k]) == f(b[k])
  }

  /** Looking alike through `f` is equality of the mapped tables. */
  lemma MapRowsEqual<K, V>(f: V -> V, a: map<K, V>, b: map<K, V>)
    ensures MapRows(f, a) == MapRows(f, b) <==> SameThrough(f, a, b)
  {
    if MapRows(f, a) == MapRows(f, b) {
      forall k | k in a ensures f(a[k]) == f(b[k]) {
        assert MapRows(f, a)[k] == MapRows(f, b)[k];
      }
    }
  }

  /** Mapping the rows commutes with the replace statements: `f` of the result is the result on `f` of the rows. */
  lemma {:induction false} UpsertMap<K, V>(f: V -> V, t: map<K, V>, rows: seq<(K, V)>)
    ensures MapRows(f, Upsert(t, rows)) == Upsert(MapRows(f, t), MapPairs(f, rows))
    decreases |rows|
  {
    if rows != [] {
      var init := rows[..|rows| - 1];
      var last := rows[|rows| - 1];
      UpsertMap(f, t, init);
      assert MapPairs(f, rows)[..|rows| - 1] == MapPairs(f, init);
      var u := Upsert(t, init);
      assert MapRows(f, u[last.0 := last.1]) == MapRows(f, u)[last.0 := f(last.1)];
    }
  }

  /** The value of the last pair of `rows` under key `k`, if there is one. */
  function LastFor<K(==), V>(rows: seq<(K, V)>, k: K): Option<V> {
    if rows == [] then None
    else if rows[|rows| - 1].0 == k then Some(rows[|rows| - 1].1)
    else LastFor(rows[..|rows| - 1], k)
  }

  /**
   * After the statements, a key holds the row of the last statement that
   * wrote it; a key no statement wrote keeps its old row, and no other key
   * appears.
   */
  lemma {:induction false} UpsertRows<K(!new), V>(t: map<K, V>, rows: seq<(K, V)>)
    ensures forall k :: k in Upsert(t, rows) <==> k in t || LastFor(rows, k).Some?
    ensures forall k :: k in Upsert(t, rows) ==>
              Upsert(t, rows)[k] == (if LastFor(rows, k).Some? then LastFor(rows, k).value else t[k])
  {
    if rows != [] {
      UpsertRows(t, rows[..|rows| - 1]);
    }
  }

  /** The last value written under a key comes from one of the statements. */
  lemma {:induction false} LastForIn<K, V>(rows: seq<(K, V)>, k: K)
    requires LastFor(rows, k).Some?
    ensures exists i :: 0 <= i < |rows| && rows[i] == (k, LastFor(rows, k).value)
  {
    if rows[|rows| - 1].0 == k {
      assert rows[|rows| - 1] == (k, LastFor(rows, k).value);
    } else {
      LastForIn(rows[..|rows| - 1], k);
      var i :| 0 <= i < |rows| - 1 && rows[..|rows| - 1][i] == (k, LastFor(rows, k).value);
      assert rows[i] == rows[..|rows| - 1][i];
    }
  }

  /** The row a key ends up with comes from the last statement writing it, at or after any given one. */
  lemma {:induction false} LastForLatest<K, V>(rows: seq<(K, V)>, i: int)
    requires 0 <= i < |rows|
    ensures exists m :: i <= m < |rows| && rows[m].0 == rows[i].0 && LastFor(rows, rows[i].0) == Some(rows[m].1)
  {
    var n := |rows| - 1;
    if rows[n].0 == rows[i].0 {
      assert LastFor(rows, rows[i].0) == Some(rows[n].1);
    } else {
      LastForLatest(rows[..n], i);
      var m :| i <= m < n && rows[..n][m].0 == rows[i].0 && LastFor(rows[..n], rows[i].0) == Some(rows[..n][m].1);
      assert rows[m] == rows[..n][m];
    }
  }

  /** Replaying the same statements changes nothing. */
  lemma UpsertIdempotent<K(!new), V>(t: map<K, V>, rows: seq<(K, V)>)
    ensures Upsert(Upsert(t, rows), rows) == Upsert(t, rows)
  {
    var once := Upsert(t, rows);
    UpsertRows(t, rows);
    UpsertRows(once, rows);
    assert Upsert(once, rows).Keys == once.Keys;
  }

  /** Every written key is present afterwards. */
  lemma UpsertWritten<K(!new), V>(t: map<K, V>, rows: seq<(K, V)>, i: int)
    requires 0 <= i < |rows|
    ensures rows[i].0 in Upsert(t, rows)
  {
    UpsertRows(t, rows);
    LastForWritten(rows, i);
  }

  lemma {:induction false} LastForWritten<K, V>(rows: seq<(K, V)>, i: int)
    requires 0 <= i < |rows|
    ensures LastFor(rows, rows[i].0).Some?
  {
    if i < |rows| - 1 && rows[|rows| - 1].0 != rows[i].0 {
      LastForWritten(rows[..|rows| - 1], i);
    }
  }

  /**
   * `INSERT OR IGNORE` of one row value under every key of `keys`: keys
   * already present keep their rows, the others receive `v`.
   */
  function InsertAbsent<K, V>(t: map<K, V>, keys: set<K>, v: V): (r: map<K, V>)
    ensures r.Keys == t.Keys + keys
    ensures forall k :: k in t ==> r[k] == t[k]
    ensures forall k :: k in keys && k !in t ==> r[k] == v
  {
    map k | k in t.Keys + keys :: if k in t then t[k] else v
  }

  /** `INSERT OR IGNORE` of a single key. */
  lemma InsertAbsentOne<K, V>(t: map<K, V>, k: K, v: V)
    ensures InsertAbsent(t, {k}, v) == if k in t then t else t[k := v]
  {
  }

  /** Inserting a key set in two parts, one key at a time or all at once, gives the same table. */
  lemma InsertAbsentSplit<K, V>(t: map<K, V>, k1: set<K>, k2: set<K>, v: V)
    ensures InsertAbsent(InsertAbsent(t, k1, v), k2, v) == InsertAbsent(t, k1 + k2, v)
  {
  }

  /** Inserting keys that are all present already changes nothing. */
  lemma InsertAbsentPresent<K, V>(t: map<K, V>, keys: set<K>, v: V)
    requires keys <= t.Keys
    ensures InsertAbsent(t, keys, v) == t
  {
  }

  /** Replace statements that agree through `f`, run on tables that agree through `f`, leave tables that agree through `f`. */
  lemma UpsertSameThrough<K, V>(f: V -> V, a: map<K, V>, b: map<K, V>, rows1: seq<(K, V)>, rows2: seq<(K, V)>)
    requires SameThrough(f, a, b)
    requires MapPairs(f, rows1) == MapPairs(f, rows2)
    ensures SameThrough(f, Upsert(a, rows1), Upsert(b, rows2))
  {
    MapRowsEqual(f, a, b);
    UpsertMap(f, a, rows1);
    UpsertMap(f, b, rows2);
    MapRowsEqual(f, Upsert(a, rows1), Upsert(b, rows2));
  }
}
