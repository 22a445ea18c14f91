/**
 * Strict total orders and Python's `sorted(set(xs))` over one, used for
 * the generated dates and for the sorted area names of the seeding step.
 */
module Order {

  ghost predicate StrictTotal<T(!new)>(less: (T, T) -> bool) {
    && (forall x :: !less(x, x))
    && (forall x, y, z :: less(x, y) && less(y, z) ==> less(x, z))
    && (forall x, y :: x != y ==> less(x, y) || less(y, x))
  }

  /** Strictly ascending, hence free of duplicates. */
  ghost predicate Ascending<T>(less: (T, T) -> bool, s: seq<T>) {
    forall i, j :: 0 <= i < j < |s| ==> less(s[i], s[j])
  }

  /** Inserts `x` into an ascending `s` unless it is already there. */
  function InsertUnique<T(==)>(less: (T, T) -> bool, x: T, s: seq<T>): seq<T> {
    if s == [] then [x]
    else if x == s[0] then s
    else if less(x, s[0]) then [x] + s
    else [s[0]] + InsertUnique(less, x, s[1..])
  }

  /** `sorted(set(xs))`: the distinct elements of `xs` in ascending order. */
  function SortedUnique<T(==)>(less: (T, T) -> bool, xs: seq<T>): seq<T> {
    if xs == [] then []
    else InsertUnique(less, xs[|xs| - 1], SortedUnique(less, xs[..|xs| - 1]))
  }

  lemma {:induction false} InsertUniqueCorrect<T(!new)>(less: (T, T) -> bool, x: T, s: seq<T>)
    requires StrictTotal(less) && Ascending(less, s)
    ensures Ascending(less, InsertUnique(less, x, s))
    ensures forall y :: y in InsertUnique(less, x, s) <==> y in s || y == x
  {
    if s == [] || x == s[0] {
    } else if less(x, s[0]) {
      var r := [x] + s;
      forall i, j | 0 <= i < j < |r| ensures less(r[i], r[j]) {
        if i > 0 {
          assert r[i] == s[i - 1] && r[j] == s[j - 1];
        } else if j > 1 {
          assert less(s[0], s[j - 1]);
        }
      }
    } else {
      assert less(s[0], x);
      var tail := InsertUnique(less, x, s[1..]);
      assert Ascending(less, s[1..]) by {
        forall i, j | 0 <= i < j < |s[1..]| ensures less(s[1..][i], s[1..][j]) {
          assert s[1..][i] == s[i + 1] && s[1..][j] == s[j + 1];
        }
      }
      InsertUniqueCorrect(less, x, s[1..]);
      var r := [s[0]] + tail;
      forall y | y in tail ensures less(s[0], y) {
        if y != x {
          var k :| 1 <= k < |s| && s[k] == y;
        }
      }
      forall i, j | 0 <= i < j < |r| ensures less(r[i], r[j]) {
        if i > 0 {
          assert r[i] == tail[i - 1] && r[j] == tail[j - 1];
        } else {
          assert r[j] in tail;
        }
      }
      assert forall y :: y in s <==> y == s[0] || y in s[1..];
    }
  }

  lemma {:induction false} SortedUniqueCorrect<T(!new)>(less: (T, T) -> bool, xs: seq<T>)
    requires StrictTotal(less)
    ensures Ascending(less, SortedUnique(less, xs))
    ensures forall y :: y in SortedUnique(less, xs) <==> y in xs
  {
    if xs != [] {
      var init := xs[..|xs| - 1];
      SortedUniqueCorrect(less, init);
      InsertUniqueCorrect(less, xs[|xs| - 1], SortedUnique(less, init));
      assert xs == init + [xs[|xs| - 1]];
      assert forall y :: y in xs <==> y in init || y == xs[|xs| - 1];
    }
  }

  /** Inserting an element above everything present appends it. */
  lemma {:induction false} InsertUniqueAbove<T(!new)>(less: (T, T) -> bool, x: T, s: seq<T>)
    requires StrictTotal(less) && forall y :: y in s ==> less(y, x)
    ensures InsertUnique(less, x, s) == s + [x]
  {
    if s != [] {
      assert s[0] in s;
      InsertUniqueAbove(less, x, s[1..]);
      assert s == [s[0]] + s[1..];
    }
  }

  /** `sorted(set(xs))` leaves an already strictly ascending list as it is. */
  lemma {:induction false} SortedUniqueOfAscending<T(!new)>(less: (T, T) -> bool, xs: seq<T>)
    requires StrictTotal(less) && Ascending(less, xs)
    ensures SortedUnique(less, xs) == xs
  {
    if xs != [] {
      var init, last := xs[..|xs| - 1], xs[|xs| - 1];
      assert Ascending(less, init);
      SortedUniqueOfAscending(less, init);
      forall y | y in init ensures less(y, last) {
        var k :| 0 <= k < |init| && init[k] == y;
      }
      InsertUniqueAbove(less, last, init);
      assert init + [last] == xs;
    }
  }

  /** A strictly ascending list is determined by its elements. */
  lemma {:induction false} AscendingUnique<T(!new)>(less: (T, T) -> bool, a: seq<T>, b: seq<T>)
    requires StrictTotal(less) && Ascending(less, a) && Ascending(less, b)
    requires forall y :: y in a <==> y in b
    ensures a == b
  {
    assert a != [] ==> a[0] in b;
    assert b != [] ==> b[0] in a;
    if a != [] {
      var i :| 0 <= i < |a| && a[i] == b[0];
      var j :| 0 <= j < |b| && b[j] == a[0];
      assert a[0] == b[0];
      forall y ensures y in a[1..] <==> y in b[1..] {
        if y in a[1..] {
          var k :| 1 <= k < |a| && a[k] == y;
          assert less(a[0], y);
          assert y in b;
          assert y != b[0];
        }
        if y in b[1..] {
          var k :| 1 <= k < |b| && b[k] == y;
          assert less(b[0], y);
          assert y in a;
          assert y != a[0];
        }
      }
      AscendingUnique(less, a[1..], b[1..]);
      assert a == [a[0]] + a[1..] && b == [b[0]] + b[1..];
    }
  }
}
