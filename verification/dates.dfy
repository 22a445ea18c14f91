/**
 * Calendar dates as Python's `datetime.date` treats them: validated
 * (year, month, day) triples in years 1..9999, compared chronologically,
 * with `weekday()` computed from `toordinal()` and `isoformat()` text.
 */
module Dates {
  import opened Wrappers
  import opened Text
  import Order

  datatype Date = Date(year: int, month: int, day: int)

  const MaxDate := Date(9999, 12, 31)

  predicate IsLeap(y: int) {
    y % 4 == 0 && (y % 100 != 0 || y % 400 == 0)
  }

  function DaysInMonth(y: int, m: int): int
    requires 1 <= m <= 12
  {
    if m == 2 then (if IsLeap(y) then 29 else 28)
    else if m == 4 || m == 6 || m == 9 || m == 11 then 30
    else 31
  }

  /** What `date(y, m, d)` accepts; anything else raises ValueError. */
  predicate ValidDate(d: Date) {
    1 <= d.year <= 9999 && 1 <= d.month <= 12 && 1 <= d.day <= DaysInMonth(d.year, d.month)
  }

  /** A `date` value: a triple `date(y, m, d)` accepts. */
  type CalendarDate = d: Date | ValidDate(d) witness Date(1, 1, 1)

  /** Chronological order, as `<` on `date`. */
  predicate DateLess(a: Date, b: Date) {
    || a.year < b.year
    || (a.year == b.year && a.month < b.month)
    || (a.year == b.year && a.month == b.month && a.day < b.day)
  }

  predicate DateLessEq(a: Date, b: Date) {
    a == b || DateLess(a, b)
  }

  lemma DateLessStrictTotal()
    ensures Order.StrictTotal(DateLess)
  {
  }

  lemma MaxDateIsLast(d: Date)
    requires ValidDate(d)
    ensures DateLessEq(d, MaxDate)
  {
  }

  /**
   * `d + timedelta(days=1)`: the next calendar day. For 9999-12-31 the
   * result is not a valid date (Python raises OverflowError there).
   */
  function Next(d: Date): (r: Date)
    requires ValidDate(d)
    ensures DateLess(d, r)
    ensures d != MaxDate ==> ValidDate(r)
    ensures forall x :: ValidDate(x) && DateLess(d, x) ==> DateLessEq(r, x)
  {
    if d.day < DaysInMonth(d.year, d.month) then Date(d.year, d.month, d.day + 1)
    else if d.month < 12 then Date(d.year, d.month + 1, 1)
    else Date(d.year + 1, 1, 1)
  }

  /** Python's `_days_before_year`. */
  function DaysBeforeYear(y: int): int
    requires y >= 1
  {
    var y1 := y - 1;
    y1 * 365 + y1 / 4 - y1 / 100 + y1 / 400
  }

  /** Python's `_days_before_month`. */
  function DaysBeforeMonth(y: int, m: int): int
    requires 1 <= m <= 12
  {
    [0, 0, 31, 59, 90, 120, 151, 181, 212, 243, 273, 304, 334][m]
      + (if m > 2 && IsLeap(y) then 1 else 0)
  }

  /** `date.toordinal()`: 0001-01-01 is day 1. */
  function Ordinal(d: Date): int
    requires ValidDate(d)
  {
    DaysBeforeYear(d.year) + DaysBeforeMonth(d.year, d.month) + d.day
  }

  /** `date.weekday()`: Monday is 0, Sunday is 6. */
  function Weekday(d: Date): (r: int)
    requires ValidDate(d)
    ensures 0 <= r < 7
  {
    (Ordinal(d) + 6) % 7
  }

  lemma DaysBeforeNextYear(y: int)
    requires y >= 1
    ensures DaysBeforeYear(y + 1) == DaysBeforeYear(y) + 365 + (if IsLeap(y) then 1 else 0)
  {
    assert y / 4 - (y - 1) / 4 == (if y % 4 == 0 then 1 else 0);
    assert y / 100 - (y - 1) / 100 == (if y % 100 == 0 then 1 else 0);
    assert y / 400 - (y - 1) / 400 == (if y % 400 == 0 then 1 else 0);
  }

  /** `Next` is the successor day: one ordinal later, one weekday on. */
  lemma NextOrdinal(d: Date)
    requires ValidDate(d) && d != MaxDate
    ensures Ordinal(Next(d)) == Ordinal(d) + 1
    ensures Weekday(Next(d)) == (Weekday(d) + 1) % 7
  {
    var n := Next(d);
    if d.day < DaysInMonth(d.year, d.month) {
      assert n == Date(d.year, d.month, d.day + 1);
    } else if d.month < 12 {
      assert n == Date(d.year, d.month + 1, 1);
      DaysBeforeNextMonth(d.year, d.month);
    } else {
      assert n == Date(d.year + 1, 1, 1);
      assert DaysBeforeMonth(n.year, 1) == 0;
      assert DaysBeforeMonth(d.year, 12) + 31 == 365 + (if IsLeap(d.year) then 1 else 0);
      DaysBeforeNextYear(d.year);
    }
    ModSucc(Ordinal(d) + 6);
  }

  lemma ModSucc(x: int)
    ensures (x + 1) % 7 == (x % 7 + 1) % 7
  {
    var q, r := x / 7, x % 7;
    assert x == 7 * q + r && 0 <= r < 7;
    if r < 6 {
      assert x + 1 == 7 * q + (r + 1);
    } else {
      assert x + 1 == 7 * (q + 1);
    }
  }

  lemma DaysBeforeNextMonth(y: int, m: int)
    requires 1 <= m < 12
    ensures DaysBeforeMonth(y, m + 1) == DaysBeforeMonth(y, m) + DaysInMonth(y, m)
  {
    var t := [0, 0, 31, 59, 90, 120, 151, 181, 212, 243, 273, 304, 334];
    assert t[m + 1] == t[m] + (if m == 2 then 28 else DaysInMonth(y, m));
  }

  function Pow10(k: nat): (r: nat)
    ensures r >= 1
  {
    if k == 0 then 1 else 10 * Pow10(k - 1)
  }

  function DigitChar(v: int): char
    requires 0 <= v < 10
  {
    ('0' as int + v) as char
  }

  /** `n` in exactly `k` decimal digits, zero-padded on the left (`%0kd`). */
  function Digits(n: int, k: nat): (r: string)
    requires 0 <= n < Pow10(k)
    ensures |r| == k
  {
    if k == 0 then []
    else
      var p := Pow10(k - 1);
      DivLess(n, p, 10);
      [DigitChar(n / p)] + Digits(n % p, k - 1)
  }

  lemma DivLess(n: int, p: int, q: int)
    requires 0 <= n < q * p && p >= 1
    ensures 0 <= n / p < q
  {
  }

  lemma DivMod(a: int, p: int)
    requires p >= 1
    ensures a == (a / p) * p + a % p && 0 <= a % p < p
  {
  }

  lemma MulMono(x: int, y: int, p: int)
    requires x <= y && p >= 0
    ensures x * p <= y * p
  {
  }

  /** A smaller quotient means a smaller number. */
  lemma DivOrder(a: int, b: int, p: int)
    requires a >= 0 && b >= 0 && p >= 1 && a / p < b / p
    ensures a < b
  {
    var qa, qb := a / p, b / p;
    DivMod(a, p);
    DivMod(b, p);
    MulMono(qa + 1, qb, p);
    assert (qa + 1) * p == qa * p + p;
  }

  /** Numbers compare by quotient first, then by remainder. */
  lemma QuotientOrder(a: int, b: int, p: int)
    requires a >= 0 && b >= 0 && p >= 1
    ensures a < b <==> a / p < b / p || (a / p == b / p && a % p < b % p)
  {
    if a / p < b / p {
      DivOrder(a, b, p);
    } else if b / p < a / p {
      DivOrder(b, a, p);
    } else {
      DivMod(a, p);
      DivMod(b, p);
    }
  }

  /** The leading digit and the rest of a fixed-width digit string. */
  lemma DigitsHead(n: int, k: nat)
    requires k > 0 && 0 <= n < Pow10(k)
    ensures 0 <= n / Pow10(k - 1) < 10 && 0 <= n % Pow10(k - 1) < Pow10(k - 1)
    ensures Digits(n, k)[0] == DigitChar(n / Pow10(k - 1))
    ensures Digits(n, k)[1..] == Digits(n % Pow10(k - 1), k - 1)
  {
    DivLess(n, Pow10(k - 1), 10);
  }

  /** Comparing two digit strings of one width: leading digits first, then the rest. */
  lemma DigitsStep(a: int, b: int, k: nat)
    requires k > 0 && 0 <= a < Pow10(k) && 0 <= b < Pow10(k)
    ensures 0 <= a % Pow10(k - 1) < Pow10(k - 1) && 0 <= b % Pow10(k - 1) < Pow10(k - 1)
    ensures StrLess(Digits(a, k), Digits(b, k)) <==>
              || a / Pow10(k - 1) < b / Pow10(k - 1)
              || (a / Pow10(k - 1) == b / Pow10(k - 1) && StrLess(Digits(a % Pow10(k - 1), k - 1), Digits(b % Pow10(k - 1), k - 1)))
  {
    DigitsHead(a, k);
    DigitsHead(b, k);
  }

  /** Fixed-width digit strings compare as text exactly as their values compare as numbers. */
  lemma {:induction false} DigitsOrder(a: int, b: int, k: nat)
    requires 0 <= a < Pow10(k) && 0 <= b < Pow10(k)
    ensures StrLess(Digits(a, k), Digits(b, k)) <==> a < b
    decreases k
  {
    if k > 0 {
      var p := Pow10(k - 1);
      DigitsStep(a, b, k);
      DigitsOrder(a % p, b % p, k - 1);
      QuotientOrder(a, b, p);
    }
  }

  /** `date.isoformat()`: "YYYY-MM-DD". */
  function IsoFormat(d: Date): (r: string)
    requires ValidDate(d)
    ensures |r| == 10
  {
    Digits(d.year, 4) + "-" + Digits(d.month, 2) + "-" + Digits(d.day, 2)
  }

  lemma DigitsInjective(a: int, b: int, k: nat)
    requires 0 <= a < Pow10(k) && 0 <= b < Pow10(k)
    ensures Digits(a, k) == Digits(b, k) <==> a == b
  {
    if a != b {
      DigitsOrder(a, b, k);
      DigitsOrder(b, a, k);
      StrLessIrreflexive(Digits(a, k));
    }
  }

  /** An ISO text is the year block followed by the month and day blocks. */
  lemma IsoBlocks(d: Date)
    requires ValidDate(d)
    ensures IsoFormat(d) == Digits(d.year, 4) + (("-" + Digits(d.month, 2)) + ("-" + Digits(d.day, 2)))
    ensures IsoFormat(d)[..4] == Digits(d.year, 4)
    ensures IsoFormat(d)[5..7] == Digits(d.month, 2)
    ensures IsoFormat(d)[8..] == Digits(d.day, 2)
  {
  }

  /** Comparing ISO texts as strings agrees with chronological order. */
  lemma IsoLess(a: Date, b: Date)
    requires ValidDate(a) && ValidDate(b)
    ensures StrLess(IsoFormat(a), IsoFormat(b)) <==> DateLess(a, b)
  {
    var ya, ma, da := Digits(a.year, 4), Digits(a.month, 2), Digits(a.day, 2);
    var yb, mb, db := Digits(b.year, 4), Digits(b.month, 2), Digits(b.day, 2);
    IsoBlocks(a);
    IsoBlocks(b);
    DigitsOrder(a.year, b.year, 4);
    DigitsOrder(a.month, b.month, 2);
    DigitsOrder(a.day, b.day, 2);
    DigitsInjective(a.year, b.year, 4);
    DigitsInjective(a.month, b.month, 2);
    StrLessConcat(ya, ("-" + ma) + ("-" + da), yb, ("-" + mb) + ("-" + db));
    StrLessConcat("-" + ma, "-" + da, "-" + mb, "-" + db);
    StrLessConcat("-", ma, "-", mb);
    StrLessConcat("-", da, "-", db);
    StrLessIrreflexive("-");
  }

  /**
   * For dates with four-digit years, comparing ISO texts as strings (as SQLite
   * does with `collection_date >= ?` and `ORDER BY collection_date`) agrees with
   * chronological order, and distinct dates have distinct texts.
   */
  lemma IsoOrder(a: Date, b: Date)
    requires ValidDate(a) && ValidDate(b)
    ensures StrLess(IsoFormat(a), IsoFormat(b)) <==> DateLess(a, b)
    ensures IsoFormat(a) == IsoFormat(b) <==> a == b
  {
    IsoLess(a, b);
    if IsoFormat(a) == IsoFormat(b) {
      IsoBlocks(a);
      IsoBlocks(b);
      DigitsInjective(a.year, b.year, 4);
      DigitsInjective(a.month, b.month, 2);
      DigitsInjective(a.day, b.day, 2);
    }
  }

  predicate IsDigit(c: char) {
    '0' <= c <= '9'
  }

  predicate AllDigits(s: string) {
    forall i :: 0 <= i < |s| ==> IsDigit(s[i])
  }

  /** `int(s)` for a run of ASCII digits; leading zeros are allowed. */
  function DecimalValue(s: string): (r: nat)
    requires AllDigits(s)
    ensures r < Pow10(|s|)
  {
    if s == [] then 0
    else
      var d := s[0] as int - '0' as int;
      var rest := DecimalValue(s[1..]);
      MulMono(d, 9, Pow10(|s| - 1));
      d * Pow10(|s| - 1) + rest
  }

  lemma DivModUnique(q: int, r: int, p: int)
    requires 0 <= r < p
    ensures (q * p + r) / p == q && (q * p + r) % p == r
  {
    var n := q * p + r;
    var qq, rr := n / p, n % p;
    DivMod(n, p);
    assert (qq - q) * p == r - rr;
    if qq - q >= 1 {
      MulMono(1, qq - q, p);
    } else if q - qq >= 1 {
      MulMono(1, q - qq, p);
    }
  }

  /** Reading back a zero-padded digit string gives the number. */
  lemma {:induction false} DigitsValue(n: int, k: nat)
    requires 0 <= n < Pow10(k)
    ensures AllDigits(Digits(n, k)) && DecimalValue(Digits(n, k)) == n
  {
    if k > 0 {
      var p := Pow10(k - 1);
      DivLess(n, p, 10);
      DigitsValue(n % p, k - 1);
      var s := Digits(n, k);
      assert s[0] == DigitChar(n / p) && s[1..] == Digits(n % p, k - 1);
      DivMod(n, p);
    }
  }

  /** Writing a digit string's value back in as many digits gives the string. */
  lemma {:induction false} ValueDigits(s: string)
    requires AllDigits(s)
    ensures Digits(DecimalValue(s), |s|) == s
  {
    if s != [] {
      var p := Pow10(|s| - 1);
      var d := s[0] as int - '0' as int;
      var rest := DecimalValue(s[1..]);
      ValueDigits(s[1..]);
      DivModUnique(d, rest, p);
      assert DigitChar(d) == s[0];
      assert s == [s[0]] + s[1..];
    }
  }

  /** `date.fromisoformat(s)` for text of the form "YYYY-MM-DD"; anything else is rejected. */
  function ParseIsoDate(s: string): (r: Option<Date>)
    ensures r.Some? ==> ValidDate(r.value)
  {
    if |s| == 10 && s[4] == '-' && s[7] == '-' && AllDigits(s[..4]) && AllDigits(s[5..7]) && AllDigits(s[8..]) then
      var d := Date(DecimalValue(s[..4]), DecimalValue(s[5..7]), DecimalValue(s[8..]));
      if ValidDate(d) then Some(d) else None
    else None
  }

  /** Parsing and formatting are inverse: exactly the ISO texts of calendar dates parse. */
  lemma IsoRoundTrip(s: string, d: Date)
    ensures ParseIsoDate(s) == Some(d) <==> ValidDate(d) && s == IsoFormat(d)
  {
    if ValidDate(d) && s == IsoFormat(d) {
      DigitsValue(d.year, 4);
      DigitsValue(d.month, 2);
      DigitsValue(d.day, 2);
      assert s[..4] == Digits(d.year, 4);
      assert s[5..7] == Digits(d.month, 2);
      assert s[8..] == Digits(d.day, 2);
    }
    if ParseIsoDate(s) == Some(d) {
      ValueDigits(s[..4]);
      ValueDigits(s[5..7]);
      ValueDigits(s[8..]);
      assert s == s[..4] + "-" + s[5..7] + "-" + s[8..];
    }
  }
}
