/**
 * The page-count reading of backend/collector/collect_data.py: the total
 * number of pages is taken from the first page's text "全 N ページ"
 * ("N pages in all"), and the crawl falls back to `MAX_PAGE` pages when
 * the text is missing.
 */
module Collector {
  import opened Wrappers
  import opened Text
  import opened Dates

  /** `MAX_PAGE`: the page count assumed when the first page does not state one. */
  const MaxPage: nat := 90

  /**
   * CPython's default `int_max_str_digits`: `int()` of a decimal text with
   * more digits than this raises ValueError.
   */
  const IntMaxStrDigits: nat := 4300

  /** The ValueError `int()` raises for a digit run of the given length. */
  datatype IntError = TooManyDigits(digits: nat)

  /**
   * The crawl loop's `range(..., total_pages + 1)` reached with `total_pages`
   * never assigned: the UnboundLocalError that ends `main`.
   */
  datatype CrawlError = TotalPagesUnbound

  /** The word "ページ" (page) that closes the count. */
  const PageWord: string := "ページ"

  /** Every character of `t` is in the class `p`. */
  predicate All(p: char -> bool, t: string) {
    forall k :: 0 <= k < |t| ==> p(t[k])
  }

  /** The end of the longest run of characters of class `p` starting at `i`. */
  function SkipWhile(p: char -> bool, s: string, i: nat): (j: nat)
    requires i <= |s|
    ensures i <= j <= |s|
    ensures All(p, s[i..j]) && (j == |s| || !p(s[j]))
    decreases |s| - i
  {
    if i < |s| && p(s[i]) then
      var j := SkipWhile(p, s, i + 1);
      assert forall k :: 0 < k < j - i ==> s[i..j][k] == s[i + 1..j][k - 1];
      j
    else i
  }

  /** A run of class `p` ending where the class stops is the longest run. */
  lemma {:induction false} SkipWhileEnd(p: char -> bool, s: string, i: nat, j: nat)
    requires i <= j <= |s|
    requires All(p, s[i..j]) && (j == |s| || !p(s[j]))
    ensures SkipWhile(p, s, i) == j
    decreases j - i
  {
    if i < j {
      assert s[i] == s[i..j][0];
      SkipWhileEnd(p, s, i + 1, j);
    }
  }

  /**
   * The pattern `全\s*([0-9]+)\s*ページ` matches at `i`, with whitespace up to
   * `a`, the digits `s[a..b]`, whitespace up to `c` and the word at `c`.
   */
  predicate MatchesAt(s: string, i: int, a: int, b: int, c: int) {
    && 0 <= i && i + 1 <= a < b <= c && c + |PageWord| <= |s|
    && s[i] == '全'
    && All(IsSpace, s[i + 1..a])
    && AllDigits(s[a..b])
    && All(IsSpace, s[b..c])
    && s[c..c + |PageWord|] == PageWord
  }

  /** The pattern at one position: the captured digits, if it matches there. */
  function MatchHere(s: string, i: nat): (r: Option<string>)
    ensures r.Some? ==> 0 < |r.value| && AllDigits(r.value)
  {
    if |s| <= i || s[i] != '全' then None
    else
      var a := SkipWhile(IsSpace, s, i + 1);
      var b := SkipWhile(IsDigit, s, a);
      var c := SkipWhile(IsSpace, s, b);
      if a < b && c + |PageWord| <= |s| && s[c..c + |PageWord|] == PageWord then Some(s[a..b])
      else None
  }

  /** When the longest runs are followed by the word, the pattern matches with those runs. */
  lemma MatchHereSound(s: string, i: nat)
    requires MatchHere(s, i).Some?
    ensures exists a, b, c :: MatchesAt(s, i, a, b, c)
  {
    var a := SkipWhile(IsSpace, s, i + 1);
    var b := SkipWhile(IsDigit, s, a);
    var c := SkipWhile(IsSpace, s, b);
    assert MatchesAt(s, i, a, b, c);
  }

  /**
   * Whitespace, digits and the word's first letter are disjoint classes, so
   * every match uses exactly the longest runs.
   */
  lemma GreedyRuns(s: string, i: int, a: int, b: int, c: int)
    requires MatchesAt(s, i, a, b, c)
    ensures a == SkipWhile(IsSpace, s, i + 1)
    ensures b == SkipWhile(IsDigit, s, a)
    ensures c == SkipWhile(IsSpace, s, b)
  {
    assert s[a] == s[a..b][0] && IsDigit(s[a]);
    SkipWhileEnd(IsSpace, s, i + 1, a);
    assert s[c] == PageWord[0];
    if b < c {
      assert s[b] == s[b..c][0] && IsSpace(s[b]);
    }
    SkipWhileEnd(IsDigit, s, a, b);
    SkipWhileEnd(IsSpace, s, b, c);
  }

  /**
   * Backtracking never finds another split: the pattern matches at `i`
   * exactly when the longest runs do, and then captures those runs' digits.
   */
  lemma MatchHereExact(s: string, i: nat)
    ensures MatchHere(s, i).Some? <==> exists a, b, c :: MatchesAt(s, i, a, b, c)
    ensures forall a, b, c :: MatchesAt(s, i, a, b, c) ==> MatchHere(s, i) == Some(s[a..b])
  {
    if MatchHere(s, i).Some? {
      MatchHereSound(s, i);
    }
    forall a, b, c | MatchesAt(s, i, a, b, c) ensures MatchHere(s, i) == Some(s[a..b]) {
      GreedyRuns(s, i, a, b, c);
    }
  }

  /** The first position in `i..n` where `hit` gives a value, and that value. */
  function FirstHit<T>(hit: nat -> Option<T>, i: nat, n: nat): Option<T>
    requires i <= n
    decreases n - i
  {
    if i == n then None
    else if hit(i).Some? then hit(i)
    else FirstHit(hit, i + 1, n)
  }

  /** `MatchHere` at every position of `html`. */
  function MatchesIn(html: string): nat -> Option<string> {
    (i: nat) => MatchHere(html, i)
  }

  /**
   * `int()` of a run of ASCII digits: its decimal value, or ValueError when
   * the run is longer than `IntMaxStrDigits`.
   */
  function IntOfDigits(digits: string): (r: Result<nat, IntError>)
    requires AllDigits(digits)
    ensures r.Err? <==> |digits| > IntMaxStrDigits
    ensures r.Err? ==> r.error == TooManyDigits(|digits|)
    ensures r.Ok? ==> r.value == DecimalValue(digits) && r.value < Pow10(|digits|)
  {
    if |digits| > IntMaxStrDigits then Err(TooManyDigits(|digits|)) else Ok(DecimalValue(digits))
  }

  /** The first match of `re.search` in `html`, as the captured digits. */
  function FirstMatch(html: string): (r: Option<string>)
    ensures r.Some? ==> exists i :: 0 <= i < |html| && MatchHere(html, i) == r && forall j :: 0 <= j < i ==> MatchHere(html, j).None?
    ensures r.Some? ==> 0 < |r.value| && AllDigits(r.value)
  {
    var hit := MatchesIn(html);
    FirstHitExact(hit, 0, |html|);
    assert forall j :: 0 <= j < |html| ==> hit(j) == MatchHere(html, j);
    FirstHit(hit, 0, |html|)
  }

  /**
   * `parse_total_pages`: `None` when the pattern matches nowhere, otherwise
   * `int()` of the digits of the leftmost match, which raises ValueError for
   * more than `IntMaxStrDigits` digits.
   */
  function ParseTotalPages(html: string): (r: Result<Option<nat>, IntError>)
    ensures r == Ok(None) <==> FirstMatch(html).None?
    ensures r != Ok(None) ==>
              exists i :: && 0 <= i < |html| && MatchHere(html, i).Some?
                          && r == Opt(IntOfDigits(MatchHere(html, i).value))
                          && forall j :: 0 <= j < i ==> MatchHere(html, j).None?
  {
    match FirstMatch(html)
    case None => Ok(None)
    case Some(digits) => Opt(IntOfDigits(digits))
  }

  /** A value carried as present: `Ok(n)` becomes `Ok(Some(n))`; an error is passed through. */
  function Opt<E>(r: Result<nat, E>): Result<Option<nat>, E> {
    match r
    case Ok(n) => Ok(Some(n))
    case Err(e) => Err(e)
  }

  lemma {:induction false} FirstHitExact<T>(hit: nat -> Option<T>, i: nat, n: nat)
    requires i <= n
    ensures FirstHit(hit, i, n).None? <==> forall j :: i <= j < n ==> hit(j).None?
    ensures FirstHit(hit, i, n).Some? ==>
              exists j :: i <= j < n && FirstHit(hit, i, n) == hit(j) && forall m :: i <= m < j ==> hit(m).None?
    decreases n - i
  {
    if i < n && hit(i).None? {
      FirstHitExact(hit, i + 1, n);
    }
  }

  /** There is no count exactly when the pattern matches nowhere. */
  lemma ParseTotalPagesNone(html: string)
    ensures ParseTotalPages(html) == Ok(None) <==> forall i, a, b, c :: !MatchesAt(html, i, a, b, c)
  {
    var hit := MatchesIn(html);
    FirstHitExact(hit, 0, |html|);
    forall i: nat, a, b, c ensures MatchesAt(html, i, a, b, c) ==> hit(i).Some? && i < |html| {
      if i < |html| {
        MatchHereExact(html, i);
      }
    }
    if FirstMatch(html).Some? {
      var i :| 0 <= i < |html| && hit(i).Some?;
      MatchHereExact(html, i);
    }
  }

  /**
   * Otherwise the result is `int()` of the digits of the leftmost match: their
   * value when there are at most `IntMaxStrDigits` of them, ValueError beyond.
   */
  lemma ParseTotalPagesLeftmost(html: string)
    requires ParseTotalPages(html) != Ok(None)
    ensures exists i, a, b, c :: && MatchesAt(html, i, a, b, c)
                                 && (b - a <= IntMaxStrDigits ==> ParseTotalPages(html) == Ok(Some(DecimalValue(html[a..b]))))
                                 && (b - a > IntMaxStrDigits ==> ParseTotalPages(html) == Err(TooManyDigits(b - a)))
                                 && forall j, a', b', c' :: 0 <= j < i ==> !MatchesAt(html, j, a', b', c')
  {
    var m := FirstMatch(html);
    var i :| 0 <= i < |html| && MatchHere(html, i) == m && forall j :: 0 <= j < i ==> MatchHere(html, j).None?;
    MatchHereExact(html, i);
    var a, b, c :| MatchesAt(html, i, a, b, c);
    forall j, a', b', c' | 0 <= j < i ensures !MatchesAt(html, j, a', b', c') {
      MatchHereExact(html, j);
    }
  }

  /** The count as it appears on the dictionary's first page. */
  lemma PageCountExample()
    ensures ParseTotalPages("全 84 ページ") == Ok(Some(84))
  {
    var s := "全 84 ページ";
    assert s[2..4] == "84" && s[1..2] == " " && s[4..5] == " " && s[5..8] == PageWord;
    assert MatchesAt(s, 0, 2, 4, 5);
    MatchHereExact(s, 0);
    assert MatchesIn(s)(0) == Some("84");
    assert FirstMatch(s) == Some("84");
    assert DecimalValue("84") == 84;
  }

  /** `n` copies of the digit 1. */
  function Ones(n: nat): (r: string)
    ensures |r| == n && AllDigits(r)
  {
    if n == 0 then [] else Ones(n - 1) + ['1']
  }

  /**
   * A page stating more than `IntMaxStrDigits` digits, as in
   * "全" followed by 4301 ones and "ページ", makes `parse_total_pages` raise
   * ValueError and leaves the crawl without a page count.
   */
  lemma LongCountRaises(n: nat)
    requires n > IntMaxStrDigits
    ensures ParseTotalPages("全" + Ones(n) + PageWord) == Err(TooManyDigits(n))
    ensures TotalPages("全" + Ones(n) + PageWord) == Err(TotalPagesUnbound)
  {
    var s := "全" + Ones(n) + PageWord;
    assert s[1..1 + n] == Ones(n);
    assert s[1..1] == [] && s[1 + n..1 + n] == [];
    assert s[1 + n..1 + n + |PageWord|] == PageWord;
    assert MatchesAt(s, 0, 1, 1 + n, 1 + n);
    MatchHereExact(s, 0);
    FirstHitExact(MatchesIn(s), 0, |s|);
    assert MatchesIn(s)(0).Some?;
    ParseTotalPagesLeftmost(s);
    var i, a, b, c :| && MatchesAt(s, i, a, b, c)
                      && (b - a <= IntMaxStrDigits ==> ParseTotalPages(s) == Ok(Some(DecimalValue(s[a..b]))))
                      && (b - a > IntMaxStrDigits ==> ParseTotalPages(s) == Err(TooManyDigits(b - a)))
                      && forall j, a', b', c' :: 0 <= j < i ==> !MatchesAt(s, j, a', b', c');
    assert i == 0;
    GreedyRuns(s, 0, 1, 1 + n, 1 + n);
    GreedyRuns(s, 0, a, b, c);
  }

  /**
   * `total_pages = parse_total_pages(html1) or MAX_PAGE`: a missing count and
   * a count of 0 (both false in Python) fall back to `MAX_PAGE`, so the crawl
   * plans at least one page. A ValueError leaves `total_pages` unassigned; the
   * handler around the first page catches it, and the crawl loop then stops
   * `main` with an UnboundLocalError.
   */
  function TotalPages(html: string): (r: Result<nat, CrawlError>)
    ensures r.Err? <==> ParseTotalPages(html).Err?
    ensures r.Ok? ==> r.value >= 1
    ensures ParseTotalPages(html).Ok? && ParseTotalPages(html).value.Some? && ParseTotalPages(html).value.value != 0 ==>
              r == Ok(ParseTotalPages(html).value.value)
    ensures ParseTotalPages(html) == Ok(None) || ParseTotalPages(html) == Ok(Some(0)) ==> r == Ok(MaxPage)
  {
    match ParseTotalPages(html)
    case Ok(Some(n)) => if n != 0 then Ok(n) else Ok(MaxPage)
    case Ok(None) => Ok(MaxPage)
    case Err(_) => Err(TotalPagesUnbound)
  }

  /** A stated count of zero is not believed: the crawl plans `MAX_PAGE` pages. */
  lemma ZeroCountFallsBack()
    ensures TotalPages("全0ページ") == Ok(MaxPage)
  {
    var s := "全0ページ";
    assert s[1..2] == "0" && s[2..5] == PageWord;
    assert MatchesAt(s, 0, 1, 2, 2);
    MatchHereExact(s, 0);
    assert MatchesIn(s)(0) == Some("0");
    assert FirstMatch(s) == Some("0");
    assert DecimalValue("0") == 0;
  }
}
