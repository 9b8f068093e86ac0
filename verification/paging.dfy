/**
 * The list endpoints' query handling: `page`, `limit` and `search` query
 * parameters with their defaults, the search filter, and gorm's
 * `Offset((page-1)*limit).Limit(limit)` window.
 */
module Paging {
  import opened Wrappers
  import opened Tables
  import opened Text

  /** The query string. A present `page`/`limit` holds what `strconv.Atoi`
      returned for it (0 when the text was not a number). */
  datatype ListQuery = ListQuery(page: Option<int>, limit: Option<int>, search: Option<string>)

  const DefaultPage: int := 1
  const DefaultLimit: int := 10

  /** `c.DefaultQuery("page", "1")` after `strconv.Atoi`. */
  function PageOf(q: ListQuery): (page: int)
    ensures q.page.None? ==> page == DefaultPage
    ensures q.page.Some? ==> page == q.page.value
  {
    if q.page.Some? then q.page.value else DefaultPage
  }

  /** `c.DefaultQuery("limit", "10")` after `strconv.Atoi`. */
  function LimitOf(q: ListQuery): (limit: int)
    ensures q.limit.None? ==> limit == DefaultLimit
    ensures q.limit.Some? ==> limit == q.limit.value
  {
    if q.limit.Some? then q.limit.value else DefaultLimit
  }

  /** The search text, lower-cased; no parameter is the empty search. */
  function SearchOf(q: ListQuery): (search: string)
    ensures IsLower(search)
    ensures q.search.None? ==> search == ""
    ensures q.search.Some? ==> |search| == |q.search.value|
    ensures q.search.Some? && IsLower(q.search.value) ==> search == q.search.value
  {
    ToLowerFixesExactlyLower(if q.search.Some? then q.search.value else "");
    ToLower(if q.search.Some? then q.search.value else "")
  }

  /** `(pageNum - 1) * limitNum`: the first page starts at the beginning, and
      each further page starts one limit later. */
  function OffsetOf(q: ListQuery): (offset: int)
    ensures PageOf(q) == 1 ==> offset == 0
    ensures PageOf(q) >= 1 && LimitOf(q) >= 0 ==> offset >= 0
  {
    (PageOf(q) - 1) * LimitOf(q)
  }

  /** Asking for the next page moves the offset forward by exactly one limit. */
  lemma NextPageOffset(q: ListQuery)
    ensures OffsetOf(q.(page := Some(PageOf(q) + 1))) == OffsetOf(q) + LimitOf(q)
  {
    var p := PageOf(q);
    var l := LimitOf(q);
    assert PageOf(q.(page := Some(p + 1))) == p + 1;
    assert LimitOf(q.(page := Some(p + 1))) == l;
    assert (p + 1 - 1) * l == (p - 1) * l + l by {
      assert (p + 1 - 1) * l == p * l;
      assert (p - 1) * l == p * l - l;
    }
  }

  /** Where the window starts: gorm emits OFFSET only for a positive value. */
  function Skipped(offset: int, n: nat): (k: nat)
    ensures k <= n
    ensures offset <= 0 ==> k == 0
    ensures 0 < offset <= n ==> k == offset
    ensures offset > n ==> k == n
  {
    if offset <= 0 then 0 else if offset < n then offset else n
  }

  /** `Offset(offset).Limit(limit)`: a run of consecutive items starting at the
      (clamped) offset, at most `limit` long; a negative limit emits no LIMIT. */
  function Window<T>(s: seq<T>, offset: int, limit: int): (r: seq<T>)
    ensures Skipped(offset, |s|) + |r| <= |s|
    ensures r == s[Skipped(offset, |s|)..Skipped(offset, |s|) + |r|]
    ensures limit >= 0 ==> |r| == if limit < |s| - Skipped(offset, |s|) then limit else |s| - Skipped(offset, |s|)
    ensures limit < 0 ==> |r| == |s| - Skipped(offset, |s|)
  {
    var rest := s[Skipped(offset, |s|)..];
    if 0 <= limit < |rest| then rest[..limit] else rest
  }

  /** Consecutive pages of the same size are adjacent runs: page k followed by
      page k+1 is the double-size page starting where page k starts. */
  lemma {:induction false} PagesAdjacent<T>(s: seq<T>, k: nat, size: nat)
    ensures Window(s, k * size, size) + Window(s, (k + 1) * size, size) == Window(s, k * size, 2 * size)
  {
    var a := Skipped(k * size, |s|);
    var b := Skipped((k + 1) * size, |s|);
    var w1 := Window(s, k * size, size);
    var w2 := Window(s, (k + 1) * size, size);
    var w := Window(s, k * size, 2 * size);
    assert (k + 1) * size == k * size + size;
    assert b == a + |w1|;
    assert w1 + w2 == s[a..a + |w1| + |w2|];
  }

  /** Every matcher accepts everything when the search text is empty, as
      `ILIKE '%%'` does. */
  ghost predicate EmptySearchMatchesAll<T>(es: seq<Entry<T>>, matcher: string -> (Entry<T> -> bool)) {
    forall e :: e in es ==> matcher("")(e)
  }

  /** A list request: the rows matching the search (all rows when it is
      empty), how many there are, and the requested page of them. */
  function Select<T>(es: seq<Entry<T>>, q: ListQuery, matcher: string -> (Entry<T> -> bool))
    : (r: (seq<Entry<T>>, nat))
    requires EmptySearchMatchesAll(es, matcher)
    ensures r.1 == |Filter(es, matcher(SearchOf(q)))|
    ensures r.0 == Window(Filter(es, matcher(SearchOf(q))), OffsetOf(q), LimitOf(q))
    ensures forall e :: e in r.0 ==> e in es && matcher(SearchOf(q))(e)
    ensures LimitOf(q) >= 0 ==> |r.0| <= LimitOf(q)
  {
    var search := SearchOf(q);
    var matches := if search != "" then Filter(es, matcher(search)) else es;
    assert matches == Filter(es, matcher(search)) by {
      if search == "" {
        FilterAll(es, matcher(search));
      }
    }
    var page := Window(matches, OffsetOf(q), LimitOf(q));
    assert forall e :: e in page ==> e in matches;
    (page, |matches|)
  }

  /** The count ignores paging: two requests with the same search report the
      same count whatever their page and limit. */
  lemma CountIgnoresPaging<T>(es: seq<Entry<T>>, q1: ListQuery, q2: ListQuery, matcher: string -> (Entry<T> -> bool))
    requires EmptySearchMatchesAll(es, matcher)
    requires q1.search == q2.search
    ensures Select(es, q1, matcher).1 == Select(es, q2, matcher).1
  {
  }

  /** With no query parameters the first ten matches are returned. */
  lemma DefaultsGiveFirstTen<T>(es: seq<Entry<T>>, matcher: string -> (Entry<T> -> bool))
    requires EmptySearchMatchesAll(es, matcher)
    ensures Select(es, ListQuery(None, None, None), matcher).0 ==
            if |es| <= 10 then es else es[..10]
  {
    var q := ListQuery(None, None, None);
    assert SearchOf(q) == "" && OffsetOf(q) == 0 && LimitOf(q) == DefaultLimit;
    FilterAll(es, matcher(""));
    assert Filter(es, matcher(SearchOf(q))) == es;
    assert Select(es, q, matcher).0 == Window(es, 0, DefaultLimit);
  }
}
