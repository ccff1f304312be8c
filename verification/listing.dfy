/**
 * The list query every controller's `index` builds: an optional
 * case-insensitive substring search OR-ed across the entity's search
 * columns, newest `updated_at` first, then the framework's page slice.
 */
module Listing {
  import opened Text
  import opened Values

  /** A stored row: its key, its columns and its timestamps. */
  datatype Record = Record(id: int, fields: map<string, Value>, createdAt: int, updatedAt: int)

  /** `<field> ILIKE '%term%'`; a null or non-text column never matches. */
  predicate FieldContains(r: Record, field: string, term: string) {
    field in r.fields && r.fields[field].Text? && ContainsIgnoringCase(r.fields[field].s, term)
  }

  /** The search condition: some search column contains the term. */
  predicate Matches(r: Record, searchFields: seq<string>, term: string) {
    exists i | 0 <= i < |searchFields| :: FieldContains(r, searchFields[i], term)
  }

  /** With one search column, matching is containment in that column. */
  lemma MatchesOne(r: Record, a: string, term: string)
    ensures Matches(r, [a], term) <==> FieldContains(r, a, term)
  {
    if FieldContains(r, a, term) {
      assert FieldContains(r, [a][0], term);
    }
  }

  /** With two search columns, matching is containment in either. */
  lemma MatchesTwo(r: Record, a: string, b: string, term: string)
    ensures Matches(r, [a, b], term) <==> FieldContains(r, a, term) || FieldContains(r, b, term)
  {
    if FieldContains(r, a, term) {
      assert FieldContains(r, [a, b][0], term);
    }
    if FieldContains(r, b, term) {
      assert FieldContains(r, [a, b][1], term);
    }
  }

  /** The rows that match, in their original order. */
  function Filter(rows: seq<Record>, searchFields: seq<string>, term: string): (out: seq<Record>)
    ensures forall x :: x in out <==> x in rows && Matches(x, searchFields, term)
    ensures |out| <= |rows|
  {
    if rows == [] then []
    else
      var rest := Filter(rows[1..], searchFields, term);
      assert forall x :: x in rows <==> x == rows[0] || x in rows[1..];
      if Matches(rows[0], searchFields, term) then [rows[0]] + rest else rest
  }

  /** Filtering keeps each matching row as often as it occurs, and no other row. */
  lemma {:induction false} FilterCounts(rows: seq<Record>, searchFields: seq<string>, term: string)
    ensures forall x ::
      multiset(Filter(rows, searchFields, term))[x] == if Matches(x, searchFields, term) then multiset(rows)[x] else 0
  {
    if rows != [] {
      FilterCounts(rows[1..], searchFields, term);
      assert rows == [rows[0]] + rows[1..];
      assert multiset(rows) == multiset{rows[0]} + multiset(rows[1..]);
    }
  }

  /** `orderByDesc('updated_at')`. */
  predicate NewestFirst(s: seq<Record>) {
    forall i, j :: 0 <= i < j < |s| ==> s[i].updatedAt >= s[j].updatedAt
  }

  /** A row at least as new as the head of a newest-first list can go in front. */
  lemma ConsNewestFirst(a: Record, rest: seq<Record>)
    requires NewestFirst(rest) && (rest == [] || a.updatedAt >= rest[0].updatedAt)
    ensures NewestFirst([a] + rest)
  {
    var r := [a] + rest;
    assert forall j :: 1 <= j < |r| ==> r[j] == rest[j - 1];
    assert forall j :: 0 <= j < |rest| ==> rest[0].updatedAt >= rest[j].updatedAt;
  }

  /** Places `x` before the first row that is not newer than it. */
  function InsertNewestFirst(x: Record, s: seq<Record>): (r: seq<Record>)
    requires NewestFirst(s)
    ensures NewestFirst(r)
    ensures r != [] && (r[0] == x || (s != [] && r[0] == s[0]))
    decreases |s|
  {
    if s == [] || x.updatedAt >= s[0].updatedAt then
      ConsNewestFirst(x, s);
      [x] + s
    else
      var tail := s[1..];
      assert NewestFirst(tail) by {
        assert forall i :: 0 <= i < |tail| ==> tail[i] == s[i + 1];
      }
      var rest := InsertNewestFirst(x, tail);
      assert tail != [] ==> s[0].updatedAt >= tail[0].updatedAt by {
        if tail != [] { assert tail[0] == s[1]; }
      }
      ConsNewestFirst(s[0], rest);
      [s[0]] + rest
  }

  /** Inserting adds exactly one row. */
  lemma {:induction false} InsertAddsOne(x: Record, s: seq<Record>)
    requires NewestFirst(s)
    ensures multiset(InsertNewestFirst(x, s)) == multiset(s) + multiset{x}
    decreases |s|
  {
    if s != [] && x.updatedAt < s[0].updatedAt {
      var tail := s[1..];
      InsertAddsOne(x, tail);
      assert s == [s[0]] + tail;
    }
  }

  /** A stable sort, newest first: rows with equal timestamps keep their order. */
  function SortNewestFirst(s: seq<Record>): (r: seq<Record>)
    ensures NewestFirst(r)
    ensures multiset(r) == multiset(s)
  {
    if s == [] then []
    else
      assert s == [s[0]] + s[1..];
      InsertAddsOne(s[0], SortNewestFirst(s[1..]));
      InsertNewestFirst(s[0], SortNewestFirst(s[1..]))
  }

  /** The rows stamped `k`, in order. */
  function StampedAt(s: seq<Record>, k: int): seq<Record> {
    if s == [] then []
    else (if s[0].updatedAt == k then [s[0]] else []) + StampedAt(s[1..], k)
  }

  lemma {:induction false} InsertKeepsTies(x: Record, s: seq<Record>, k: int)
    requires NewestFirst(s)
    ensures StampedAt(InsertNewestFirst(x, s), k)
      == (if x.updatedAt == k then [x] else []) + StampedAt(s, k)
    decreases |s|
  {
    if s == [] || x.updatedAt >= s[0].updatedAt {
      assert ([x] + s)[1..] == s;
    } else {
      var rest := InsertNewestFirst(x, s[1..]);
      InsertKeepsTies(x, s[1..], k);
      assert ([s[0]] + rest)[1..] == rest;
    }
  }

  /** Stability: sorting never reorders rows that share a timestamp. */
  lemma {:induction false} SortKeepsTies(s: seq<Record>, k: int)
    ensures StampedAt(SortNewestFirst(s), k) == StampedAt(s, k)
    decreases |s|
  {
    if s != [] {
      SortKeepsTies(s[1..], k);
      InsertKeepsTies(s[0], SortNewestFirst(s[1..]), k);
    }
  }

  /** The query string parameters of `GET /<entity>`. */
  datatype ListRequest = ListRequest(page: Option<string>, perPage: Option<string>, search: Option<string>)

  const DefaultPage: int := 1
  const DefaultPerPage: int := 10

  /** `(int) $request->query(<name>, <default>)`. */
  function QueryInt(q: Option<string>, default: int): int {
    match q
    case None => default
    case Some(s) => PhpIntCast(s)
  }

  /** What `index` hands to `paginate`: the ordered rows and the requested page. */
  datatype ListQuery = ListQuery(rows: seq<Record>, page: int, perPage: int)

  /** `index`: search when the term is truthy, then newest first. */
  function Index(table: seq<Record>, searchFields: seq<string>, req: ListRequest): (q: ListQuery)
    ensures req.page.None? ==> q.page == DefaultPage
    ensures req.perPage.None? ==> q.perPage == DefaultPerPage
    ensures req.page.Some? ==> q.page == PhpIntCast(req.page.value)
    ensures req.perPage.Some? ==> q.perPage == PhpIntCast(req.perPage.value)
    // a truthy term keeps exactly the matching rows; otherwise every row is listed
    ensures forall x :: x in q.rows <==>
      x in table && (Truthy(req.search) ==> Matches(x, searchFields, req.search.value))
    ensures !Truthy(req.search) ==> multiset(q.rows) == multiset(table)
    ensures Truthy(req.search) ==>
      forall x :: multiset(q.rows)[x] == if Matches(x, searchFields, req.search.value) then multiset(table)[x] else 0
    ensures NewestFirst(q.rows)
    ensures |q.rows| <= |table|
  {
    var kept := if Truthy(req.search) then Filter(table, searchFields, req.search.value) else table;
    var rows := SortNewestFirst(kept);
    FilterCounts(table, searchFields, if req.search.Some? then req.search.value else "");
    assert forall x :: x in rows <==> x in multiset(kept);
    assert |rows| == |multiset(kept)|;
    ListQuery(rows, QueryInt(req.page, DefaultPage), QueryInt(req.perPage, DefaultPerPage))
  }

  function Min(a: int, b: int): int {
    if a <= b then a else b
  }

  /** The number of rows before page `page`, that is (page - 1) * perPage. */
  function Offset(page: int, perPage: nat): nat
    decreases page
  {
    if page <= 1 then 0 else Offset(page - 1, perPage) + perPage
  }

  lemma {:induction false} OffsetIsProduct(page: int, perPage: nat)
    requires page >= 1
    ensures Offset(page, perPage) == (page - 1) * perPage
    decreases page
  {
    if page > 1 {
      OffsetIsProduct(page - 1, perPage);
    }
  }

  lemma {:induction false} OffsetMonotone(a: int, b: int, perPage: nat)
    requires 1 <= a <= b
    ensures Offset(a, perPage) <= Offset(b, perPage)
    decreases b
  {
    if a < b {
      OffsetMonotone(a, b - 1, perPage);
    }
  }

  /** `max(ceil(total / perPage), 1)`: the pages needed to hold `total` rows. */
  function LastPage(total: nat, perPage: int): (n: int)
    requires perPage >= 1
    ensures n >= 1
    ensures total > 0 ==> Offset(n, perPage) < total <= Offset(n + 1, perPage)
    ensures total == 0 ==> n == 1
    decreases total
  {
    if total <= perPage then 1 else 1 + LastPage(total - perPage, perPage)
  }

  /** The framework's length-aware page. */
  datatype Page = Page(data: seq<Record>, total: nat, perPage: int, currentPage: int, lastPage: int)

  /** Where page `page` starts and ends relative to the row count. */
  lemma PageOffsets(total: nat, page: int, perPage: int)
    requires page >= 1 && perPage >= 1
    ensures Offset(page, perPage) >= 0
    ensures Offset(page + 1, perPage) == Offset(page, perPage) + perPage
    ensures page > LastPage(total, perPage) ==> Offset(page, perPage) >= total
    ensures page < LastPage(total, perPage) ==> Offset(page + 1, perPage) < total
  {
    var last := LastPage(total, perPage);
    OffsetMonotone(1, page, perPage);
    if page > last {
      OffsetMonotone(last + 1, page, perPage);
    }
    if page < last {
      OffsetMonotone(page + 1, last, perPage);
    }
  }

  /** Page `page` of `rows`, `perPage` rows to a page. */
  function Paginate(rows: seq<Record>, page: int, perPage: int): (p: Page)
    requires page >= 1 && perPage >= 1
    ensures p.total == |rows| && p.currentPage == page && p.lastPage == LastPage(|rows|, perPage)
    ensures |p.data| <= perPage
    ensures p.data != [] ==> Offset(page, perPage) + |p.data| <= |rows|
    ensures forall i :: 0 <= i < |p.data| ==> p.data[i] == rows[Offset(page, perPage) + i]
    ensures page > p.lastPage ==> p.data == []
    ensures page < p.lastPage ==> |p.data| == perPage
  {
    PageOffsets(|rows|, page, perPage);
    var lo := Min(Offset(page, perPage), |rows|);
    var hi := Min(Offset(page + 1, perPage), |rows|);
    Page(rows[lo..hi], |rows|, perPage, page, LastPage(|rows|, perPage))
  }

  /** The first `k` pages laid end to end. */
  function FirstPages(rows: seq<Record>, perPage: int, k: nat): seq<Record>
    requires perPage >= 1
  {
    if k == 0 then [] else FirstPages(rows, perPage, k - 1) + Paginate(rows, k, perPage).data
  }

  lemma {:induction false} FirstPagesPrefix(rows: seq<Record>, perPage: int, k: nat)
    requires perPage >= 1
    ensures FirstPages(rows, perPage, k) == rows[..Min(Offset(k + 1, perPage), |rows|)]
  {
    if k > 0 {
      FirstPagesPrefix(rows, perPage, k - 1);
      PageOffsets(|rows|, k, perPage);
      var a := Min(Offset(k, perPage), |rows|);
      var b := Min(Offset(k + 1, perPage), |rows|);
      assert Paginate(rows, k, perPage).data == rows[a..b];
      assert rows[..a] + rows[a..b] == rows[..b];
    }
  }

  /** Walking every page from 1 to the last lists each row exactly once, in order. */
  lemma AllPagesListEveryRow(rows: seq<Record>, perPage: int)
    requires perPage >= 1
    ensures FirstPages(rows, perPage, LastPage(|rows|, perPage)) == rows
  {
    FirstPagesPrefix(rows, perPage, LastPage(|rows|, perPage));
  }
}
