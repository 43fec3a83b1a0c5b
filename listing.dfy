/**
 * The query the `GET /address` handler builds and the store's answer to it:
 * the limit clamp, the prefix search, the cursor seek predicate, and Find,
 * which selects, orders and cuts the page.
 */
module Listing {
  import opened Results
  import opened Text
  import opened Records

  /** The position a continuation token points at: the last record of the previous page. */
  datatype Cursor =
    | IdCursor(id: int)
    | NameCursor(column: Column, id: int, name: string)

  /**
   * The query under construction: at most `limit` rows (none: unlimited),
   * filtered by the prefix search, in the given order, strictly after `seek`.
   */
  datatype Query = Query(limit: Option<nat>, search: Option<string>, order: SortKey, seek: Option<Cursor>)

  /** A fresh query: no limit, no filter, primary-key order, no cursor. */
  const AllRows: Query := Query(None, None, ById, None)

  /**
   * The page size actually used: 20 when none is requested or the request is
   * not positive, 100 when the request exceeds 100, the request otherwise.
   */
  function EffectiveLimit(limit: Option<int>): (n: nat)
    ensures 1 <= n <= 100
    ensures limit.Some? && 1 <= limit.value <= 100 ==> n == limit.value
    ensures limit.Some? && limit.value > 100 ==> n == 100
    ensures (limit.None? || limit.value <= 0) ==> n == 20
  {
    match limit
    case None => 20
    case Some(l) => if l > 100 then 100 else if l <= 0 then 20 else l
  }

  /**
   * `first_name LIKE search || '%' OR last_name LIKE search || '%'`, as an
   * exact prefix test: the empty search matches every record, and a matched
   * record has a name at least as long as the search.
   */
  predicate Matches(search: Option<string>, a: Address)
    ensures search == Some("") ==> Matches(search, a)
    ensures Matches(search, a) && search.Some? ==> |search.value| <= |a.firstName| || |search.value| <= |a.lastName|
  {
    match search
    case None => true
    case Some(p) => p <= a.firstName || p <= a.lastName
  }

  /**
   * The seek clause: `id > prev_id` under id order, and
   * `(id > prev_id AND <column> = prev_name) OR <column> > prev_name` under a
   * name order, where a record with the cursor's name passes only with a
   * larger id.
   */
  predicate After(c: Cursor, a: Address)
    ensures c.NameCursor? && Field(c.column, a) == c.name ==> (After(c, a) <==> a.id > c.id)
  {
    match c
    case IdCursor(id) => a.id > id
    case NameCursor(column, id, name) =>
      LessIrreflexive(name);
      (a.id > id && Field(column, a) == name) || Less(name, Field(column, a))
  }

  /** The cursor that names record a's position in the order key. */
  function CursorAt(key: SortKey, a: Address): Cursor {
    match key
    case ById => IdCursor(a.id)
    case ByName(c) => NameCursor(c, a.id, Field(c, a))
  }

  /**
   * The seek predicate is exactly "strictly after" in the listing order: a
   * record passes the cursor taken from b iff it comes after b.
   */
  lemma AfterCursorAt(key: SortKey, b: Address, a: Address)
    ensures After(CursorAt(key, b), a) <==> Before(key, b, a)
  {
  }

  /** Whether a row passes the query's WHERE clauses. */
  predicate Keep(search: Option<string>, seek: Option<Cursor>, a: Address) {
    Matches(search, a) && (seek.None? || After(seek.value, a))
  }

  /** The rows that pass the WHERE clauses, in their original order. */
  function Select(search: Option<string>, seek: Option<Cursor>, rows: seq<Address>): (r: seq<Address>)
    ensures |r| <= |rows|
    ensures forall a :: a in r <==> a in rows && Keep(search, seek, a)
  {
    if rows == [] then []
    else (if Keep(search, seek, rows[0]) then [rows[0]] else []) + Select(search, seek, rows[1..])
  }

  /** `LIMIT n`: the first n rows, or all of them when there are fewer or no limit. */
  function Take(rows: seq<Address>, limit: Option<nat>): (r: seq<Address>)
    ensures r <= rows
    ensures limit.Some? ==> |r| == if limit.value < |rows| then limit.value else |rows|
    ensures limit.None? ==> r == rows
  {
    match limit
    case None => rows
    case Some(n) => if n < |rows| then rows[..n] else rows
  }

  /**
   * The store's answer to the query q over the table rows: `ORDER BY`, then
   * the WHERE clauses, then `LIMIT`. It never returns more rows than the
   * table or the limit holds.
   */
  function Find(q: Query, rows: seq<Address>): (r: seq<Address>)
    ensures |r| <= |rows|
    ensures q.limit.Some? ==> |r| <= q.limit.value
  {
    var ordered := Ordered(q.order, rows);
    assert |ordered| == |rows| by {
      assert |multiset(ordered)| == |multiset(rows)|;
    }
    Take(Select(q.search, q.seek, ordered), q.limit)
  }

  // ---------------------------------------------------------------------------
  // Properties of a page
  // ---------------------------------------------------------------------------

  /** Filtering keeps a sorted sequence sorted. */
  lemma {:induction false} SelectSorted(key: SortKey, search: Option<string>, seek: Option<Cursor>, rows: seq<Address>)
    requires Sorted(key, rows)
    ensures Sorted(key, Select(search, seek, rows))
    decreases |rows|
  {
    if rows != [] {
      var tail := Select(search, seek, rows[1..]);
      SelectSorted(key, search, seek, rows[1..]);
      if Keep(search, seek, rows[0]) {
        var r := [rows[0]] + tail;
        forall i, j | 0 <= i < j < |r| ensures Before(key, r[i], r[j]) {
          if i == 0 {
            assert r[j] == tail[j - 1] && r[j] in rows[1..];
            var k :| 0 <= k < |rows[1..]| && rows[1..][k] == r[j];
            assert rows[k + 1] == r[j];
          } else {
            assert r[i] == tail[i - 1] && r[j] == tail[j - 1];
          }
        }
      }
    }
  }

  /**
   * A page of the listing: at most the limit, every record from the table,
   * matching the search and after the cursor, strictly sorted when the table
   * has distinct ids, and a prefix of everything the query selects.
   */
  lemma FindPage(q: Query, rows: seq<Address>)
    ensures q.limit.Some? ==> |Find(q, rows)| <= q.limit.value
    ensures Find(q, rows) <= Select(q.search, q.seek, Ordered(q.order, rows))
    ensures forall a :: a in Find(q, rows) ==> a in rows && Keep(q.search, q.seek, a)
    ensures DistinctIds(rows) ==> Sorted(q.order, Find(q, rows))
  {
    var all := Select(q.search, q.seek, Ordered(q.order, rows));
    forall a | a in Find(q, rows) ensures a in rows && Keep(q.search, q.seek, a) {
      assert a in all;
      assert a in multiset(Ordered(q.order, rows));
    }
    if DistinctIds(rows) {
      OrderedSorted(q.order, rows);
      SelectSorted(q.order, q.search, q.seek, Ordered(q.order, rows));
    }
  }

  /** A seek every row passes leaves the selection as the search alone makes it. */
  lemma {:induction false} SelectAllAfter(search: Option<string>, c: Cursor, rows: seq<Address>)
    requires forall a :: a in rows ==> After(c, a)
    ensures Select(search, Some(c), rows) == Select(search, None, rows)
    decreases |rows|
  {
    if rows != [] {
      SelectAllAfter(search, c, rows[1..]);
    }
  }

  /** In a sorted sequence the head is never after the cursor of a later record. */
  lemma HeadNotAfterLater(key: SortKey, rows: seq<Address>, b: Address)
    requires Sorted(key, rows) && |rows| > 0 && b in rows[1..]
    ensures !After(CursorAt(key, b), rows[0])
  {
    var k :| 0 <= k < |rows[1..]| && rows[1..][k] == b;
    assert rows[k + 1] == b;
    AfterCursorAt(key, b, rows[0]);
    BeforeAsymmetric(key, rows[0], b);
  }

  /** In a sorted sequence every record after the head is after the head's cursor. */
  lemma RestAfterHead(key: SortKey, rows: seq<Address>)
    requires Sorted(key, rows) && |rows| > 0
    ensures forall a :: a in rows[1..] ==> After(CursorAt(key, rows[0]), a)
  {
    forall a | a in rows[1..] ensures After(CursorAt(key, rows[0]), a) {
      var k :| 0 <= k < |rows[1..]| && rows[1..][k] == a;
      assert rows[k + 1] == a;
      AfterCursorAt(key, rows[0], a);
    }
  }

  /**
   * Resuming after the j-th record of a sorted selection: seeking past the
   * cursor of that record yields exactly the records that follow it, each
   * once, none skipped.
   */
  lemma {:induction false} SelectResumes(key: SortKey, search: Option<string>, rows: seq<Address>, j: nat)
    requires Sorted(key, rows)
    requires j < |Select(search, None, rows)|
    ensures Select(search, Some(CursorAt(key, Select(search, None, rows)[j])), rows)
         == Select(search, None, rows)[j + 1..]
    decreases |rows|
  {
    var all := Select(search, None, rows);
    var tail := Select(search, None, rows[1..]);
    var b := all[j];
    var c := CursorAt(key, b);
    assert all == (if Keep(search, None, rows[0]) then [rows[0]] else []) + tail;
    assert Sorted(key, rows[1..]);
    if Keep(search, None, rows[0]) && j == 0 {
      assert b == rows[0];
      AfterCursorAt(key, b, b);
      BeforeIrreflexive(key, b);
      RestAfterHead(key, rows);
      SelectAllAfter(search, c, rows[1..]);
      assert all[j + 1..] == tail;
    } else {
      var i := if Keep(search, None, rows[0]) then j - 1 else j;
      assert b == tail[i] && all[j + 1..] == tail[i + 1..];
      assert b in rows[1..] by { assert b in tail; }
      HeadNotAfterLater(key, rows, b);
      assert Select(search, Some(c), rows) == Select(search, Some(c), rows[1..]);
      SelectResumes(key, search, rows[1..], i);
    }
  }

  /**
   * After the first k records of a sorted selection, the seek that follows
   * them (none at the start, the cursor of the k-th record otherwise)
   * selects exactly the rest.
   */
  lemma ResumeAt(key: SortKey, search: Option<string>, rows: seq<Address>, k: nat, seek: Option<Cursor>)
    requires Sorted(key, rows)
    requires k <= |Select(search, None, rows)|
    requires k == 0 ==> seek == None
    requires k > 0 ==> seek == Some(CursorAt(key, Select(search, None, rows)[k - 1]))
    ensures Select(search, seek, rows) == Select(search, None, rows)[k..]
  {
    if k > 0 {
      SelectResumes(key, search, rows, k - 1);
    }
  }

  /**
   * What a listing with no cursor selects from a table with distinct ids:
   * every row matching the search, each once, strictly sorted; with no
   * search, in the table's own order when that is already the listing order.
   */
  lemma SelectionOfTable(key: SortKey, search: Option<string>, table: seq<Address>)
    requires DistinctIds(table)
    ensures Sorted(key, Select(search, None, Ordered(key, table)))
    ensures forall a :: a in Select(search, None, Ordered(key, table)) <==> a in table && Matches(search, a)
    ensures search.None? && Sorted(key, table) ==> Select(search, None, Ordered(key, table)) == table
  {
    OrderedSorted(key, table);
    SelectSorted(key, search, None, Ordered(key, table));
    forall a ensures a in Ordered(key, table) <==> a in table {
      assert a in Ordered(key, table) <==> a in multiset(table);
    }
    if search.None? && Sorted(key, table) {
      SelectEverything(Ordered(key, table));
      OrderedOfSorted(key, table);
    }
  }

  /** With no filter and no seek every row is selected. */
  lemma {:induction false} SelectEverything(rows: seq<Address>)
    ensures Select(None, None, rows) == rows
    decreases |rows|
  {
    if rows != [] {
      SelectEverything(rows[1..]);
    }
  }
}
