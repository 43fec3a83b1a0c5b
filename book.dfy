/**
 * The address table and the four endpoints over it: the `GET /address`
 * listing handler, get by id, create and delete. The table is a map from id
 * to record with the next id to hand out; the listing reads it and never
 * changes it.
 */
module Book {
  import opened Results
  import opened Text
  import opened Records
  import opened Listing
  import opened Tokens

  /** The listing's query parameters, each of which may be absent. */
  datatype ListRequest = ListRequest(sort: Option<string>, search: Option<string>, last: Option<string>, limit: Option<int>)

  /** A successful listing: the page and the token for the next page, if any. */
  datatype Page = Page(addresses: seq<Address>, next: Option<string>)

  /** Why a create request was refused: a required name was missing or empty. */
  datatype CreateError = MissingRequiredField

  /** Every record is stored under its own id. */
  predicate WellKeyed(m: map<int, Address>) {
    forall k :: k in m ==> m[k].id == k
  }

  /** The stored records with an id below n, in primary-key order. */
  function IdOrder(m: map<int, Address>, n: nat): (rows: seq<Address>)
    requires WellKeyed(m)
    ensures Sorted(ById, rows) && DistinctIds(rows)
    ensures forall a :: a in rows <==> a.id < n && a.id in m && m[a.id] == a
    decreases n
  {
    if n == 0 then []
    else
      var prefix := IdOrder(m, n - 1);
      if n - 1 in m then prefix + [m[n - 1]] else prefix
  }

  /**
   * The query a well-formed request asks for: the effective limit, the
   * search, the selected order, and the cursor its `last` token decodes to.
   */
  function RequestedQuery(req: ListRequest): Query
    requires req.last.Some? ==> DecodeToken(SortFrom(req.sort), req.last.value).Success?
  {
    var key := SortFrom(req.sort);
    Query(Some(EffectiveLimit(req.limit)), req.search, key,
          if req.last.Some? then Some(DecodeToken(key, req.last.value).value) else None)
  }

  /**
   * The first half of the `GET /address` handler: builds the query step by
   * step (limit, search, order, cursor), refusing a malformed `last` token.
   */
  method BuildQuery(req: ListRequest) returns (r: Result<Query, ListError>)
    ensures r.Failure? <==> req.last.Some? && DecodeToken(SortFrom(req.sort), req.last.value).Failure?
    ensures r.Failure? ==> req.last.Some? && DecodeToken(SortFrom(req.sort), req.last.value) == Failure(r.error)
    ensures r.Success? ==> r.value == RequestedQuery(req)
  {
    var q := AllRows;
    // only 1 <= limit <= 100 is honoured; the default is 20
    if req.limit.Some? {
      if req.limit.value > 100 {
        q := q.(limit := Some(100));
      } else if req.limit.value <= 0 {
        q := q.(limit := Some(20));
      } else {
        q := q.(limit := Some(req.limit.value));
      }
    } else {
      q := q.(limit := Some(20));
    }

    if req.search.Some? {
      q := q.(search := req.search);
    }

    if req.sort == Some("first_name") || req.sort == Some("last_name") {
      var column := if req.sort == Some("first_name") then FirstName else LastName;
      q := q.(order := ByName(column));
      if req.last.Some? {
        // the token has the form ID__NAME
        var parts := Split(req.last.value);
        if |parts| < 2 {
          return Failure(InvalidLastKey(req.last.value));
        }
        var id := ParseInt(parts[0]);
        if id.None? {
          return Failure(NotAnInteger(parts[0]));
        }
        var name := Join(parts[1..]);
        q := q.(seek := Some(NameCursor(column, id.value, name)));
      }
    } else {
      q := q.(order := ById);
      if req.last.Some? {
        var id := ParseInt(req.last.value);
        if id.None? {
          return Failure(NotAnInteger(req.last.value));
        }
        q := q.(seek := Some(IdCursor(id.value)));
      }
    }
    r := Success(q);
  }

  /**
   * One step of the page walk: after the first k records of the whole
   * selection, the token of the k-th decodes, and the next query returns the
   * records that follow it, cut at the effective limit.
   */
  lemma WalkStep(table: seq<Address>, sort: Option<string>, search: Option<string>, limit: Option<int>,
                 last: Option<string>, k: nat)
    requires DistinctIds(table)
    requires k <= |Select(search, None, Ordered(SortFrom(sort), table))|
    requires last.None? <==> k == 0
    requires last.Some? ==> last.value == EncodeToken(SortFrom(sort), Select(search, None, Ordered(SortFrom(sort), table))[k - 1])
    ensures last.Some? ==> DecodeToken(SortFrom(sort), last.value).Success?
    ensures Find(RequestedQuery(ListRequest(sort, search, last, limit)), table)
         == Take(Select(search, None, Ordered(SortFrom(sort), table))[k..], Some(EffectiveLimit(limit)))
  {
    var key := SortFrom(sort);
    var rows := Ordered(key, table);
    var all := Select(search, None, rows);
    var req := ListRequest(sort, search, last, limit);
    OrderedSorted(key, table);
    var seek: Option<Cursor> := None;
    if last.Some? {
      TokenSeek(req, all[k - 1]);
      seek := Some(CursorAt(key, all[k - 1]));
    }
    assert RequestedQuery(req) == Query(Some(EffectiveLimit(limit)), search, key, seek);
    ResumeAt(key, search, rows, k, seek);
  }

  /**
   * A request carrying the token of record a is accepted, and its query
   * resumes right after a.
   */
  lemma TokenSeek(req: ListRequest, a: Address)
    requires req.last == Some(EncodeToken(SortFrom(req.sort), a))
    ensures DecodeToken(SortFrom(req.sort), req.last.value).Success?
    ensures RequestedQuery(req)
         == Query(Some(EffectiveLimit(req.limit)), req.search, SortFrom(req.sort), Some(CursorAt(SortFrom(req.sort), a)))
  {
    TokenRoundTrip(SortFrom(req.sort), a);
  }

  /**
   * One step of reading s page by page, from the prefix `read` to the prefix
   * `more`: at most `limit` records longer; a token naming the new last
   * record; and no token exactly when nothing was added because all of s had
   * been read.
   */
  ghost predicate Advances(key: SortKey, s: seq<Address>, read: seq<Address>, more: seq<Address>,
                           limit: nat, next: Option<string>)
  {
    && |more| <= |s| && more == s[..|more|]
    && |read| <= |more| <= |read| + limit
    && (next.Some? ==> |more| > |read| && next.value == EncodeToken(key, s[|more| - 1]))
    && (next.None? <==> |more| == |read| == |s|)
  }

  /**
   * `last` is the token a client holds after reading the prefix `read` of s:
   * none before the first page, then the token of the last record read.
   */
  ghost predicate HoldsToken(key: SortKey, s: seq<Address>, read: seq<Address>, last: Option<string>)
  {
    && |read| <= |s| && read == s[..|read|]
    && (last.None? <==> |read| == 0)
    && (last.Some? ==> last.value == EncodeToken(key, s[|read| - 1]))
  }

  /**
   * Reading s page by page: after a prefix `read`, a page cut at a positive
   * limit from the rest, with the token of its last record, advances the
   * reading to `read + page`.
   */
  lemma PageExtendsPrefix(key: SortKey, s: seq<Address>, read: seq<Address>, limit: nat,
                          page: seq<Address>, next: Option<string>)
    requires |read| <= |s| && read == s[..|read|] && limit >= 1
    requires page == Take(s[|read|..], Some(limit))
    requires next == NextToken(key, page)
    ensures Advances(key, s, read, read + page, limit, next)
  {
    var rest := s[|read|..];
    var more := read + page;
    assert page == rest[..|page|];
    assert more == s[..|more|] by {
      assert s[..|more|] == s[..|read|] + s[|read|..|more|];
      assert s[|read|..|more|] == rest[..|page|];
    }
    if |page| > 0 {
      assert next.value == EncodeToken(key, page[|page| - 1]);
      assert page[|page| - 1] == s[|more| - 1];
    }
    if next.None? {
      assert |rest| == 0;
    }
  }

  class AddressBook {
    var records: map<int, Address>
    var nextId: nat

    /** Ids are handed out from 1 upwards; every stored id is below the next one. */
    ghost predicate Valid()
      reads this
    {
      && nextId >= 1
      && WellKeyed(records)
      && forall k :: k in records ==> 1 <= k < nextId
    }

    constructor ()
      ensures Valid() && records == map[] && nextId == 1
    {
      records := map[];
      nextId := 1;
    }

    /** The whole table in primary-key order: each stored record once. */
    function Rows(): (rows: seq<Address>)
      reads this
      requires Valid()
      ensures Sorted(ById, rows) && DistinctIds(rows)
      ensures forall a :: a in rows <==> a.id in records && records[a.id] == a
    {
      IdOrder(records, nextId)
    }

    /**
     * `GET /address`: refuses a malformed `last` token before querying, and
     * otherwise answers with the page the query selects and the token naming
     * the page's last record. Listing never changes the table.
     */
    method List(req: ListRequest) returns (r: Result<Page, ListError>)
      requires Valid()
      ensures r.Failure? <==> req.last.Some? && DecodeToken(SortFrom(req.sort), req.last.value).Failure?
      ensures r.Failure? ==> req.last.Some? && DecodeToken(SortFrom(req.sort), req.last.value) == Failure(r.error)
      ensures r.Success? ==>
        && r.value.addresses == Find(RequestedQuery(req), Rows())
        && r.value.next == NextToken(SortFrom(req.sort), r.value.addresses)
      ensures r.Success? ==> |r.value.addresses| <= EffectiveLimit(req.limit)
      ensures r.Success? ==> Sorted(SortFrom(req.sort), r.value.addresses)
      ensures r.Success? ==> forall a :: a in r.value.addresses ==> a.id in records && records[a.id] == a && Matches(req.search, a)
    {
      var built := BuildQuery(req);
      if built.Failure? {
        return Failure(built.error);
      }
      var q := built.value;
      var addresses := Find(q, Rows());
      FindPage(q, Rows());

      // the token: ID__NAME under a name order, ID otherwise
      var token := "";
      if |addresses| > 0 {
        var lastAddress := addresses[|addresses| - 1];
        if req.sort == Some("first_name") {
          token := NatToString(lastAddress.id) + Separator + lastAddress.firstName;
        } else if req.sort == Some("last_name") {
          token := NatToString(lastAddress.id) + Separator + lastAddress.lastName;
        } else {
          token := NatToString(lastAddress.id);
        }
      }
      var next := if |token| > 0 then Some(token) else None;
      r := Success(Page(addresses, next));
    }

    /**
     * One request of the page walk: once a prefix `read` of the whole
     * selection has been fetched, the request carrying the token of its last
     * record is accepted, and its page, at most the limit long, extends the
     * prefix. The next token names the new last record; there is none only
     * when the page came back empty, which happens exactly when everything
     * had been read.
     */
    method FetchNext(sort: Option<string>, search: Option<string>, limit: Option<int>,
                     ghost everything: seq<Address>, read: seq<Address>, last: Option<string>)
      returns (more: seq<Address>, next: Option<string>)
      requires Valid()
      requires everything == Select(search, None, Ordered(SortFrom(sort), Rows()))
      requires HoldsToken(SortFrom(sort), everything, read, last)
      ensures Advances(SortFrom(sort), everything, read, more, EffectiveLimit(limit), next)
    {
      ghost var key := SortFrom(sort);
      ghost var n := EffectiveLimit(limit);
      var page;
      page, next := WalkRequest(sort, search, limit, last, everything, |read|);
      PageExtendsPrefix(key, everything, read, n, page, next);
      more := read + page;
    }

    /**
     * The request of the page walk after the first k records of the whole
     * selection: the token of the k-th record is accepted, and the page holds
     * the records that follow it, cut at the limit.
     */
    method WalkRequest(sort: Option<string>, search: Option<string>, limit: Option<int>,
                       last: Option<string>, ghost everything: seq<Address>, ghost k: nat)
      returns (page: seq<Address>, next: Option<string>)
      requires Valid()
      requires everything == Select(search, None, Ordered(SortFrom(sort), Rows()))
      requires k <= |everything|
      requires last.None? <==> k == 0
      requires last.Some? ==> last.value == EncodeToken(SortFrom(sort), everything[k - 1])
      ensures page == Take(everything[k..], Some(EffectiveLimit(limit)))
      ensures next == NextToken(SortFrom(sort), page)
    {
      WalkStep(Rows(), sort, search, limit, last, k);
      var r := List(ListRequest(sort, search, last, limit));
      page := r.value.addresses;
      next := r.value.next;
    }

    /**
     * Follows the tokens from the first page until none is returned, and
     * returns the pages concatenated: the whole selection in listing order.
     */
    method ReadPages(sort: Option<string>, search: Option<string>, limit: Option<int>) returns (all: seq<Address>)
      requires Valid()
      ensures all == Select(search, None, Ordered(SortFrom(sort), Rows()))
    {
      var key := SortFrom(sort);
      ghost var everything := Select(search, None, Ordered(key, Rows()));
      var next;
      all, next := FetchNext(sort, search, limit, everything, [], None);
      while next.Some?
        invariant |all| <= |everything| && all == everything[..|all|]
        invariant next.Some? ==> HoldsToken(key, everything, all, next)
        invariant next.None? ==> all == everything
        decreases |everything| - |all| + if next.Some? then 1 else 0
      {
        all, next := FetchNext(sort, search, limit, everything, all, next);
      }
    }

    /**
     * A client walking the pages sees every stored record that matches the
     * search exactly once, strictly in the listing order; in the default order
     * with no search it sees the table in primary-key order.
     */
    method WalkPages(sort: Option<string>, search: Option<string>, limit: Option<int>) returns (all: seq<Address>)
      requires Valid()
      ensures Sorted(SortFrom(sort), all)
      ensures forall a :: a in all <==> a.id in records && records[a.id] == a && Matches(search, a)
      ensures SortFrom(sort) == ById && search.None? ==> all == Rows()
    {
      all := ReadPages(sort, search, limit);
      SelectionOfTable(SortFrom(sort), search, Rows());
    }

    /** `GET /address/:id`: the record stored under id, or not found. */
    method Get(id: int) returns (r: Option<Address>)
      requires Valid()
      ensures r.Some? <==> id in records
      ensures r.Some? ==> r.value == records[id] && r.value.id == id
    {
      if id in records {
        r := Some(records[id]);
      } else {
        r := None;
      }
    }

    /**
     * `POST /address`: both names are required; the new record gets a fresh
     * id, above every id handed out before, and nothing else changes.
     */
    method Create(firstName: string, lastName: string, phone: Option<string>) returns (r: Result<nat, CreateError>)
      requires Valid()
      modifies this
      ensures Valid()
      ensures firstName == "" || lastName == "" ==>
        r == Failure(MissingRequiredField) && records == old(records) && nextId == old(nextId)
      ensures firstName != "" && lastName != "" ==>
        && r == Success(old(nextId))
        && (forall k :: k in old(records) ==> k < r.value)
        && records == old(records)[r.value := Address(r.value, firstName, lastName, phone)]
        && nextId == old(nextId) + 1
    {
      if firstName == "" || lastName == "" {
        return Failure(MissingRequiredField);
      }
      var id := nextId;
      records := records[id := Address(id, firstName, lastName, phone)];
      nextId := nextId + 1;
      r := Success(id);
    }

    /** `DELETE /address/:id`: succeeds iff a record had that id, and removes it. */
    method Delete(id: int) returns (deleted: bool)
      requires Valid()
      modifies this
      ensures Valid()
      ensures deleted == (id in old(records))
      ensures records == old(records) - {id} && nextId == old(nextId)
    {
      deleted := id in records;
      records := records - {id};
    }
  }

  /** Creating a record and fetching it by the returned id gives back the same fields. */
  method PostThenGet(book: AddressBook, firstName: string, lastName: string, phone: Option<string>)
    returns (created: Result<nat, CreateError>, fetched: Option<Address>)
    requires book.Valid()
    modifies book
    ensures book.Valid()
    ensures created.Success? <==> firstName != "" && lastName != ""
    ensures created.Success? ==> fetched == Some(Address(created.value, firstName, lastName, phone))
  {
    created := book.Create(firstName, lastName, phone);
    fetched := None;
    if created.Success? {
      fetched := book.Get(created.value);
    }
  }

  /**
   * Deleting twice: the first delete succeeds iff the record existed; the
   * second delete and a later get report not found, and a later listing
   * does not show the record.
   */
  method DeleteTwice(book: AddressBook, id: int, search: Option<string>)
    returns (first: bool, second: bool, fetched: Option<Address>, listed: Result<Page, ListError>)
    requires book.Valid()
    modifies book
    ensures book.Valid()
    ensures first == (id in old(book.records))
    ensures !second && fetched == None
    ensures listed.Success? && forall a :: a in listed.value.addresses ==> a.id != id
  {
    first := book.Delete(id);
    second := book.Delete(id);
    fetched := book.Get(id);
    listed := book.List(ListRequest(None, search, None, None));
  }
}
