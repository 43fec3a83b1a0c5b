# addressbook: the cursor-paginated address listing, in Dafny

The addressbook service keeps a table of `Addresses` records (id, first
name, last name, optional phone) behind four HTTP endpoints. Most of the
code is framework plumbing. The logic lives in the `GET /address` handler,
which:

- clamps the requested page size;
- filters by a name prefix;
- orders by id, or by a name column with the id as tie-break;
- resumes after the record named by a continuation token (`last`);
- cuts the page and encodes the token of its last record as `<id>__<name>`
  under a name order, or `<id>` otherwise.

This project models that handler together with create, get and delete over
an in-memory table. It proves that the seek predicate means "strictly after
in the listing order" and that a token decodes back to the cursor it was
made from. It also proves that a client following the tokens from the
first page sees the whole filtered, sorted table, each record exactly once.

Modules, one per file:

- `Results` (results.dfy): `Option` and `Result`.
- `Text` (text.dfy): `strings.Split` and `strings.Join` on `"__"`; the
  lexicographic order used to compare names, proved a strict total order;
  the decimal rendering of an id; `strconv.Atoi`.
- `Records` (records.dfy): the `Address` record, the three listing orders
  (`SortKey`), the `Before` relation, and `Ordered`. `Ordered` is an
  insertion sort that stands for `ORDER BY`. `SortedUnique` shows that any
  algorithm producing a strictly sorted arrangement produces the same one.
- `Listing` (listing.dfy): the limit clamp, the prefix search, cursors and
  the seek predicate. It also has the query the handler builds and `Find`,
  the store's answer to that query.
- `Tokens` (tokens.dfy): encoding and decoding of continuation tokens.
- `Book` (book.dfy): the class `AddressBook`, holding a map from id to
  record and the next id to hand out. Its methods are the handler (`List`,
  built on the imperative query builder `BuildQuery`), get, create and
  delete. It also has the page walk of the tests (`ReadPages`, `WalkPages`).

## Model

| member | source | states |
|---|---|---|
| Listing.EffectiveLimit | main.go:90-101 | the page size is always in [1, 100]: an absent request or one ≤ 0 gives 20, one above 100 gives 100, and any other request is honoured |
| Records.SortFrom | main.go:110-112 | only `"first_name"` and `"last_name"` select a name order (each iff the parameter is exactly that string); any other value or none selects the id order |
| Records.Before | main.go:112 | the listing order: by id, or by the name column with the id breaking ties, so two records with equal names are ordered by id |
| Records.BeforeTotal | main.go:112 | because ids are unique, the (name, id) and id orders put any two distinct records one before the other |
| Records.BeforeTransitive | main.go:112 | the listing order is transitive |
| Records.BeforeAsymmetric | main.go:112 | the listing order is asymmetric, so no record comes before itself |
| Text.LessTotal | main.go:112 | name comparison is total: two names are equal or one sorts before the other |
| Text.LessTransitive | main.go:112 | name comparison is transitive |
| Records.Ordered | main.go:112 | `ORDER BY` keeps exactly the rows it was given (the same multiset) |
| Records.OrderedSorted | main.go:112 | on rows with distinct ids, `ORDER BY` yields a strictly ascending sequence in the selected order |
| Records.SortedUnique | main.go:112 | two strictly sorted arrangements of the same rows are equal, so the ordering is determined whatever the store's sort algorithm |
| Records.OrderedOfSorted | main.go:138 | a table already in primary-key order is returned unchanged by the id ordering |
| Records.SortedNamesNondecreasing | main.go:112 | along a page sorted by a name column, the names never decrease |
| Listing.Matches | main.go:105-107 | the prefix search: no search or an empty one matches every record, and a match needs a first or last name at least as long as the search |
| Listing.After | main.go:135-145 | the seek clause: under a name order, a record whose name equals the cursor's passes iff its id is larger |
| Listing.Find | main.go:149-150 | the store's answer to the built query (`ORDER BY`, `WHERE`, `LIMIT`) never has more rows than the table or than the limit |
| Listing.Select | main.go:105-107 | the filter returns exactly the rows that match the search and pass the seek clause, and never more rows than it was given |
| Listing.Take | main.go:93-100 | `LIMIT n` returns a prefix of the rows of length min(n, row count) |
| Listing.AfterCursorAt | main.go:135-145 | a record passes the seek clause built from record b iff it comes strictly after b in the listing order: (name, id) under a name order, id otherwise |
| Listing.FindPage | main.go:105-150 | a page has at most the limit; it is a prefix of everything the query selects; every record on it is from the table, matches the search and is after the cursor; and it is strictly sorted |
| Listing.SelectSorted | main.go:105-112 | filtering keeps a sorted sequence sorted |
| Listing.SelectResumes | main.go:135-145 | seeking past the j-th selected record yields exactly the selected records after it, none skipped and none repeated |
| Listing.SelectionOfTable | main.go:105-112 | with no cursor, the selection holds each table row that matches the search exactly once, strictly sorted; with no search and the table already in that order, it is the table itself |
| Listing.ResumeAt | main.go:135-145 | on a sorted table, the seek clause built from the k-th selected record, or no clause when k is 0, selects exactly the selected records from position k on |
| Listing.SelectEverything | main.go:89-147 | with no search and no cursor, every row is selected |
| Text.FindSeparator | main.go:118 | finds the first occurrence of `"__"`, or reports that there is none |
| Text.Split | main.go:118 | splitting on `"__"` gives at least one part; rejoining the parts gives the input back; no part holds the separator; there are two or more parts iff the input contains the separator; the cuts are leftmost, so only the last part may end in `_` (`"a___b"` gives `"a"` and `"_b"`) |
| Text.Join | main.go:131 | rejoining two or more parts always gives a string holding the separator |
| Text.SplitAfterPlainPrefix | main.go:118-131 | a first part without underscores is split off whole, and the rest splits on its own |
| Text.JoinCons | main.go:131 | joining a first part onto a non-empty rest puts one separator between them |
| Text.NatToString | main.go:160-164 | the decimal rendering of an id is a non-empty string of digits whose value is the id |
| Text.ParseInt | main.go:124-140 | a string accepted as an integer is non-empty and holds no underscore |
| Text.ParseNatToString | main.go:124-164 | parsing the rendering of an id gives back the id |
| Tokens.EncodeToken | main.go:155-166 | a token is never empty, and it holds `"__"` iff the order is by a name column |
| Tokens.NextToken | main.go:155-180 | a page yields a token iff it is non-empty |
| Tokens.DecodeToken | main.go:118-144 | a decoded cursor is an id cursor iff the order is by id |
| Tokens.DecodeNeedsSeparator | main.go:118-122 | under a name order, a token is refused as an invalid key iff it does not contain `"__"` |
| Tokens.DecodeReconstructs | main.go:118-144 | an accepted token consists of an integer, then, under a name order, `"__"` and the name; the integer is the cursor's id |
| Tokens.TokenRoundTrip | main.go:118-166 | decoding the token of any record gives back exactly its cursor, including names that contain or start with `"__"` or `"_"` |
| Book.IdOrder | main.go:16-21 | the table in primary-key order: strictly ascending ids, each stored record once |
| Book.BuildQuery | main.go:89-147 | the query builder fails iff the `last` token does not decode, with the decoder's error; otherwise it builds the clamped limit, the search, the selected order and the decoded cursor |
| Book.TokenSeek | main.go:114-145 | a request carrying the token of a record decodes, and its query seeks past exactly that record, with the clamped limit, the search and the selected order |
| Book.WalkStep | main.go:89-150 | after the first k records of the whole selection, the token of the k-th is accepted, and the next query returns the records that follow it, cut at the limit |
| Book.PageExtendsPrefix | main_test.go:104-117 | appending a page to what has been read gives a longer prefix of the selection; the next token names the new last record; and only an empty page, which yields no token, ends the walk, exactly when everything has been read |
| Book.AddressBook.constructor | main.go:47-63 | the table starts empty, and ids start at 1 |
| Book.AddressBook.Rows | main.go:16-21 | the stored table in primary-key order |
| Book.AddressBook.List | main.go:76-183 | `GET /address` fails iff the `last` token is malformed, with the same error. Otherwise its page is the store's answer to the requested query and its token is built from the page's last record. The page has at most the effective limit, is sorted, and holds only stored records matching the search. Listing changes nothing |
| Book.AddressBook.WalkRequest | main_test.go:104-111 | after the first k records of the selection, the request carrying the k-th record's token returns the next records, cut at the limit |
| Book.AddressBook.FetchNext | main_test.go:104-116 | one iteration of the test's page loop, given the token of the last record read so far, extends that prefix of the selection by at most the limit; the new token names the new last record, and there is none exactly when the whole selection had been read |
| Book.AddressBook.ReadPages | main_test.go:90-119 | following tokens from the first page until none is returned yields exactly the whole filtered, sorted selection |
| Book.AddressBook.WalkPages | main_test.go:136-166 | the pages together hold every stored record that matches the search exactly once, strictly in the listing order; in the default order with no search, they are the table in primary-key order |
| Book.AddressBook.Get | main.go:185-200 | get by id finds a record iff one is stored under that id, and returns it |
| Book.AddressBook.Create | main.go:211-230 | create refuses a missing (empty) first or last name and changes nothing then; otherwise it stores the record under a fresh id above every earlier one and returns that id |
| Book.AddressBook.Delete | main.go:202-209 | delete succeeds iff a record had that id, and removes only it |
| Book.PostThenGet | main_test.go:62-82 | a created record is fetched back with the same names and phone |
| Book.DeleteTwice | main_test.go:168-186 | deleting succeeds iff the record existed; a second delete and a later get report not found; a later listing does not show it |

## Left out

- HTTP and gin: routing, query and JSON binding, status codes, response
  shapes and logging (main.go:65-74, 84-87, 168-182, 218-221). Failures are
  error variants of a `Result`. Binding a non-numeric `limit` is a binding
  error, so the model takes the limit as an optional integer.
- gorm and SQLite: the connection, migration and count (main.go:47-63) are
  replaced by the in-memory map with a next-id counter. Ids are never
  reused; SQLite may reuse the largest id after it is deleted.
- The `next` URL: the model returns the raw token, without the URL encoding
  of main.go:173-177.
- Seeding from `names.csv` (main.go:23-45) is file I/O and is not part of
  this model. In it, an empty third field gives an absent phone.
- SQL `LIKE` and collation: the search is modelled as an exact,
  case-sensitive prefix test. SQLite's `LIKE` is ASCII case-insensitive and
  treats `%` and `_` in the search term as wildcards. Names are compared by
  character code, where the store uses its own collation.
- The unassigned `qdb.Order("id")` at main.go:138: the model follows the
  evident intent and orders by id ascending.
- The query error at main.go:151-153, which has no `return` after it: the
  in-memory store cannot fail.
- The store error on create (main.go:225-226): an in-memory insert cannot
  fail.
- Text.ParseInt: models `strconv.Atoi` without its overflow error for
  values outside the 64-bit range.
- Non-numeric ids in `/address/:id` paths: get and delete take an integer
  id.
