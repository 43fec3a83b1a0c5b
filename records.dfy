/**
 * The `Addresses` record and the orders a listing can be sorted in: by id
 * alone, or by one of the two name columns with the id as tie-break. Ordered
 * stands for the store's `ORDER BY <column>, id`.
 */
module Records {
  import opened Results
  import opened Text

  /** One row of the address table; the phone may be absent. */
  datatype Address = Address(id: nat, firstName: string, lastName: string, phone: Option<string>)

  /** The two name columns a listing may be sorted by. */
  datatype Column = FirstName | LastName

  /** The listing order: id ascending, or (name column, id) ascending. */
  datatype SortKey = ById | ByName(column: Column)

  function Field(column: Column, a: Address): string {
    match column
    case FirstName => a.firstName
    case LastName => a.lastName
  }

  /**
   * The `sort` query parameter is checked against a closed set: only
   * "first_name" and "last_name" select a name order, any other value (or
   * none) keeps the id order.
   */
  function SortFrom(sort: Option<string>): (key: SortKey)
    ensures key == ByName(FirstName) <==> sort == Some("first_name")
    ensures key == ByName(LastName) <==> sort == Some("last_name")
    ensures key == ById <==> sort != Some("first_name") && sort != Some("last_name")
  {
    if sort == Some("first_name") then ByName(FirstName)
    else if sort == Some("last_name") then ByName(LastName)
    else ById
  }

  /**
   * a comes strictly before b in the order selected by key: by id, or by the
   * name column with the id breaking ties between equal names.
   */
  predicate Before(key: SortKey, a: Address, b: Address)
    ensures key.ByName? && Field(key.column, a) == Field(key.column, b) ==> (Before(key, a, b) <==> a.id < b.id)
  {
    match key
    case ById => a.id < b.id
    case ByName(c) =>
      LessIrreflexive(Field(c, a));
      Less(Field(c, a), Field(c, b)) || (Field(c, a) == Field(c, b) && a.id < b.id)
  }

  // ---------------------------------------------------------------------------
  // Before is a strict total order on records with distinct ids
  // ---------------------------------------------------------------------------

  lemma BeforeIrreflexive(key: SortKey, a: Address)
    ensures !Before(key, a, a)
  {
    if key.ByName? {
      LessIrreflexive(Field(key.column, a));
    }
  }

  lemma BeforeTransitive(key: SortKey, a: Address, b: Address, c: Address)
    requires Before(key, a, b) && Before(key, b, c)
    ensures Before(key, a, c)
  {
    if key.ByName? {
      var x, y, z := Field(key.column, a), Field(key.column, b), Field(key.column, c);
      if Less(x, y) && Less(y, z) {
        LessTransitive(x, y, z);
      }
    }
  }

  lemma BeforeAsymmetric(key: SortKey, a: Address, b: Address)
    requires Before(key, a, b)
    ensures !Before(key, b, a)
  {
    if Before(key, b, a) {
      BeforeTransitive(key, a, b, a);
      BeforeIrreflexive(key, a);
    }
  }

  /** Ids are unique, so the id tie-break makes every order total. */
  lemma BeforeTotal(key: SortKey, a: Address, b: Address)
    requires a.id != b.id
    ensures Before(key, a, b) || Before(key, b, a)
  {
    if key.ByName? {
      LessTotal(Field(key.column, a), Field(key.column, b));
    }
  }

  // ---------------------------------------------------------------------------
  // Sorting
  // ---------------------------------------------------------------------------

  /** Every earlier element comes strictly before every later one. */
  predicate Sorted(key: SortKey, s: seq<Address>) {
    forall i, j :: 0 <= i < j < |s| ==> Before(key, s[i], s[j])
  }

  predicate DistinctIds(s: seq<Address>) {
    forall i, j :: 0 <= i < j < |s| ==> s[i].id != s[j].id
  }

  /** Inserts x into s in front of the first element x comes before. */
  function Insert(key: SortKey, x: Address, s: seq<Address>): (r: seq<Address>)
    ensures multiset(r) == multiset(s) + multiset{x}
  {
    if s == [] then [x]
    else if Before(key, x, s[0]) then [x] + s
    else
      assert s == [s[0]] + s[1..];
      [s[0]] + Insert(key, x, s[1..])
  }

  /** The rows arranged as `ORDER BY <key>` would: an insertion sort. */
  function Ordered(key: SortKey, rows: seq<Address>): (r: seq<Address>)
    ensures multiset(r) == multiset(rows)
  {
    if rows == [] then []
    else
      assert rows == [rows[0]] + rows[1..];
      Insert(key, rows[0], Ordered(key, rows[1..]))
  }

  lemma {:induction false} InsertSorted(key: SortKey, x: Address, s: seq<Address>)
    requires Sorted(key, s)
    requires forall y :: y in s ==> y.id != x.id
    ensures Sorted(key, Insert(key, x, s))
    decreases |s|
  {
    if s != [] {
      if Before(key, x, s[0]) {
        var r := [x] + s;
        forall i, j | 0 <= i < j < |r| ensures Before(key, r[i], r[j]) {
          if i == 0 && j > 1 {
            BeforeTransitive(key, x, s[0], s[j - 1]);
          }
        }
      } else {
        BeforeTotal(key, x, s[0]);
        var tail := Insert(key, x, s[1..]);
        InsertSorted(key, x, s[1..]);
        var r := [s[0]] + tail;
        forall j | 0 <= j < |tail| ensures Before(key, s[0], tail[j]) {
          assert tail[j] in multiset(tail);
          if tail[j] != x {
            assert tail[j] in s[1..];
            var k :| 0 <= k < |s[1..]| && s[1..][k] == tail[j];
            assert s[k + 1] == tail[j];
          }
        }
        forall i, j | 0 <= i < j < |r| ensures Before(key, r[i], r[j]) {
          if i == 0 {
            assert r[j] == tail[j - 1];
          } else {
            assert r[i] == tail[i - 1] && r[j] == tail[j - 1];
          }
        }
      }
    }
  }

  /** On rows with distinct ids the sort yields a strictly ascending sequence. */
  lemma {:induction false} OrderedSorted(key: SortKey, rows: seq<Address>)
    requires DistinctIds(rows)
    ensures Sorted(key, Ordered(key, rows))
    decreases |rows|
  {
    if rows != [] {
      var tail := Ordered(key, rows[1..]);
      OrderedSorted(key, rows[1..]);
      forall y | y in tail ensures y.id != rows[0].id {
        assert y in multiset(rows[1..]);
        var k :| 0 <= k < |rows[1..]| && rows[1..][k] == y;
        assert rows[k + 1] == y;
      }
      InsertSorted(key, rows[0], tail);
    }
  }

  /** A strictly sorted sequence holds no record twice. */
  lemma SortedHasNoDuplicates(key: SortKey, s: seq<Address>, i: int, j: int)
    requires Sorted(key, s)
    requires 0 <= i < j < |s|
    ensures s[i] != s[j]
  {
    BeforeIrreflexive(key, s[i]);
  }

  /** The first element of a strictly sorted sequence comes before every other element. */
  lemma SortedHeadFirst(key: SortKey, s: seq<Address>, x: Address)
    requires Sorted(key, s) && x in s && x != s[0]
    ensures Before(key, s[0], x)
  {
    var k :| 0 <= k < |s| && s[k] == x;
  }

  /** Dropping the first element keeps a sequence sorted. */
  lemma SortedTail(key: SortKey, s: seq<Address>)
    requires Sorted(key, s) && |s| > 0
    ensures Sorted(key, s[1..])
  {
    forall i, j | 0 <= i < j < |s[1..]| ensures Before(key, s[1..][i], s[1..][j]) {
      assert s[1..][i] == s[i + 1] && s[1..][j] == s[j + 1];
    }
  }

  /** Two strictly sorted arrangements of the same rows start with the same record. */
  lemma SortedHeadsAgree(key: SortKey, s: seq<Address>, t: seq<Address>)
    requires Sorted(key, s) && Sorted(key, t) && |s| > 0 && |t| > 0
    requires multiset(s) == multiset(t)
    ensures s[0] == t[0]
  {
    assert s[0] in t by { assert s[0] in multiset(s); }
    assert t[0] in s by { assert t[0] in multiset(t); }
    if s[0] != t[0] {
      SortedHeadFirst(key, s, t[0]);
      SortedHeadFirst(key, t, s[0]);
      BeforeAsymmetric(key, s[0], t[0]);
      assert false;
    }
  }

  /**
   * There is only one strictly sorted arrangement of a collection of rows:
   * whatever algorithm the store uses, its output equals Ordered.
   */
  lemma {:induction false} SortedUnique(key: SortKey, s: seq<Address>, t: seq<Address>)
    requires Sorted(key, s) && Sorted(key, t)
    requires multiset(s) == multiset(t)
    ensures s == t
    decreases |s|
  {
    assert |t| == |s| by {
      assert |multiset(t)| == |t| && |multiset(s)| == |s|;
    }
    if s != [] {
      SortedHeadsAgree(key, s, t);
      SortedTail(key, s);
      SortedTail(key, t);
      assert s == [s[0]] + s[1..] && t == [t[0]] + t[1..];
      assert multiset(s[1..]) == multiset(s) - multiset{s[0]};
      assert multiset(t[1..]) == multiset(t) - multiset{t[0]};
      SortedUnique(key, s[1..], t[1..]);
    }
  }

  /** Sorting rows that are already strictly sorted leaves them as they are. */
  lemma OrderedOfSorted(key: SortKey, rows: seq<Address>)
    requires Sorted(key, rows) && DistinctIds(rows)
    ensures Ordered(key, rows) == rows
  {
    OrderedSorted(key, rows);
    SortedUnique(key, Ordered(key, rows), rows);
  }

  /** Under a name order the names along a sorted sequence never decrease. */
  lemma SortedNamesNondecreasing(c: Column, s: seq<Address>, i: int, j: int)
    requires Sorted(ByName(c), s)
    requires 0 <= i < j < |s|
    ensures !Less(Field(c, s[j]), Field(c, s[i]))
  {
    var x, y := Field(c, s[i]), Field(c, s[j]);
    if x == y {
      LessIrreflexive(x);
    } else {
      LessAsymmetric(x, y);
    }
  }
}
