/**
 * The continuation token of a listing page: `<id>__<name>` under a name
 * order, `<id>` under the id order, built from the last record of the page,
 * and its decoding back into a cursor.
 */
module Tokens {
  import opened Results
  import opened Text
  import opened Records
  import opened Listing

  /** Why a `last` token was refused: it lacks the separator, or its id is not an integer. */
  datatype ListError =
    | InvalidLastKey(token: string)
    | NotAnInteger(text: string)

  /**
   * The token naming record a's position: its id in decimal, followed under a
   * name order by the separator and the sorted column's value. It is never
   * empty, and it holds the separator exactly when the order is by name.
   */
  function EncodeToken(key: SortKey, a: Address): (t: string)
    ensures |t| >= 1
    ensures ContainsSeparator(t) <==> key.ByName?
  {
    match key
    case ById => NatToString(a.id)
    case ByName(c) =>
      var t := NatToString(a.id) + Separator + Field(c, a);
      assert SeparatorAt(t, |NatToString(a.id)|);
      t
  }

  /**
   * Reads a token back into a cursor. Under a name order the token is split
   * on the separator; fewer than two parts is an invalid key, a first part
   * that is not an integer is refused, and the remaining parts rejoined are
   * the name. Under the id order the whole token must be an integer.
   */
  function DecodeToken(key: SortKey, t: string): (r: Result<Cursor, ListError>)
    ensures r.Success? ==> (r.value.IdCursor? <==> key.ById?)
  {
    match key
    case ById =>
      (match ParseInt(t)
       case None => Failure(NotAnInteger(t))
       case Some(id) => Success(IdCursor(id)))
    case ByName(c) =>
      var parts := Split(t);
      if |parts| < 2 then Failure(InvalidLastKey(t))
      else match ParseInt(parts[0])
        case None => Failure(NotAnInteger(parts[0]))
        case Some(id) => Success(NameCursor(c, id, Join(parts[1..])))
  }

  /** The `next` token of a page: from its last record, none when the page is empty. */
  function NextToken(key: SortKey, page: seq<Address>): (next: Option<string>)
    ensures next.Some? <==> |page| > 0
  {
    if |page| > 0 then Some(EncodeToken(key, page[|page| - 1])) else None
  }

  /**
   * Round trip: decoding the token of any record gives back its cursor, also
   * for names that contain or start with the separator, because a decimal id
   * holds no underscore.
   */
  lemma TokenRoundTrip(key: SortKey, a: Address)
    ensures DecodeToken(key, EncodeToken(key, a)) == Success(CursorAt(key, a))
  {
    var digits := NatToString(a.id);
    ParseNatToString(a.id);
    match key
    case ById =>
    case ByName(c) =>
      var name := Field(c, a);
      assert forall k :: 0 <= k < |digits| ==> digits[k] != '_' by {
        assert AllDigits(digits);
      }
      SplitAfterPlainPrefix(digits, name);
      var parts := Split(digits + Separator + name);
      assert parts[0] == digits && parts[1..] == Split(name);
  }

  /** Under a name order, a token is refused as an invalid key exactly when it lacks the separator. */
  lemma DecodeNeedsSeparator(c: Column, t: string)
    ensures DecodeToken(ByName(c), t) == Failure(InvalidLastKey(t)) <==> !ContainsSeparator(t)
  {
  }

  /**
   * What a decoded token consisted of: under a name order, an integer, the
   * separator, then the name; under the id order, the integer alone.
   */
  lemma DecodeReconstructs(key: SortKey, t: string, cursor: Cursor)
    requires DecodeToken(key, t) == Success(cursor)
    ensures key.ById? ==> cursor == IdCursor(cursor.id) && ParseInt(t) == Some(cursor.id)
    ensures key.ByName? ==>
      cursor == NameCursor(key.column, cursor.id, cursor.name) &&
      ParseInt(Split(t)[0]) == Some(cursor.id) &&
      t == Split(t)[0] + Separator + cursor.name
  {
    if key.ByName? {
      var parts := Split(t);
      assert parts == [parts[0]] + parts[1..];
      JoinCons(parts[0], parts[1..]);
    }
  }
}
