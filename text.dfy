/**
 * The string operations the listing handler relies on: splitting and joining
 * on the two-underscore separator (strings.Split / strings.Join), the
 * lexicographic order the store uses to compare names, and decimal rendering
 * and parsing of integers (fmt's `%v` of an unsigned id, strconv.Atoi).
 */
module Text {
  import opened Results

  /** The separator between the id and the name in a pagination token. */
  const Separator: string := "__"

  // ---------------------------------------------------------------------------
  // Lexicographic order
  // ---------------------------------------------------------------------------

  /** a sorts strictly before b: a proper prefix, or smaller at the first difference. */
  predicate Less(a: string, b: string)
    decreases |a|
  {
    if |a| == 0 then |b| > 0
    else if |b| == 0 then false
    else if a[0] == b[0] then Less(a[1..], b[1..])
    else a[0] < b[0]
  }

  lemma {:induction false} LessIrreflexive(a: string)
    ensures !Less(a, a)
    decreases |a|
  {
    if |a| > 0 {
      LessIrreflexive(a[1..]);
    }
  }

  lemma {:induction false} LessTransitive(a: string, b: string, c: string)
    requires Less(a, b) && Less(b, c)
    ensures Less(a, c)
    decreases |a|
  {
    if |a| > 0 && a[0] == b[0] && b[0] == c[0] {
      LessTransitive(a[1..], b[1..], c[1..]);
    }
  }

  /** Any two names are equal or ordered one way: the order is total. */
  lemma {:induction false} LessTotal(a: string, b: string)
    ensures a == b || Less(a, b) || Less(b, a)
    decreases |a|
  {
    if |a| > 0 && |b| > 0 && a[0] == b[0] {
      LessTotal(a[1..], b[1..]);
      if a[1..] == b[1..] {
        assert a == [a[0]] + a[1..] && b == [b[0]] + b[1..];
      }
    }
  }

  lemma LessAsymmetric(a: string, b: string)
    requires Less(a, b)
    ensures !Less(b, a)
  {
    if Less(b, a) {
      LessTransitive(a, b, a);
      LessIrreflexive(a);
    }
  }

  // ---------------------------------------------------------------------------
  // strings.Split(s, "__") and strings.Join(parts, "__")
  // ---------------------------------------------------------------------------

  /** The separator starts at position i of s. */
  predicate SeparatorAt(s: string, i: int) {
    0 <= i && i + 2 <= |s| && s[i] == '_' && s[i + 1] == '_'
  }

  predicate ContainsSeparator(s: string) {
    exists i :: 0 <= i < |s| && SeparatorAt(s, i)
  }

  /** The first position at which the separator occurs, as strings.Index finds it. */
  function FindSeparator(s: string): (r: Option<nat>)
    ensures r.Some? ==> SeparatorAt(s, r.value)
    ensures r.Some? ==> forall i :: 0 <= i < r.value ==> !SeparatorAt(s, i)
    ensures r.None? ==> !ContainsSeparator(s)
    decreases |s|
  {
    if |s| < 2 then None
    else if s[0] == '_' && s[1] == '_' then Some(0)
    else match FindSeparator(s[1..])
      case None =>
        assert !ContainsSeparator(s) by {
          forall j | 0 <= j < |s| && SeparatorAt(s, j) ensures false {
            assert SeparatorAt(s[1..], j - 1);
          }
        }
        None
      case Some(i) =>
        assert forall j :: 0 <= j < i + 1 ==> !SeparatorAt(s, j) by {
          forall j | 0 < j < i + 1 && SeparatorAt(s, j) ensures false {
            assert SeparatorAt(s[1..], j - 1);
          }
        }
        Some(i + 1)
  }

  /** s ends in an underscore: a leftmost cut never leaves one before the separator. */
  predicate EndsWithUnderscore(s: string) {
    |s| > 0 && s[|s| - 1] == '_'
  }

  /**
   * Rejoins parts with the separator between each two neighbours: two or
   * more parts always give a string holding the separator.
   */
  function Join(parts: seq<string>): (r: string)
    ensures |parts| >= 2 ==> ContainsSeparator(r)
  {
    if |parts| == 0 then ""
    else if |parts| == 1 then parts[0]
    else
      var r := parts[0] + Separator + Join(parts[1..]);
      assert SeparatorAt(r, |parts[0]|);
      r
  }

  /**
   * Cuts s at every occurrence of the separator, scanning from the left.
   * Joining the parts again gives back s, no part holds the separator, and
   * s splits in two or more parts exactly when it contains the separator.
   * The cuts are leftmost: only the last part may end in an underscore, so
   * "a___b" splits as ["a", "_b"].
   */
  function Split(s: string): (parts: seq<string>)
    ensures |parts| >= 1
    ensures Join(parts) == s
    ensures forall k :: 0 <= k < |parts| ==> !ContainsSeparator(parts[k])
    ensures |parts| >= 2 <==> ContainsSeparator(s)
    ensures forall k :: 0 <= k < |parts| - 1 ==> !EndsWithUnderscore(parts[k])
    decreases |s|
  {
    match FindSeparator(s)
    case None => [s]
    case Some(i) =>
      var rest := Split(s[i + 2..]);
      assert s == s[..i] + Separator + s[i + 2..];
      assert i == 0 || s[i - 1] != '_' by {
        if i > 0 && s[i - 1] == '_' {
          assert SeparatorAt(s, i - 1);
        }
      }
      assert !ContainsSeparator(s[..i]) by {
        forall j | SeparatorAt(s[..i], j) ensures false {
          assert SeparatorAt(s, j);
        }
      }
      [s[..i]] + rest
  }

  /**
   * A prefix without any underscore ends before the first separator, so the
   * split of `prefix + "__" + tail` is the prefix followed by the split of tail.
   */
  lemma {:induction false} SplitAfterPlainPrefix(prefix: string, tail: string)
    requires forall k :: 0 <= k < |prefix| ==> prefix[k] != '_'
    ensures Split(prefix + Separator + tail) == [prefix] + Split(tail)
  {
    var s := prefix + Separator + tail;
    FindSeparatorAfterPlainPrefix(prefix, tail);
    assert s[..|prefix|] == prefix;
    assert s[|prefix| + 2..] == tail;
  }

  lemma {:induction false} FindSeparatorAfterPlainPrefix(prefix: string, tail: string)
    requires forall k :: 0 <= k < |prefix| ==> prefix[k] != '_'
    ensures FindSeparator(prefix + Separator + tail) == Some(|prefix|)
    decreases |prefix|
  {
    var s := prefix + Separator + tail;
    if |prefix| > 0 {
      assert s[1..] == prefix[1..] + Separator + tail;
      FindSeparatorAfterPlainPrefix(prefix[1..], tail);
    }
  }

  /** Joining a first part onto a non-empty remainder puts the separator between them. */
  lemma JoinCons(first: string, rest: seq<string>)
    requires |rest| >= 1
    ensures Join([first] + rest) == first + Separator + Join(rest)
  {
    assert ([first] + rest)[1..] == rest;
  }

  // ---------------------------------------------------------------------------
  // Decimal integers
  // ---------------------------------------------------------------------------

  predicate IsDigit(c: char) {
    '0' <= c <= '9'
  }

  predicate AllDigits(s: string) {
    forall i :: 0 <= i < |s| ==> IsDigit(s[i])
  }

  function DigitChar(d: nat): (c: char)
    requires d < 10
    ensures IsDigit(c) && c as int - '0' as int == d
  {
    (d + '0' as int) as char
  }

  function DigitValue(c: char): nat
    requires IsDigit(c)
  {
    c as int - '0' as int
  }

  /** The value of a string of decimal digits, most significant first. */
  function DigitsValue(s: string): nat
    requires AllDigits(s)
    decreases |s|
  {
    if |s| == 0 then 0 else DigitsValue(s[..|s| - 1]) * 10 + DigitValue(s[|s| - 1])
  }

  /** The decimal rendering of a natural number (fmt's `%v` of an unsigned id). */
  function NatToString(n: nat): (s: string)
    ensures |s| >= 1 && AllDigits(s)
    ensures DigitsValue(s) == n
    decreases n
  {
    if n < 10 then [DigitChar(n)]
    else
      var s := NatToString(n / 10) + [DigitChar(n % 10)];
      assert s[..|s| - 1] == NatToString(n / 10);
      s
  }

  /**
   * strconv.Atoi without its overflow check: an optional sign followed by one
   * or more decimal digits; anything else is rejected. A string it accepts
   * holds no underscore.
   */
  function ParseInt(s: string): (r: Option<int>)
    ensures r.Some? ==> |s| >= 1 && forall k :: 0 <= k < |s| ==> s[k] != '_'
  {
    var negative := |s| > 0 && s[0] == '-';
    var digits := if |s| > 0 && (s[0] == '+' || s[0] == '-') then s[1..] else s;
    if |digits| == 0 || !AllDigits(digits) then None
    else
      var magnitude: int := DigitsValue(digits);
      Some(if negative then -magnitude else magnitude)
  }

  /** Parsing the decimal rendering of n gives back n. */
  lemma ParseNatToString(n: nat)
    ensures ParseInt(NatToString(n)) == Some(n)
  {
    var s := NatToString(n);
    assert IsDigit(s[0]);
  }
}
