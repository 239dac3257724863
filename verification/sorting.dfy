/**
 * src/utils/sort.ts: comparator combinators, and the hand-written calendar
 * comparator.  A comparator answers a negative number when its left argument
 * sorts first, a positive one when the right one does, and 0 for a tie.
 *
 * Comparator results are integers here; a comparator returning `NaN` is not
 * modelled.
 */
module Sorting {
  import opened Wrappers
  import opened Values

  type Comparator = (Value, Value) -> int

  /** The sign of an integer, as a comparator result. */
  function Sign(n: int): int {
    if n < 0 then -1 else if n > 0 then 1 else 0
  }

  /** Swapping the arguments negates the result: the comparator is consistent with itself. */
  ghost predicate Antisymmetric(cmp: Comparator) {
    forall l, r :: cmp(l, r) == -cmp(r, l)
  }

  // ---------------------------------------------------------------------------
  // cascade

  /**
   * The body of `cascade(...comparators)(l, r)`: the comparators are tried in
   * order and the first non-zero result is returned, or 0 when every one
   * ties (or there are none).
   */
  function FirstNonZero(comparators: seq<Comparator>, l: Value, r: Value): (result: int)
    ensures result == 0 <==> forall i :: 0 <= i < |comparators| ==> comparators[i](l, r) == 0
    ensures result != 0 ==> exists i ::
      (0 <= i < |comparators| && comparators[i](l, r) == result
       && forall j :: 0 <= j < i ==> comparators[j](l, r) == 0)
  {
    if comparators == [] then 0
    else
      var result := comparators[0](l, r);
      if result != 0 then result
      else
        var rest := FirstNonZero(comparators[1..], l, r);
        assert forall i :: 1 <= i < |comparators| ==> comparators[i] == comparators[1..][i - 1];
        rest
  }

  /** `cascade(...comparators)` */
  function Cascade(comparators: seq<Comparator>): Comparator {
    (l, r) => FirstNonZero(comparators, l, r)
  }

  /** A cascade of consistent comparators is consistent. */
  lemma {:induction false} CascadeAntisymmetric(comparators: seq<Comparator>, l: Value, r: Value)
    requires forall i :: 0 <= i < |comparators| ==> Antisymmetric(comparators[i])
    ensures Cascade(comparators)(l, r) == -Cascade(comparators)(r, l)
    decreases |comparators|
  {
    if comparators != [] {
      assert Antisymmetric(comparators[0]);
      assert comparators[0](l, r) == -comparators[0](r, l);
      CascadeAntisymmetric(comparators[1..], l, r);
    }
  }

  // ---------------------------------------------------------------------------
  // byProperty, byValue

  /** `byValue(accessor, fn)`: compare what `accessor` reads from each side. */
  function ByValue(accessor: Value -> Value, fn: Comparator): Comparator {
    (l, r) => fn(accessor(l), accessor(r))
  }

  /** `byProperty(prop, fn)`: compare the property `prop` of each side. */
  function ByProperty(prop: string, fn: Comparator): Comparator {
    (l, r) => fn(OptionalProp(l, prop), OptionalProp(r, prop))
  }

  function PropertyReader(prop: string): Value -> Value {
    v => OptionalProp(v, prop)
  }

  /** `byProperty(prop, fn)` is `byValue` with the property read as accessor. */
  lemma ByPropertyIsByValue(prop: string, fn: Comparator, l: Value, r: Value)
    ensures ByProperty(prop, fn)(l, r) == ByValue(PropertyReader(prop), fn)(l, r)
    ensures ByProperty(prop, fn)(l, r) == fn(OptionalProp(l, prop), OptionalProp(r, prop))
  {
  }

  /** Comparing projections with a consistent comparator is consistent. */
  lemma ByValueAntisymmetric(accessor: Value -> Value, fn: Comparator, l: Value, r: Value)
    requires Antisymmetric(fn)
    ensures ByValue(accessor, fn)(l, r) == -ByValue(accessor, fn)(r, l)
  {
    assert fn(accessor(l), accessor(r)) == -fn(accessor(r), accessor(l));
  }

  // ---------------------------------------------------------------------------
  // ordered

  /** `ordering.indexOf(x)`: the first position strictly equal to `x`, or -1. */
  function IndexOf(ordering: seq<Value>, x: Value): (i: int)
    ensures -1 <= i < |ordering|
    ensures i >= 0 ==> StrictEquals(ordering[i], x) && forall j :: 0 <= j < i ==> !StrictEquals(ordering[j], x)
    ensures i == -1 ==> forall j :: 0 <= j < |ordering| ==> !StrictEquals(ordering[j], x)
  {
    if ordering == [] then -1
    else if StrictEquals(ordering[0], x) then 0
    else
      var i := IndexOf(ordering[1..], x);
      if i == -1 then -1 else i + 1
  }

  /**
   * `ordered(ordering, fallback)(l, r)`: equal positions (both unlisted
   * included) go to the fallback, or tie; otherwise an unlisted item sorts
   * after a listed one, and listed items sort by position.
   */
  function Ordered(ordering: seq<Value>, fallback: Option<Comparator>): Comparator {
    (l, r) =>
      var leftIndex := IndexOf(ordering, l);
      var rightIndex := IndexOf(ordering, r);
      if leftIndex == rightIndex then
        match fallback
        case Some(f) => f(l, r)
        case None => 0
      else if leftIndex == -1 then 1
      else if rightIndex == -1 then -1
      else if leftIndex < rightIndex then -1
      else 1
  }

  /** Where an item ranks: its position when listed, after every listed item when not. */
  function Rank(ordering: seq<Value>, x: Value): nat {
    var i := IndexOf(ordering, x);
    if i == -1 then |ordering| else i
  }

  /**
   * Without a fallback, `ordered` compares ranks: listed items by position,
   * every unlisted item after all listed ones and tied with the others.
   */
  lemma OrderedComparesRanks(ordering: seq<Value>, l: Value, r: Value)
    ensures Ordered(ordering, None)(l, r) == Sign(Rank(ordering, l) - Rank(ordering, r))
  {
  }

  /** With a fallback, items at the same position (or both unlisted) are compared by it. */
  lemma OrderedTiesUseFallback(ordering: seq<Value>, f: Comparator, l: Value, r: Value)
    requires Rank(ordering, l) == Rank(ordering, r)
    ensures Ordered(ordering, Some(f))(l, r) == f(l, r)
  {
  }

  /** A listed item sorts before an unlisted one, whatever the fallback. */
  lemma OrderedUnlistedLast(ordering: seq<Value>, fallback: Option<Comparator>, listed: Value, unlisted: Value)
    requires IndexOf(ordering, listed) >= 0 && IndexOf(ordering, unlisted) == -1
    ensures Ordered(ordering, fallback)(listed, unlisted) == -1
    ensures Ordered(ordering, fallback)(unlisted, listed) == 1
  {
  }

  /** Without a fallback `ordered` is consistent: swapping the arguments negates the result. */
  lemma OrderedAntisymmetric(ordering: seq<Value>, l: Value, r: Value)
    ensures Ordered(ordering, None)(l, r) == -Ordered(ordering, None)(r, l)
  {
    OrderedComparesRanks(ordering, l, r);
    OrderedComparesRanks(ordering, r, l);
  }

  /** Without a fallback `ordered` is transitive. */
  lemma OrderedTransitive(ordering: seq<Value>, a: Value, b: Value, c: Value)
    requires Ordered(ordering, None)(a, b) <= 0 && Ordered(ordering, None)(b, c) <= 0
    ensures Ordered(ordering, None)(a, c) <= 0
  {
    OrderedComparesRanks(ordering, a, b);
    OrderedComparesRanks(ordering, b, c);
    OrderedComparesRanks(ordering, a, c);
  }

  /** `NaN` is never found by `indexOf`, so it always ranks as unlisted. */
  lemma NaNIsUnlisted(ordering: seq<Value>)
    ensures Rank(ordering, NaN) == |ordering|
  {
  }

  // ---------------------------------------------------------------------------
  // sortCalendars

  datatype Calendar = Calendar(primary: Value, mine: Value, title: string)

  /** `c.toLowerCase()` on ASCII letters. */
  function LowerChar(c: char): char {
    if 'A' <= c <= 'Z' then (c as int + 32) as char else c
  }

  /** `s.toLowerCase()`, letter by letter. */
  function Lower(s: string): (r: string)
    ensures |r| == |s| && forall i :: 0 <= i < |s| ==> r[i] == LowerChar(s[i])
  {
    seq(|s|, i requires 0 <= i < |s| => LowerChar(s[i]))
  }

  /** `x < y` on strings: lexicographic by character, a proper prefix first. */
  predicate Less(x: string, y: string) {
    if x == [] then y != []
    else if y == [] then false
    else if x[0] != y[0] then x[0] < y[0]
    else Less(x[1..], y[1..])
  }

  /** String order is strict and total: of two different strings exactly one is less. */
  lemma {:induction false} LessTotal(x: string, y: string)
    ensures Less(x, y) ==> !Less(y, x)
    ensures x != y ==> Less(x, y) || Less(y, x)
    ensures !Less(x, x)
    decreases |x|
  {
    if x != [] && y != [] && x[0] == y[0] {
      LessTotal(x[1..], y[1..]);
      if x != y {
        assert x == [x[0]] + x[1..] && y == [y[0]] + y[1..];
      }
    }
    if x != [] {
      LessTotal(x[1..], x[1..]);
    }
  }

  /**
   * `sortCalendars(a, b)` as written: primary calendars first, then the
   * user's own, then by lower-cased title; the final fallthrough answers 1,
   * so titles that are equal once lower-cased are reported as out of order.
   */
  function SortCalendars(a: Calendar, b: Calendar): (result: int)
    ensures result == -1 || result == 1
  {
    if Truthy(a.primary) && !Truthy(b.primary) then -1
    else if !Truthy(a.primary) && Truthy(b.primary) then 1
    else if Truthy(a.mine) && !Truthy(b.mine) then -1
    else if !Truthy(a.mine) && Truthy(b.mine) then 1
    else if Less(Lower(a.title), Lower(b.title)) then -1
    else 1
  }

  /**
   * A calendar compared with itself (or with one equal up to case) is
   * reported as sorting after it, in both argument orders; a comparator must
   * answer 0 there, and a negated result when the arguments are swapped.
   */
  lemma SortCalendarsInconsistent(a: Calendar)
    ensures SortCalendars(a, a) == 1
    ensures SortCalendars(a, a) != -SortCalendars(a, a)
  {
    LessTotal(Lower(a.title), Lower(a.title));
  }

  /** The comparator with the tie case answered 0. */
  function SortCalendarsFixed(a: Calendar, b: Calendar): (result: int)
    ensures -1 <= result <= 1
  {
    if Truthy(a.primary) && !Truthy(b.primary) then -1
    else if !Truthy(a.primary) && Truthy(b.primary) then 1
    else if Truthy(a.mine) && !Truthy(b.mine) then -1
    else if !Truthy(a.mine) && Truthy(b.mine) then 1
    else if Less(Lower(a.title), Lower(b.title)) then -1
    else if Lower(a.title) == Lower(b.title) then 0
    else 1
  }

  /**
   * The fixed comparator is consistent: swapping the arguments negates the
   * result, a calendar ties with itself, and it agrees with the original
   * whenever the original's answer is not the tie fallthrough.
   */
  lemma SortCalendarsFixedConsistent(a: Calendar, b: Calendar)
    ensures SortCalendarsFixed(a, b) == -SortCalendarsFixed(b, a)
    ensures SortCalendarsFixed(a, a) == 0
    ensures SortCalendarsFixed(a, b) != 0 ==> SortCalendarsFixed(a, b) == SortCalendars(a, b)
  {
    LessTotal(Lower(a.title), Lower(b.title));
    LessTotal(Lower(a.title), Lower(a.title));
  }
}
