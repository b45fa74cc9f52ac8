/**
 * The element order of SortedLinkedList: the null-aware DefaultComparator,
 * the placement order it is meant to realise, and sortedness of a chain.
 */
module Ordering {

  /** AddNullsStrategy: where null elements are kept. */
  datatype Strategy = Leading | Trailing

  /**
   * A list element. `Null` is Java's null reference; a `Val` carries the
   * comparable key and a `tag` that no comparison looks at, so that two
   * equal-comparing elements can still be told apart by their position.
   */
  datatype Elem = Null | Val(key: int, tag: int)

  /** Integer.compareTo on the keys. */
  function KeyCompare(x: int, y: int): (r: int)
    ensures r < 0 <==> x < y
    ensures r == 0 <==> x == y
    ensures r > 0 <==> x > y
  {
    if x < y then -1 else if x == y then 0 else 1
  }

  /**
   * The placement order the list is kept in: keys ascending, nulls before
   * every value under `Leading` and after every value under `Trailing`.
   */
  predicate Le(st: Strategy, a: Elem, b: Elem) {
    match (a, b)
    case (Null, Null) => true
    case (Null, Val(_, _)) => st == Leading
    case (Val(_, _), Null) => st == Trailing
    case (Val(x, _), Val(y, _)) => x <= y
  }

  /** Two elements the comparator calls equal: both null, or equal keys. */
  predicate Equivalent(a: Elem, b: Elem) {
    (a.Null? && b.Null?) || (a.Val? && b.Val? && a.key == b.key)
  }

  /**
   * DefaultComparator.compare. For a non-null first argument it agrees with
   * the placement order `Le`; for a null first argument it does not (see
   * CompareNullFirstQuirk), which is harmless because the list only ever
   * compares a null first argument for equality.
   */
  function Compare(st: Strategy, a: Elem, b: Elem): (r: int)
    ensures r == 0 <==> Equivalent(a, b)
    ensures a.Val? ==> (r <= 0 <==> Le(st, a, b))
    ensures a.Val? ==> (r < 0 <==> Le(st, a, b) && !Le(st, b, a))
  {
    if a == b then 0
    else if a.Null? then (if st == Leading then 1 else -1)
    else if b.Null? then (if st == Trailing then -1 else 1)
    else KeyCompare(a.key, b.key)
  }

  /** Null against null is 0; two values compare by key; a value sits before trailing and after leading nulls. */
  lemma CompareSemantics(st: Strategy, x: Elem)
    requires x.Val?
    ensures Compare(st, Null, Null) == 0
    ensures st == Trailing ==> Compare(st, x, Null) < 0
    ensures st == Leading ==> Compare(st, x, Null) > 0
    ensures forall y: Elem :: y.Val? ==> (Compare(st, x, y) < 0 <==> x.key < y.key)
    ensures forall y: Elem :: y.Val? ==> (Compare(st, x, y) == 0 <==> x.key == y.key)
  {
  }

  /**
   * The comparator is not antisymmetric when its first argument is null:
   * compare(null, x) has the same sign as compare(x, null), not the opposite.
   */
  lemma CompareNullFirstQuirk(st: Strategy, x: Elem)
    requires x.Val?
    ensures Compare(st, Null, x) == Compare(st, x, Null) != 0
    ensures Le(st, Null, x) != Le(st, x, Null)
  {
  }

  /** `Le` is a total preorder whose symmetric part is `Equivalent`. */
  lemma LeTotalPreorder(st: Strategy)
    ensures forall a: Elem :: Le(st, a, a)
    ensures forall a: Elem, b: Elem :: Le(st, a, b) || Le(st, b, a)
    ensures forall a: Elem, b: Elem, c: Elem :: Le(st, a, b) && Le(st, b, c) ==> Le(st, a, c)
    ensures forall a: Elem, b: Elem :: Le(st, a, b) && Le(st, b, a) <==> Equivalent(a, b)
  {
  }

  /**
   * A chain is sorted when the keys of its values never decrease and its
   * nulls form one run at the end the strategy names.
   */
  predicate Sorted(st: Strategy, s: seq<Elem>) {
    && (forall i, j :: 0 <= i < j < |s| && s[i].Val? && s[j].Val? ==> s[i].key <= s[j].key)
    && (st == Trailing ==> forall i, j :: 0 <= i < j < |s| && s[i].Null? ==> s[j].Null?)
    && (st == Leading ==> forall i, j :: 0 <= i < j < |s| && s[j].Null? ==> s[i].Null?)
  }

  /** Sortedness is exactly "every earlier element is placed no later than every later one". */
  lemma SortedIffPairwise(st: Strategy, s: seq<Elem>)
    ensures Sorted(st, s) <==> forall i, j :: 0 <= i < j < |s| ==> Le(st, s[i], s[j])
  {
  }

  /**
   * Sortedness follows from, and implies, the order of neighbouring elements:
   * for every adjacent pair a, b of the chain, a is placed no later than b.
   */
  lemma {:induction false} SortedIffAdjacent(st: Strategy, s: seq<Elem>)
    ensures Sorted(st, s) <==> forall i :: 0 <= i < |s| - 1 ==> Le(st, s[i], s[i + 1])
  {
    SortedIffPairwise(st, s);
    if forall i :: 0 <= i < |s| - 1 ==> Le(st, s[i], s[i + 1]) {
      forall i, j | 0 <= i < j < |s|
        ensures Le(st, s[i], s[j])
      {
        AdjacentReaches(st, s, i, j);
      }
    }
  }

  lemma {:induction false} AdjacentReaches(st: Strategy, s: seq<Elem>, i: int, j: int)
    requires forall k :: 0 <= k < |s| - 1 ==> Le(st, s[k], s[k + 1])
    requires 0 <= i <= j < |s|
    ensures Le(st, s[i], s[j])
    decreases j - i
  {
    LeTotalPreorder(st);
    if i < j {
      AdjacentReaches(st, s, i + 1, j);
    }
  }
}
