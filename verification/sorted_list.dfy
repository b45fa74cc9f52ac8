/**
 * The public behaviour of SortedLinkedList, with the chain of nodes seen as
 * the sequence of its elements from head to tail. The strategy fixed at
 * construction is passed to every operation that compares.
 */
module SortedList {
  import opened Wrappers
  import opened Ordering

  /** The exceptions the list throws, including the dereference of a null argument. */
  datatype Error = IndexOutOfBounds(index: int, size: int) | NoSuchElement | NullArgument

  /** The sequence `s` with `x` placed at position `p`. */
  function InsertAt(s: seq<Elem>, p: nat, x: Elem): (r: seq<Elem>)
    requires p <= |s|
  {
    s[..p] + [x] + s[p..]
  }

  /** The sequence `s` with position `p` deleted. */
  function DeleteAt(s: seq<Elem>, p: nat): (r: seq<Elem>)
    requires p < |s|
  {
    s[..p] + s[p + 1..]
  }

  lemma InsertAtFacts(s: seq<Elem>, p: nat, x: Elem)
    requires p <= |s|
    ensures |InsertAt(s, p, x)| == |s| + 1
    ensures InsertAt(s, p, x)[p] == x
    ensures forall j :: 0 <= j < p ==> InsertAt(s, p, x)[j] == s[j]
    ensures forall j :: p < j <= |s| ==> InsertAt(s, p, x)[j] == s[j - 1]
    ensures multiset(InsertAt(s, p, x)) == multiset(s) + multiset{x}
    ensures DeleteAt(InsertAt(s, p, x), p) == s
  {
    assert s == s[..p] + s[p..];
    assert DeleteAt(InsertAt(s, p, x), p) == s[..p] + s[p..];
  }

  /** Inserting at either end is prepending or appending. */
  lemma InsertAtEnds(s: seq<Elem>, x: Elem)
    ensures InsertAt(s, 0, x) == [x] + s
    ensures InsertAt(s, |s|, x) == s + [x]
  {
    assert s[..0] == [] && s[0..] == s && s[..|s|] == s && s[|s|..] == [];
  }

  lemma DeleteAtFacts(s: seq<Elem>, p: nat)
    requires p < |s|
    ensures |DeleteAt(s, p)| == |s| - 1
    ensures forall j :: 0 <= j < p ==> DeleteAt(s, p)[j] == s[j]
    ensures forall j :: p <= j < |s| - 1 ==> DeleteAt(s, p)[j] == s[j + 1]
    ensures multiset(DeleteAt(s, p)) == multiset(s) - multiset{s[p]}
  {
    assert s == s[..p] + [s[p]] + s[p + 1..];
  }

  // ---------------------------------------------------------------------
  // Insertion
  // ---------------------------------------------------------------------

  /**
   * Reference placement of a non-null item: the index of the first element
   * the item compares less than or equal to, or the length when there is none.
   */
  function InsertIndex(st: Strategy, s: seq<Elem>, item: Elem): (p: nat)
    ensures p <= |s|
    ensures forall j :: 0 <= j < p ==> Compare(st, item, s[j]) > 0
    ensures p < |s| ==> Compare(st, item, s[p]) <= 0
  {
    if |s| == 0 || Compare(st, item, s[0]) <= 0 then 0
    else 1 + InsertIndex(st, s[1..], item)
  }

  /**
   * The loop of findInsertNodePosition, resumed at iterator index `i`: it
   * visits elements until one compares greater than or equal to the item,
   * and otherwise stops on the last element it visited.
   */
  function ScanFrom(st: Strategy, s: seq<Elem>, item: Elem, i: nat): (p: nat)
    requires i < |s|
    ensures i <= p < |s|
    ensures forall j :: i <= j < p ==> Compare(st, item, s[j]) > 0
    ensures Compare(st, item, s[p]) <= 0 || p == |s| - 1
    decreases |s| - i
  {
    if Compare(st, item, s[i]) <= 0 || i == |s| - 1 then i
    else ScanFrom(st, s, item, i + 1)
  }

  /** findInsertNodePosition: the scan from the head of a non-empty list, for a non-null item. */
  function FindInsertNodePosition(st: Strategy, s: seq<Elem>, item: Elem): (p: nat)
    requires item.Val? && |s| > 0
    ensures p < |s|
    ensures forall j :: 0 <= j < p ==> Compare(st, item, s[j]) > 0
    ensures Compare(st, item, s[p]) <= 0 || p == |s| - 1
  {
    ScanFrom(st, s, item, 0)
  }

  /**
   * When add falls through to the scan, the head compared less than the item
   * and the tail did not. The scan then finds the first element comparing
   * greater than or equal to the item, and that element is never the head,
   * so inserting before it never needs to move `head`.
   */
  lemma ScanFindsNonHeadPosition(st: Strategy, s: seq<Elem>, item: Elem)
    requires item.Val? && |s| > 0
    requires Compare(st, item, s[0]) > 0
    requires Compare(st, item, s[|s| - 1]) <= 0
    ensures 0 < FindInsertNodePosition(st, s, item) < |s|
    ensures FindInsertNodePosition(st, s, item) == InsertIndex(st, s, item)
  {
    var p := FindInsertNodePosition(st, s, item);
    assert Compare(st, item, s[p]) <= 0;
  }

  /**
   * The scan result is pinned down by its contract: the first index whose
   * element compares greater than or equal to the item, or the last index.
   */
  lemma ScanUnique(st: Strategy, s: seq<Elem>, item: Elem, p: nat)
    requires item.Val? && p < |s|
    requires forall j :: 0 <= j < p ==> Compare(st, item, s[j]) > 0
    requires Compare(st, item, s[p]) <= 0 || p == |s| - 1
    ensures FindInsertNodePosition(st, s, item) == p
  {
  }

  /** addNullItem: a null goes after the tail (Trailing) or before the head (Leading). */
  function AddNullItem(st: Strategy, s: seq<Elem>): (r: seq<Elem>)
    ensures st == Trailing ==> r == s + [Null]
    ensures st == Leading ==> r == [Null] + s
  {
    if |s| == 0 then [Null]
    else if st == Trailing then s + [Null]
    else [Null] + s
  }

  /**
   * add(item): null through addNullItem; otherwise a single-element list,
   * the O(1) head and tail shortcuts, or the linear scan. add always
   * returns true, so only the new chain is modelled.
   */
  function Add(st: Strategy, s: seq<Elem>, item: Elem): (r: seq<Elem>)
    ensures |r| == |s| + 1
    ensures multiset(r) == multiset(s) + multiset{item}
  {
    if item.Null? then AddNullItem(st, s)
    else if |s| == 0 then [item]
    else if Compare(st, item, s[0]) <= 0 then [item] + s
    else if Compare(st, item, s[|s| - 1]) > 0 then s + [item]
    else
      var p := FindInsertNodePosition(st, s, item);
      InsertAtFacts(s, p, item);
      InsertAt(s, p, item)
  }

  /**
   * On a sorted list the two shortcuts and the scan all do the same thing:
   * a non-null item goes immediately before the first element it compares
   * less than or equal to, or at the end when there is none.
   */
  lemma AddInsertsBeforeFirstAtLeast(st: Strategy, s: seq<Elem>, item: Elem)
    requires item.Val? && Sorted(st, s)
    ensures Add(st, s, item) == InsertAt(s, InsertIndex(st, s, item), item)
  {
    InsertAtEnds(s, item);
    if |s| == 0 {
    } else if Compare(st, item, s[0]) <= 0 {
    } else if Compare(st, item, s[|s| - 1]) > 0 {
      AboveTailGoesLast(st, s, item);
    } else {
      ScanFindsNonHeadPosition(st, s, item);
    }
  }

  /** In a sorted list, an item placed after the tail is placed after every element. */
  lemma AboveTailGoesLast(st: Strategy, s: seq<Elem>, item: Elem)
    requires item.Val? && Sorted(st, s) && |s| > 0
    requires Compare(st, item, s[|s| - 1]) > 0
    ensures InsertIndex(st, s, item) == |s|
  {
    SortedIffPairwise(st, s);
    LeTotalPreorder(st);
    forall j | 0 <= j < |s|
      ensures Compare(st, item, s[j]) > 0
    {
      assert j == |s| - 1 || Le(st, s[j], s[|s| - 1]);
      assert !Le(st, item, s[j]);
    }
  }

  /** Inserting a non-null item at its reference position keeps the chain sorted. */
  lemma InsertAtInsertIndexSorted(st: Strategy, s: seq<Elem>, item: Elem)
    requires item.Val? && Sorted(st, s)
    ensures Sorted(st, InsertAt(s, InsertIndex(st, s, item), item))
  {
    var p := InsertIndex(st, s, item);
    var r := InsertAt(s, p, item);
    InsertAtFacts(s, p, item);
    SortedIffPairwise(st, s);
    LeTotalPreorder(st);
    forall i, j | 0 <= i < j < |r|
      ensures Le(st, r[i], r[j])
    {
      if j < p {
        assert r[i] == s[i] && r[j] == s[j];
      } else if i > p {
        assert r[i] == s[i - 1] && r[j] == s[j - 1];
      } else if j == p {
        assert Le(st, s[i], item);
      } else if i == p {
        assert Le(st, item, s[p]);
        assert p == j - 1 || Le(st, s[p], s[j - 1]);
      } else {
        assert Le(st, s[i], item);
        assert Le(st, item, s[p]);
        assert p == j - 1 || Le(st, s[p], s[j - 1]);
      }
    }
    SortedIffPairwise(st, r);
  }

  /** Adding a null keeps the chain sorted: it joins the null run at its end. */
  lemma AddNullItemSorted(st: Strategy, s: seq<Elem>)
    requires Sorted(st, s)
    ensures Sorted(st, AddNullItem(st, s))
  {
    var r := AddNullItem(st, s);
    SortedIffPairwise(st, s);
    if st == Trailing {
      assert forall i :: 0 <= i < |s| ==> r[i] == s[i];
    } else {
      assert forall i :: 1 <= i < |r| ==> r[i] == s[i - 1];
    }
    SortedIffPairwise(st, r);
  }

  /** add preserves sortedness, for null and non-null items alike. */
  lemma AddPreservesSorted(st: Strategy, s: seq<Elem>, item: Elem)
    requires Sorted(st, s)
    ensures Sorted(st, Add(st, s, item))
  {
    if item.Null? {
      AddNullItemSorted(st, s);
    } else {
      AddInsertsBeforeFirstAtLeast(st, s, item);
      InsertAtInsertIndexSorted(st, s, item);
    }
  }

  /**
   * The tie-break: a non-null item added to a sorted list lands in front of
   * every element already present that compares equal to it, and every
   * other element keeps its relative order.
   */
  lemma AddPlacesBeforeEquals(st: Strategy, s: seq<Elem>, item: Elem)
    requires item.Val? && Sorted(st, s)
    ensures var r := Add(st, s, item);
      exists p :: 0 <= p < |r| && r[p] == item && DeleteAt(r, p) == s
        && forall j :: 0 <= j < |s| && Equivalent(s[j], item) ==> p <= j
  {
    var p := InsertIndex(st, s, item);
    AddInsertsBeforeFirstAtLeast(st, s, item);
    InsertAtFacts(s, p, item);
  }

  // ---------------------------------------------------------------------
  // Indexed access and removal
  // ---------------------------------------------------------------------

  /** checkIndex: an index outside [0, size) throws IndexOutOfBoundsException. */
  function CheckIndex(s: seq<Elem>, index: int): (r: Option<Error>)
    ensures r.None? <==> 0 <= index < |s|
    ensures r.Some? ==> r.value == IndexOutOfBounds(index, |s|)
  {
    if index < 0 || index >= |s| then Some(IndexOutOfBounds(index, |s|)) else None
  }

  /** get(index): the element at that position, or IndexOutOfBounds outside [0, size), in particular on an empty list. */
  function Get(s: seq<Elem>, index: int): (r: Result<Elem, Error>)
    ensures r.Success? <==> 0 <= index < |s|
    ensures r.Success? ==> r.value == s[index]
    ensures r.Failure? ==> r.error == IndexOutOfBounds(index, |s|)
    ensures |s| == 0 ==> r.Failure?
  {
    match CheckIndex(s, index)
    case Some(e) => Failure(e)
    case None => Success(s[index])
  }

  /** remove(int index): the element at the index and the chain without it. */
  function RemoveAt(s: seq<Elem>, index: int): (r: Result<(Elem, seq<Elem>), Error>)
    ensures r.Success? <==> 0 <= index < |s|
    ensures r.Failure? ==> r.error == IndexOutOfBounds(index, |s|)
    ensures r.Success? ==> |r.value.1| == |s| - 1
    ensures r.Success? ==> InsertAt(r.value.1, index, r.value.0) == s
  {
    match CheckIndex(s, index)
    case Some(e) => Failure(e)
    case None =>
      assert InsertAt(DeleteAt(s, index), index, s[index]) == s;
      Success((s[index], DeleteAt(s, index)))
  }

  /** Deleting any one position keeps a chain sorted. */
  lemma DeleteAtSorted(st: Strategy, s: seq<Elem>, p: nat)
    requires p < |s| && Sorted(st, s)
    ensures Sorted(st, DeleteAt(s, p))
  {
    var r := DeleteAt(s, p);
    assert forall j :: 0 <= j < |r| ==> r[j] == if j < p then s[j] else s[j + 1];
  }

  /**
   * The loop of getNode(T item), resumed at iterator index `i`: the first
   * node whose element compares equal to the item.
   */
  function FindEqualFrom(st: Strategy, s: seq<Elem>, item: Elem, i: nat): (r: Option<nat>)
    requires i <= |s|
    ensures r.Some? ==> i <= r.value < |s| && Compare(st, item, s[r.value]) == 0
    ensures r.Some? ==> forall j :: i <= j < r.value ==> Compare(st, item, s[j]) != 0
    ensures r.None? ==> forall j :: i <= j < |s| ==> Compare(st, item, s[j]) != 0
    decreases |s| - i
  {
    if i == |s| then None
    else if Compare(st, item, s[i]) == 0 then Some(i)
    else FindEqualFrom(st, s, item, i + 1)
  }

  /** The first index whose element compares equal to the item, if any, is what getNode(T) finds. */
  lemma FindEqualUnique(st: Strategy, s: seq<Elem>, item: Elem, p: nat)
    requires p <= |s|
    requires forall j :: 0 <= j < p ==> Compare(st, item, s[j]) != 0
    requires p < |s| ==> Compare(st, item, s[p]) == 0
    ensures FindEqual(st, s, item) == if p < |s| then Some(p) else None
  {
  }

  /** getNode(T item): none on an empty list, else the scan from the head. */
  function FindEqual(st: Strategy, s: seq<Elem>, item: Elem): (r: Option<nat>)
    ensures r.Some? ==> r.value < |s| && Compare(st, item, s[r.value]) == 0
    ensures r.Some? ==> forall j :: 0 <= j < r.value ==> Compare(st, item, s[j]) != 0
    ensures r.None? ==> forall j :: 0 <= j < |s| ==> Compare(st, item, s[j]) != 0
  {
    if |s| == 0 then None else FindEqualFrom(st, s, item, 0)
  }

  /**
   * remove(T item): the first element comparing equal is unlinked and
   * returned; when there is none the chain is unchanged and null is returned.
   */
  function RemoveValue(st: Strategy, s: seq<Elem>, item: Elem): (r: (Elem, seq<Elem>))
    ensures r.1 == s <==> forall j :: 0 <= j < |s| ==> !Equivalent(item, s[j])
    ensures r.1 == s ==> r.0 == Null
    ensures r.1 != s ==> Equivalent(item, r.0) && |r.1| == |s| - 1
    ensures r.1 != s ==> multiset(r.1) + multiset{r.0} == multiset(s)
  {
    match FindEqual(st, s, item)
    case None => (Null, s)
    case Some(p) =>
      DeleteAtFacts(s, p);
      (s[p], DeleteAt(s, p))
  }

  /**
   * remove(T item) deletes the first element equivalent to the item and
   * returns it; without such an element nothing changes and null comes back.
   */
  lemma RemoveValueSpec(st: Strategy, s: seq<Elem>, item: Elem)
    ensures var (removed, rest) := RemoveValue(st, s, item);
      (exists p :: 0 <= p < |s| && Equivalent(item, s[p]) && removed == s[p] && rest == DeleteAt(s, p)
         && forall j :: 0 <= j < p ==> !Equivalent(item, s[j]))
      || ((forall j :: 0 <= j < |s| ==> !Equivalent(item, s[j])) && removed == Null && rest == s)
  {
    var r := FindEqual(st, s, item);
    if r.Some? {
      assert forall j :: 0 <= j < r.value ==> !Equivalent(item, s[j]);
    }
  }

  /** remove(T item) keeps the chain sorted. */
  lemma RemoveValueSorted(st: Strategy, s: seq<Elem>, item: Elem)
    requires Sorted(st, s)
    ensures Sorted(st, RemoveValue(st, s, item).1)
  {
    var r := FindEqual(st, s, item);
    if r.Some? {
      DeleteAtSorted(st, s, r.value);
    }
  }

  /**
   * Removing a null that is present returns null, exactly as removing an
   * item that is absent does: the caller cannot tell the two outcomes apart.
   */
  lemma RemoveNullIndistinguishable(st: Strategy, s: seq<Elem>, absent: Elem)
    requires Null in s
    requires forall j :: 0 <= j < |s| ==> !Equivalent(absent, s[j])
    ensures RemoveValue(st, s, Null).0 == RemoveValue(st, s, absent).0 == Null
    ensures |RemoveValue(st, s, Null).1| == |s| - 1
    ensures RemoveValue(st, s, absent).1 == s
  {
    var r := FindEqual(st, s, Null);
    var k :| 0 <= k < |s| && s[k] == Null;
    assert Compare(st, Null, s[k]) == 0;
    FindEqualUnique(st, s, absent, |s|);
  }

  /**
   * Adding an item to a sorted list and then removing that item gives back
   * exactly the item and the original list. A non-null item is the one
   * removed because the tie-break puts it ahead of every equal element; a
   * null is not necessarily the one removed, but all nulls are alike.
   */
  lemma RemoveAfterAddRestores(st: Strategy, s: seq<Elem>, item: Elem)
    requires Sorted(st, s)
    ensures RemoveValue(st, Add(st, s, item), item) == (item, s)
  {
    if item.Null? {
      RemoveAfterAddNullRestores(st, s);
    } else {
      var p := InsertIndex(st, s, item);
      var r := Add(st, s, item);
      AddInsertsBeforeFirstAtLeast(st, s, item);
      InsertAtFacts(s, p, item);
      forall j | 0 <= j < p
        ensures Compare(st, item, r[j]) != 0
      {
        assert r[j] == s[j];
      }
      FindEqualUnique(st, r, item, p);
    }
  }

  /**
   * The null case: a leading null is found first and removed again; after a
   * trailing null the first null of the list is removed, and the nulls from
   * there on close up behind the values.
   */
  lemma RemoveAfterAddNullRestores(st: Strategy, s: seq<Elem>)
    requires Sorted(st, s)
    ensures RemoveValue(st, Add(st, s, Null), Null) == (Null, s)
  {
    var r := Add(st, s, Null);
    if st == Leading {
      assert r == [Null] + s;
      FindEqualUnique(st, r, Null, 0);
      assert DeleteAt(r, 0) == s;
    } else {
      var f := FindEqual(st, s, Null);
      var p := if f.Some? then f.value else |s|;
      assert r == s + [Null];
      assert forall j :: 0 <= j < p ==> r[j] == s[j];
      FindEqualUnique(st, r, Null, p);
      TrailingNullClosesUp(s, p);
    }
  }

  /** Deleting the first of the trailing nulls from the list with one more null appended gives the list back. */
  lemma TrailingNullClosesUp(s: seq<Elem>, p: nat)
    requires Sorted(Trailing, s) && p <= |s|
    requires p < |s| ==> s[p].Null?
    ensures DeleteAt(s + [Null], p) == s
  {
    var r := s + [Null];
    var d := DeleteAt(r, p);
    DeleteAtFacts(r, p);
    forall j | p <= j < |s|
      ensures d[j] == s[j]
    {
      assert s[j].Null? by {
        assert j == p || s[p].Null?;
      }
      if j + 1 < |s| {
        assert s[j + 1].Null?;
      }
    }
  }

  // ---------------------------------------------------------------------
  // Bulk insertion
  // ---------------------------------------------------------------------

  /** forEach(this::add): add every element of `c`, in order. */
  function AddEach(st: Strategy, s: seq<Elem>, c: seq<Elem>): (r: seq<Elem>)
    ensures |r| == |s| + |c|
    ensures multiset(r) == multiset(s) + multiset(c)
    ensures Sorted(st, s) ==> Sorted(st, r)
    decreases |c|
  {
    if |c| == 0 then s
    else
      assert c == [c[0]] + c[1..];
      var s' := Add(st, s, c[0]);
      AddPreservesSortedIf(st, s, c[0]);
      AddEach(st, s', c[1..])
  }

  lemma AddPreservesSortedIf(st: Strategy, s: seq<Elem>, item: Elem)
    ensures Sorted(st, s) ==> Sorted(st, Add(st, s, item))
  {
    if Sorted(st, s) {
      AddPreservesSorted(st, s, item);
    }
  }

  /**
   * addAll(Collection): false and no change for a null (`None`) or empty
   * collection; otherwise every element is added in order and true returned.
   */
  function AddAll(st: Strategy, s: seq<Elem>, c: Option<seq<Elem>>): (r: (bool, seq<Elem>))
    ensures r.0 <==> c.Some? && |c.value| > 0
    ensures !r.0 ==> r.1 == s
    ensures r.0 ==> r.1 == AddEach(st, s, c.value)
  {
    if c.None? || |c.value| == 0 then (false, s)
    else (true, AddEach(st, s, c.value))
  }

  /**
   * addAll(SortedLinkedList) as written: the emptiness test is made on the
   * receiver, not on the argument, and a null (`None`) argument is not
   * tested at all. A non-empty receiver then walks the argument with its own
   * iterator: a null argument throws NullPointerException, and an empty one
   * makes the iterator constructor throw.
   */
  function AddAllListAsWritten(st: Strategy, s: seq<Elem>, other: Option<seq<Elem>>): (r: Result<(bool, seq<Elem>), Error>)
    ensures |s| == 0 ==> r == Success((false, s))
    ensures |s| > 0 && other.None? ==> r == Failure(NullArgument)
    ensures |s| > 0 && other == Some([]) ==> r == Failure(IndexOutOfBounds(0, 0))
    ensures |s| > 0 && other.Some? && |other.value| > 0 ==> r == Success((true, AddEach(st, s, other.value)))
  {
    if |s| == 0 then Success((false, s))
    else if other.None? then Failure(NullArgument)
    else match Iterate(other.value)
      case Failure(e) => Failure(e)
      case Success(items) => Success((true, AddEach(st, s, items)))
  }

  /**
   * The copy constructor SortedLinkedList(SortedLinkedList) calls the
   * as-written addAll on a fresh, empty list, so it copies nothing.
   */
  lemma CopyConstructorAsWrittenLosesElements()
    ensures AddAllListAsWritten(Trailing, [], Some([Val(1, 0)])) == Success((false, []))
  {
  }

  /**
   * addAll(SortedLinkedList) as evidently intended, the same guard as
   * addAll(Collection): false and no change for a null or empty argument,
   * otherwise every element of the argument is added.
   */
  function AddAllList(st: Strategy, s: seq<Elem>, other: Option<seq<Elem>>): (r: (bool, seq<Elem>))
    ensures r.0 <==> other.Some? && |other.value| > 0
    ensures other.None? ==> r.1 == s
    ensures other.Some? ==> |r.1| == |s| + |other.value|
    ensures other.Some? ==> multiset(r.1) == multiset(s) + multiset(other.value)
    ensures Sorted(st, s) ==> Sorted(st, r.1)
  {
    if other.None? || |other.value| == 0 then (false, s)
    else (true, AddEach(st, s, other.value))
  }

  /** The copy constructor, with the intended addAll: a sorted copy holding every element, empty for a null argument. */
  function CopyOf(st: Strategy, other: Option<seq<Elem>>): (r: seq<Elem>)
    ensures Sorted(st, r)
    ensures other.None? ==> r == []
    ensures other.Some? ==> multiset(r) == multiset(other.value)
  {
    AddAllList(st, [], other).1
  }

  /** The constructors taking a collection: a fresh list with the given strategy, then addAll. */
  function FromCollection(st: Strategy, c: Option<seq<Elem>>): (r: seq<Elem>)
    ensures Sorted(st, r)
    ensures c.None? ==> r == []
    ensures c.Some? ==> multiset(r) == multiset(c.value)
  {
    AddAll(st, [], c).1
  }

  // ---------------------------------------------------------------------
  // Uniqueness of the sorted arrangement
  // ---------------------------------------------------------------------

  /** Two chains that agree position by position up to the comparator's equality. */
  predicate EquivalentSeq(a: seq<Elem>, b: seq<Elem>) {
    |a| == |b| && forall i :: 0 <= i < |a| ==> Equivalent(a[i], b[i])
  }

  /**
   * A sorted chain is determined by its elements up to the comparator's
   * equality: two sorted arrangements of the same multiset of elements hold
   * equivalent elements at every position.
   */
  lemma {:induction false} SortedUnique(st: Strategy, a: seq<Elem>, b: seq<Elem>)
    requires Sorted(st, a) && Sorted(st, b) && multiset(a) == multiset(b)
    ensures EquivalentSeq(a, b)
    decreases |a|
  {
    assert |a| == |multiset(a)| == |multiset(b)| == |b|;
    if |a| == 0 {
      return;
    }
    assert a[0] in multiset(b);
    var j :| 0 <= j < |b| && b[j] == a[0];
    SortedHeadBlock(st, a, b, j);
    var a' := DeleteAt(a, 0);
    var b' := DeleteAt(b, j);
    DeleteAtFacts(a, 0);
    DeleteAtFacts(b, j);
    assert multiset(a') == multiset(b');
    DeleteAtSorted(st, a, 0);
    DeleteAtSorted(st, b, j);
    SortedUnique(st, a', b');
    HeadBlockShift(a, b, j);
  }

  /**
   * When the head of `a` sits at position `j` of `b` and everything in `b`
   * up to `j` is equivalent to it, the two agree position by position as
   * soon as they agree with those two elements removed.
   */
  lemma HeadBlockShift(a: seq<Elem>, b: seq<Elem>, j: nat)
    requires j < |b| && |a| == |b| && b[j] == a[0]
    requires forall i :: 0 <= i <= j ==> Equivalent(b[i], a[0])
    requires EquivalentSeq(DeleteAt(a, 0), DeleteAt(b, j))
    ensures EquivalentSeq(a, b)
  {
    var a' := DeleteAt(a, 0);
    var b' := DeleteAt(b, j);
    DeleteAtFacts(a, 0);
    DeleteAtFacts(b, j);
    forall i | 1 <= i < |a|
      ensures Equivalent(a[i], b[i])
    {
      assert a'[i - 1] == a[i];
      if i > j {
        assert b'[i - 1] == b[i];
      } else {
        assert b'[i - 1] == b[i - 1];
      }
    }
  }

  /**
   * The first element of one sorted arrangement, found at position `j` of
   * another, is equivalent to everything in that one up to `j`.
   */
  lemma SortedHeadBlock(st: Strategy, a: seq<Elem>, b: seq<Elem>, j: nat)
    requires Sorted(st, a) && Sorted(st, b) && multiset(a) == multiset(b)
    requires j < |b| && |a| > 0 && b[j] == a[0]
    ensures forall i :: 0 <= i <= j ==> Equivalent(b[i], a[0])
  {
    SortedIffPairwise(st, a);
    SortedIffPairwise(st, b);
    LeTotalPreorder(st);
    assert b[0] in multiset(a);
    var k :| 0 <= k < |a| && a[k] == b[0];
    assert Le(st, a[0], a[k]);
    forall i | 0 <= i <= j
      ensures Equivalent(b[i], a[0])
    {
      assert Le(st, b[0], b[i]) && Le(st, b[i], b[j]);
    }
  }

  /**
   * Two lists built by adding the same elements in any two orders hold
   * equivalent elements at every position.
   */
  lemma InsertionOrderIrrelevant(st: Strategy, c1: seq<Elem>, c2: seq<Elem>)
    requires multiset(c1) == multiset(c2)
    ensures EquivalentSeq(AddEach(st, [], c1), AddEach(st, [], c2))
  {
    SortedUnique(st, AddEach(st, [], c1), AddEach(st, [], c2));
  }

  /**
   * Round trip: rebuilding a sorted list from its toList through the
   * collection constructor gives a list with an equivalent element at every
   * position (equal elements may come back in a different order).
   */
  lemma RoundTrip(st: Strategy, s: seq<Elem>)
    requires Sorted(st, s)
    ensures EquivalentSeq(FromCollection(st, Some(s)), s)
  {
    SortedUnique(st, FromCollection(st, Some(s)), s);
  }

  // ---------------------------------------------------------------------
  // Iteration
  // ---------------------------------------------------------------------

  /** SortedListIterator: the index of the node `next` will return. */
  datatype Iter = Iter(nextIndex: nat)

  /**
   * The iterator constructor: it calls checkIndex(index) first, so creating
   * an iterator over an empty list throws IndexOutOfBoundsException.
   */
  function NewIterator(s: seq<Elem>, index: int): (r: Result<Iter, Error>)
    ensures r.Success? <==> 0 <= index < |s|
    ensures r.Success? ==> r.value.nextIndex == index
    ensures r.Failure? ==> r.error == IndexOutOfBounds(index, |s|)
  {
    match CheckIndex(s, index)
    case Some(e) => Failure(e)
    case None => Success(Iter(index))
  }

  /** hasNext: true while the next index is below the size. */
  predicate HasNext(s: seq<Elem>, it: Iter) {
    it.nextIndex < |s|
  }

  /** next: the element at the next index and the advanced iterator, or NoSuchElementException. */
  function Next(s: seq<Elem>, it: Iter): (r: Result<(Elem, Iter), Error>)
    ensures r.Success? <==> HasNext(s, it)
    ensures r.Failure? ==> r.error == NoSuchElement
    ensures r.Success? ==> r.value.0 == s[it.nextIndex] && r.value.1.nextIndex == it.nextIndex + 1
  {
    if !HasNext(s, it) then Failure(NoSuchElement)
    else Success((s[it.nextIndex], Iter(it.nextIndex + 1)))
  }

  /** The elements an iterator yields from its position until hasNext turns false. */
  function Drain(s: seq<Elem>, it: Iter): (r: seq<Elem>)
    ensures |r| == if HasNext(s, it) then |s| - it.nextIndex else 0
    ensures HasNext(s, it) ==> r[0] == s[it.nextIndex]
    decreases |s| - it.nextIndex
  {
    match Next(s, it)
    case Failure(_) => []
    case Success((x, it')) => [x] + Drain(s, it')
  }

  /** An iterator yields exactly the elements from its position to the tail, in order. */
  lemma {:induction false} DrainYieldsSuffix(s: seq<Elem>, it: Iter)
    requires it.nextIndex <= |s|
    ensures Drain(s, it) == s[it.nextIndex..]
    decreases |s| - it.nextIndex
  {
    if it.nextIndex < |s| {
      DrainYieldsSuffix(s, Iter(it.nextIndex + 1));
      assert s[it.nextIndex..] == [s[it.nextIndex]] + s[it.nextIndex + 1..];
    }
  }

  /** A for-each loop over a list: a fresh iterator drained to the end. */
  function Iterate(s: seq<Elem>): (r: Result<seq<Elem>, Error>)
    ensures r.Failure? <==> |s| == 0
    ensures r.Failure? ==> r.error == IndexOutOfBounds(0, 0)
    ensures r.Success? ==> r.value == s
  {
    match NewIterator(s, 0)
    case Failure(e) => Failure(e)
    case Success(it) =>
      DrainYieldsSuffix(s, it);
      Success(Drain(s, it))
  }

  /**
   * toList: an empty list without touching the iterator when the receiver is
   * empty, otherwise the elements the iterator yields from head to tail.
   */
  method ToList(s: seq<Elem>) returns (r: seq<Elem>)
    ensures r == s
  {
    if |s| == 0 {
      return [];
    }
    var start := NewIterator(s, 0);
    var it := start.value;
    r := [];
    while HasNext(s, it)
      invariant it.nextIndex <= |s|
      invariant r == s[..it.nextIndex]
      decreases |s| - it.nextIndex
    {
      var step := Next(s, it);
      r := r + [step.value.0];
      it := step.value.1;
    }
  }

  /** clear: the chain is emptied; the strategy is kept by the caller. */
  function Clear(s: seq<Elem>): (r: seq<Elem>)
    ensures |r| == 0
  {
    []
  }
}
