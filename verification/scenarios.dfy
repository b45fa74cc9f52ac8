/**
 * The results of concrete add, get and remove sequences, stated as lemmas,
 * like those the repository's tests use with ascending integer keys.
 */
module Scenarios {
  import opened Wrappers
  import opened Ordering
  import opened SortedList

  /** addAll over four elements is four adds in a row. */
  lemma AddEachFour(st: Strategy, a: Elem, b: Elem, c: Elem, d: Elem)
    ensures AddEach(st, [], [a, b, c, d]) == Add(st, Add(st, Add(st, Add(st, [], a), b), c), d)
  {
    var s1 := Add(st, [], a);
    var s2 := Add(st, s1, b);
    var s3 := Add(st, s2, c);
    AddEachStep(st, [], [a, b, c, d]);
    assert [a, b, c, d][1..] == [b, c, d];
    AddEachStep(st, s1, [b, c, d]);
    assert [b, c, d][1..] == [c, d];
    AddEachStep(st, s2, [c, d]);
    assert [c, d][1..] == [d];
    AddEachStep(st, s3, [d]);
    assert [d][1..] == [];
  }

  /** One step of addAll: the first element is added, then the rest. */
  lemma AddEachStep(st: Strategy, s: seq<Elem>, c: seq<Elem>)
    requires |c| > 0
    ensures AddEach(st, s, c) == AddEach(st, Add(st, s, c[0]), c[1..])
  {
  }

  /** Adding 100, null, 4, 25 to an empty Trailing list gives [4, 25, 100, null]. */
  lemma TrailingNullsGoLast()
    ensures AddEach(Trailing, [], [Val(100, 0), Null, Val(4, 0), Val(25, 0)])
            == [Val(4, 0), Val(25, 0), Val(100, 0), Null]
  {
    AddEachFour(Trailing, Val(100, 0), Null, Val(4, 0), Val(25, 0));
    TrailingFirstSteps();
    TrailingScanStep();
  }

  /** The first three steps of the Trailing run: into an empty list, after the tail, before the head. */
  lemma TrailingFirstSteps()
    ensures Add(Trailing, [], Val(100, 0)) == [Val(100, 0)]
    ensures Add(Trailing, [Val(100, 0)], Null) == [Val(100, 0), Null]
    ensures Add(Trailing, [Val(100, 0), Null], Val(4, 0)) == [Val(4, 0), Val(100, 0), Null]
  {
    assert Add(Trailing, [], Val(100, 0)) == [Val(100, 0)];
    assert Add(Trailing, [Val(100, 0)], Null) == [Val(100, 0), Null];
  }

  /** The last step of the Trailing run goes through the scan. */
  lemma TrailingScanStep()
    ensures Add(Trailing, [Val(4, 0), Val(100, 0), Null], Val(25, 0)) == [Val(4, 0), Val(25, 0), Val(100, 0), Null]
  {
    var s3 := [Val(4, 0), Val(100, 0), Null];
    assert ScanFrom(Trailing, s3, Val(25, 0), 1) == 1;
    assert FindInsertNodePosition(Trailing, s3, Val(25, 0)) == 1;
    assert s3[..1] == [Val(4, 0)] && s3[1..] == [Val(100, 0), Null];
  }

  /** The same additions to a Leading list give [null, 4, 25, 100]. */
  lemma LeadingNullsGoFirst()
    ensures AddEach(Leading, [], [Val(100, 0), Null, Val(4, 0), Val(25, 0)])
            == [Null, Val(4, 0), Val(25, 0), Val(100, 0)]
  {
    AddEachFour(Leading, Val(100, 0), Null, Val(4, 0), Val(25, 0));
    assert Add(Leading, [], Val(100, 0)) == [Val(100, 0)];
    assert Add(Leading, [Val(100, 0)], Null) == [Null, Val(100, 0)];
    LeadingScanSteps();
  }

  /** The last two steps of the Leading run go through the scan. */
  lemma LeadingScanSteps()
    ensures Add(Leading, [Null, Val(100, 0)], Val(4, 0)) == [Null, Val(4, 0), Val(100, 0)]
    ensures Add(Leading, [Null, Val(4, 0), Val(100, 0)], Val(25, 0)) == [Null, Val(4, 0), Val(25, 0), Val(100, 0)]
  {
    LeadingThirdStep();
    LeadingFourthStep();
  }

  lemma LeadingThirdStep()
    ensures Add(Leading, [Null, Val(100, 0)], Val(4, 0)) == [Null, Val(4, 0), Val(100, 0)]
  {
    var s2 := [Null, Val(100, 0)];
    assert Compare(Leading, Val(4, 0), Null) > 0;
    assert Compare(Leading, Val(4, 0), Val(100, 0)) < 0;
    assert ScanFrom(Leading, s2, Val(4, 0), 1) == 1;
    assert FindInsertNodePosition(Leading, s2, Val(4, 0)) == 1;
    assert s2[..1] == [Null] && s2[1..] == [Val(100, 0)];
  }

  lemma LeadingFourthStep()
    ensures Add(Leading, [Null, Val(4, 0), Val(100, 0)], Val(25, 0)) == [Null, Val(4, 0), Val(25, 0), Val(100, 0)]
  {
    var s3 := [Null, Val(4, 0), Val(100, 0)];
    assert Compare(Leading, Val(25, 0), Null) > 0;
    assert Compare(Leading, Val(25, 0), Val(4, 0)) > 0;
    assert Compare(Leading, Val(25, 0), Val(100, 0)) < 0;
    assert ScanFrom(Leading, s3, Val(25, 0), 2) == 2;
    assert ScanFrom(Leading, s3, Val(25, 0), 1) == 2;
    assert FindInsertNodePosition(Leading, s3, Val(25, 0)) == 2;
    assert s3[..2] == [Null, Val(4, 0)] && s3[2..] == [Val(100, 0)];
  }

  /** Two nulls and then 1024 under Trailing: 1024 is at index 0, nulls at 1 and 2. */
  lemma NullsThenValueTrailing()
    ensures var s := Add(Trailing, Add(Trailing, Add(Trailing, [], Null), Null), Val(1024, 0));
      && Get(s, 0) == Success(Val(1024, 0)) && Get(s, 1) == Success(Null) && Get(s, 2) == Success(Null)
      && Get(s, 3) == Failure(IndexOutOfBounds(3, 3)) && Get(s, -1) == Failure(IndexOutOfBounds(-1, 3))
  {
    var s2 := Add(Trailing, Add(Trailing, [], Null), Null);
    assert s2 == [Null, Null];
    assert Add(Trailing, s2, Val(1024, 0)) == [Val(1024, 0), Null, Null];
  }

  /** The same under Leading: nulls at 0 and 1, 1024 at index 2. */
  lemma NullsThenValueLeading()
    ensures Add(Leading, Add(Leading, Add(Leading, [], Null), Null), Val(1024, 0)) == [Null, Null, Val(1024, 0)]
  {
    var s2 := Add(Leading, Add(Leading, [], Null), Null);
    assert s2 == [Null, Null];
  }

  /** Equal keys: the later addition lands in front of the earlier one. */
  lemma EqualKeysReverse(st: Strategy)
    ensures Add(st, Add(st, [], Val(5, 0)), Val(5, 1)) == [Val(5, 1), Val(5, 0)]
  {
  }

  /** Removing a value that is not present returns null and changes nothing. */
  lemma RemoveMissingValue()
    ensures RemoveValue(Trailing, [Val(4, 0), Null], Val(1024, 0)) == (Null, [Val(4, 0), Null])
  {
  }

  /** Every index of an empty list is out of bounds, and so is creating an iterator over it. */
  lemma EmptyListBounds(index: int)
    ensures Get([], index) == Failure(IndexOutOfBounds(index, 0))
    ensures RemoveAt([], index) == Failure(IndexOutOfBounds(index, 0))
    ensures NewIterator([], 0) == Failure(IndexOutOfBounds(0, 0))
  {
  }
}
