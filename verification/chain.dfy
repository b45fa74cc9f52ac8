/**
 * The doubly linked chain itself. Java node references are modelled as
 * handles into an arena of nodes (`Nil` is the null reference); the ghost
 * sequence `order` lists the handles from head to tail, and every method is
 * proved to keep the prev/next links consistent with it and to do to the
 * elements what the functional model in SortedList says.
 */
module Chain {
  import opened Wrappers
  import opened Ordering
  import SortedList

  /** The null node reference. */
  const Nil: int := -1

  /** Node: one element and the handles of its successor and predecessor. */
  datatype Node = Node(item: Elem, next: int, prev: int)

  /** The list's fields: null strategy, the node arena, head, tail and size. */
  datatype Chain = Chain(strategy: Strategy, nodes: seq<Node>, head: int, tail: int, size: int)

  /** Every handle of `order` addresses a node of the arena. */
  predicate InArena(nodes: seq<Node>, order: seq<int>) {
    forall i :: 0 <= i < |order| ==> 0 <= order[i] < |nodes|
  }

  /** The handle after position `i` of the chain, or Nil after the last one. */
  function NextOf(order: seq<int>, i: int): int
    requires 0 <= i < |order|
  {
    if i + 1 < |order| then order[i + 1] else Nil
  }

  /** The handle before position `i` of the chain, or Nil before the first one. */
  function PrevOf(order: seq<int>, i: int): int
    requires 0 <= i < |order|
  {
    if i > 0 then order[i - 1] else Nil
  }

  /**
   * The nodes at the handles of `order` form one doubly linked chain in
   * that order: no node twice, each `next` the following handle and each
   * `prev` the preceding one, with Nil at both ends.
   */
  predicate Linked(nodes: seq<Node>, order: seq<int>) {
    && InArena(nodes, order)
    && (forall i, j :: 0 <= i < j < |order| ==> order[i] != order[j])
    && (forall i {:trigger nodes[order[i]]} :: 0 <= i < |order| ==> nodes[order[i]].next == NextOf(order, i))
    && (forall i {:trigger nodes[order[i]]} :: 0 <= i < |order| ==> nodes[order[i]].prev == PrevOf(order, i))
  }

  /** The list invariant: linked chain, `head`/`tail` at its ends, `size` its length. */
  predicate Valid(c: Chain, order: seq<int>) {
    && Linked(c.nodes, order)
    && c.size == |order|
    && c.head == (if |order| == 0 then Nil else order[0])
    && c.tail == (if |order| == 0 then Nil else order[|order| - 1])
  }

  /** The elements of the chain from head to tail. */
  function Items(nodes: seq<Node>, order: seq<int>): (r: seq<Elem>)
    requires InArena(nodes, order)
    ensures |r| == |order|
    ensures forall i {:trigger r[i]} :: 0 <= i < |order| ==> r[i] == nodes[order[i]].item
  {
    seq(|order|, i requires 0 <= i < |order| => nodes[order[i]].item)
  }

  /** isEmpty: on a valid list, size 0 exactly when there is no head and no tail. */
  lemma EmptyIffNoEnds(c: Chain, order: seq<int>)
    requires Valid(c, order)
    ensures c.size == 0 <==> c.head == Nil
    ensures c.size == 0 <==> c.tail == Nil
    ensures c.size == 0 <==> Items(c.nodes, order) == []
  {
  }

  /** The chain with handle `m` spliced in at position `pos`. */
  function Spliced(order: seq<int>, pos: nat, m: int): (o: seq<int>)
    requires pos <= |order|
    ensures |o| == |order| + 1
    ensures forall k :: 0 <= k < pos ==> o[k] == order[k]
    ensures o[pos] == m
    ensures forall k :: pos < k < |o| ==> o[k] == order[k - 1]
  {
    order[..pos] + [m] + order[pos..]
  }

  /** Splicing a handle that is not yet in the arena keeps the handles distinct. */
  lemma SpliceDistinct(nodes: seq<Node>, order: seq<int>, pos: nat, m: int)
    requires Linked(nodes, order) && pos <= |order| && m == |nodes|
    ensures forall i, j :: 0 <= i < j < |Spliced(order, pos, m)| ==> Spliced(order, pos, m)[i] != Spliced(order, pos, m)[j]
  {
    var o := Spliced(order, pos, m);
    forall i, j | 0 <= i < j < |o|
      ensures o[i] != o[j]
    {
      if j == pos {
        assert o[i] == order[i] < |nodes|;
      } else if i == pos {
        assert o[j] == order[j - 1] < |nodes|;
      } else {
        var i' := if i < pos then i else i - 1;
        var j' := if j < pos then j else j - 1;
        assert o[i] == order[i'] && o[j] == order[j'] && i' < j';
      }
    }
  }

  /** The nodes a splice at `pos` leaves alone: those away from positions pos - 1 and pos. */
  predicate SpliceFrame(nodes: seq<Node>, nodes': seq<Node>, order: seq<int>, pos: nat)
    requires pos <= |order| && |nodes| <= |nodes'|
  {
    forall h :: 0 <= h < |nodes| && (pos == |order| || h != order[pos]) && (pos == 0 || h != order[pos - 1])
      ==> nodes'[h] == nodes[h]
  }

  /** The splice preconditions: the new node and its two neighbours are relinked, nothing else moves. */
  predicate SpliceUpdate(nodes: seq<Node>, nodes': seq<Node>, order: seq<int>, pos: nat, m: int, item: Elem) {
    && Linked(nodes, order) && pos <= |order| && m == |nodes| && |nodes'| == |nodes| + 1
    && nodes'[m] == Node(item, if pos < |order| then order[pos] else Nil, if pos > 0 then order[pos - 1] else Nil)
    && (pos < |order| ==> nodes'[order[pos]] == nodes[order[pos]].(prev := m))
    && (pos > 0 ==> nodes'[order[pos - 1]] == nodes[order[pos - 1]].(next := m))
    && SpliceFrame(nodes, nodes', order, pos)
  }

  lemma SpliceLinkAt(nodes: seq<Node>, nodes': seq<Node>, order: seq<int>, pos: nat, m: int, item: Elem, k: nat)
    requires SpliceUpdate(nodes, nodes', order, pos, m, item)
    requires k <= |order|
    ensures nodes'[Spliced(order, pos, m)[k]].next == NextOf(Spliced(order, pos, m), k)
    ensures nodes'[Spliced(order, pos, m)[k]].prev == PrevOf(Spliced(order, pos, m), k)
    ensures k != pos ==> nodes'[Spliced(order, pos, m)[k]].item == nodes[Spliced(order, pos, m)[k]].item
  {
    var o := Spliced(order, pos, m);
    if k < pos {
      var h := order[k];
      assert o[k] == h;
      if k < pos - 1 {
        assert h != order[pos - 1];
        assert pos == |order| || h != order[pos];
        assert nodes'[h] == nodes[h];
        assert NextOf(o, k) == order[k + 1] == NextOf(order, k);
      } else {
        assert pos == |order| || h != order[pos];
      }
      assert PrevOf(o, k) == PrevOf(order, k);
    } else if k > pos {
      var h := order[k - 1];
      assert o[k] == h;
      if k > pos + 1 {
        assert h != order[pos];
        assert pos == 0 || h != order[pos - 1];
        assert nodes'[h] == nodes[h];
        assert PrevOf(o, k) == order[k - 2] == PrevOf(order, k - 1);
      } else {
        assert pos == 0 || h != order[pos - 1];
      }
      assert NextOf(o, k) == NextOf(order, k - 1);
    }
  }

  /**
   * Linking a fresh node `m` in at position `pos` touches only `m` and its
   * two new neighbours; when exactly those are updated, the result is the
   * spliced chain with the new element at `pos`.
   */
  lemma SpliceLinks(nodes: seq<Node>, nodes': seq<Node>, order: seq<int>, pos: nat, m: int, item: Elem)
    requires SpliceUpdate(nodes, nodes', order, pos, m, item)
    ensures Linked(nodes', Spliced(order, pos, m))
    ensures Items(nodes', Spliced(order, pos, m)) == SortedList.InsertAt(Items(nodes, order), pos, item)
  {
    var o := Spliced(order, pos, m);
    assert InArena(nodes', o);
    SpliceDistinct(nodes, order, pos, m);
    forall k | 0 <= k < |o|
      ensures nodes'[o[k]].next == NextOf(o, k)
      ensures nodes'[o[k]].prev == PrevOf(o, k)
    {
      SpliceLinkAt(nodes, nodes', order, pos, m, item, k);
    }
    SpliceItems(nodes, nodes', order, pos, m, item);
  }

  /** The elements of the spliced chain: the old ones with `item` at `pos`. */
  lemma SpliceItems(nodes: seq<Node>, nodes': seq<Node>, order: seq<int>, pos: nat, m: int, item: Elem)
    requires SpliceUpdate(nodes, nodes', order, pos, m, item)
    requires InArena(nodes', Spliced(order, pos, m))
    ensures Items(nodes', Spliced(order, pos, m)) == SortedList.InsertAt(Items(nodes, order), pos, item)
  {
    var o := Spliced(order, pos, m);
    var s := Items(nodes, order);
    SortedList.InsertAtFacts(s, pos, item);
    forall k | 0 <= k < |o|
      ensures Items(nodes', o)[k] == SortedList.InsertAt(s, pos, item)[k]
    {
      SpliceLinkAt(nodes, nodes', order, pos, m, item, k);
    }
  }

  /**
   * insertBefore(node, item): a new node linked between `node` and its
   * predecessor. `head` and `size` are left to the caller.
   */
  method InsertBefore(nodes: seq<Node>, node: int, item: Elem, ghost order: seq<int>, ghost pos: nat)
    returns (nodes': seq<Node>, newNode: int)
    requires Linked(nodes, order) && pos < |order| && order[pos] == node
    ensures newNode == |nodes| && |nodes'| == |nodes| + 1
    ensures Linked(nodes', Spliced(order, pos, newNode))
    ensures Items(nodes', Spliced(order, pos, newNode))
            == SortedList.InsertAt(Items(nodes, order), pos, item)
  {
    var prevNode := nodes[node].prev;
    newNode := |nodes|;
    nodes' := nodes + [Node(item, node, prevNode)];
    nodes' := nodes'[node := nodes'[node].(prev := newNode)];
    if prevNode != Nil {
      nodes' := nodes'[prevNode := nodes'[prevNode].(next := newNode)];
    }
    SpliceLinks(nodes, nodes', order, pos, newNode, item);
  }

  /**
   * insertAfter(node, item): a new node linked between `node` and its
   * successor. `tail` and `size` are left to the caller.
   */
  method InsertAfter(nodes: seq<Node>, node: int, item: Elem, ghost order: seq<int>, ghost pos: nat)
    returns (nodes': seq<Node>, newNode: int)
    requires Linked(nodes, order) && pos < |order| && order[pos] == node
    ensures newNode == |nodes| && |nodes'| == |nodes| + 1
    ensures Linked(nodes', Spliced(order, pos + 1, newNode))
    ensures Items(nodes', Spliced(order, pos + 1, newNode))
            == SortedList.InsertAt(Items(nodes, order), pos + 1, item)
  {
    var nextNode := nodes[node].next;
    newNode := |nodes|;
    nodes' := nodes + [Node(item, nextNode, node)];
    nodes' := nodes'[node := nodes'[node].(next := newNode)];
    if nextNode != Nil {
      nodes' := nodes'[nextNode := nodes'[nextNode].(prev := newNode)];
    }
    SpliceLinks(nodes, nodes', order, pos + 1, newNode, item);
  }

  /** The chain with position `pos` cut out. */
  function Unspliced(order: seq<int>, pos: nat): (o: seq<int>)
    requires pos < |order|
    ensures |o| == |order| - 1
    ensures forall k :: 0 <= k < pos ==> o[k] == order[k]
    ensures forall k :: pos <= k < |o| ==> o[k] == order[k + 1]
  {
    order[..pos] + order[pos + 1..]
  }

  /** The unlink preconditions: the two neighbours of position `pos` are joined, nothing else in the chain moves. */
  predicate UnspliceUpdate(nodes: seq<Node>, nodes': seq<Node>, order: seq<int>, pos: nat) {
    && Linked(nodes, order) && pos < |order| && |nodes'| == |nodes|
    && (pos > 0 ==> nodes'[order[pos - 1]] == nodes[order[pos - 1]].(next := NextOf(order, pos)))
    && (pos + 1 < |order| ==> nodes'[order[pos + 1]] == nodes[order[pos + 1]].(prev := PrevOf(order, pos)))
    && forall k :: 0 <= k < |order| && k != pos - 1 && k != pos + 1 && k != pos
         ==> nodes'[order[k]] == nodes[order[k]]
  }

  lemma UnspliceLinkAt(nodes: seq<Node>, nodes': seq<Node>, order: seq<int>, pos: nat, k: nat)
    requires UnspliceUpdate(nodes, nodes', order, pos)
    requires k < |order| - 1
    ensures nodes'[Unspliced(order, pos)[k]].next == NextOf(Unspliced(order, pos), k)
    ensures nodes'[Unspliced(order, pos)[k]].prev == PrevOf(Unspliced(order, pos), k)
    ensures nodes'[Unspliced(order, pos)[k]].item == nodes[Unspliced(order, pos)[k]].item
  {
    var o := Unspliced(order, pos);
    if k < pos {
      assert o[k] == order[k];
      if k < pos - 1 {
        assert NextOf(o, k) == order[k + 1];
      }
      assert PrevOf(o, k) == PrevOf(order, k);
    } else {
      assert o[k] == order[k + 1];
      if k > pos {
        assert PrevOf(o, k) == order[k];
      }
      assert NextOf(o, k) == NextOf(order, k + 1);
    }
  }

  /** Cutting a position out keeps the remaining handles distinct. */
  lemma UnspliceDistinct(order: seq<int>, pos: nat)
    requires pos < |order|
    requires forall i, j :: 0 <= i < j < |order| ==> order[i] != order[j]
    ensures forall i, j :: 0 <= i < j < |Unspliced(order, pos)| ==> Unspliced(order, pos)[i] != Unspliced(order, pos)[j]
  {
    var o := Unspliced(order, pos);
    forall i, j | 0 <= i < j < |o|
      ensures o[i] != o[j]
    {
      var i' := if i < pos then i else i + 1;
      var j' := if j < pos then j else j + 1;
      assert o[i] == order[i'] && o[j] == order[j'] && i' < j';
    }
  }

  /** The elements of a chain depend only on the items at its handles, not on the links. */
  lemma ItemsFrame(nodes: seq<Node>, nodes': seq<Node>, order: seq<int>)
    requires InArena(nodes, order) && InArena(nodes', order)
    requires forall k :: 0 <= k < |order| ==> nodes'[order[k]].item == nodes[order[k]].item
    ensures Items(nodes', order) == Items(nodes, order)
  {
  }

  /** Cutting a position out of the chain cuts the same position out of its elements. */
  lemma ItemsUnspliced(nodes: seq<Node>, order: seq<int>, pos: nat)
    requires InArena(nodes, order) && pos < |order|
    ensures InArena(nodes, Unspliced(order, pos))
    ensures Items(nodes, Unspliced(order, pos)) == SortedList.DeleteAt(Items(nodes, order), pos)
  {
    var a := Items(nodes, Unspliced(order, pos));
    var b := SortedList.DeleteAt(Items(nodes, order), pos);
    assert forall k :: 0 <= k < |b| ==> b[k] == if k < pos then Items(nodes, order)[k] else Items(nodes, order)[k + 1];
  }

  /** Joining the neighbours of position `pos` yields the chain without that position. */
  lemma UnspliceLinks(nodes: seq<Node>, nodes': seq<Node>, order: seq<int>, pos: nat)
    requires UnspliceUpdate(nodes, nodes', order, pos)
    ensures Linked(nodes', Unspliced(order, pos))
    ensures Items(nodes', Unspliced(order, pos)) == SortedList.DeleteAt(Items(nodes, order), pos)
  {
    var o := Unspliced(order, pos);
    UnspliceDistinct(order, pos);
    assert InArena(nodes', o);
    forall k | 0 <= k < |o|
      ensures nodes'[o[k]].next == NextOf(o, k)
      ensures nodes'[o[k]].prev == PrevOf(o, k)
    {
      UnspliceLinkAt(nodes, nodes', order, pos, k);
    }
    ItemsUnspliced(nodes, order, pos);
    ItemsFrame(nodes, nodes', o);
  }

  /** The arena after the neighbours of position `pos` are joined to each other. */
  function Joined(nodes: seq<Node>, order: seq<int>, pos: nat): (r: seq<Node>)
    requires InArena(nodes, order) && pos < |order|
    ensures |r| == |nodes|
  {
    var n1 := if pos > 0 then nodes[order[pos - 1] := nodes[order[pos - 1]].(next := NextOf(order, pos))] else nodes;
    if pos + 1 < |order| then n1[order[pos + 1] := n1[order[pos + 1]].(prev := PrevOf(order, pos))] else n1
  }

  lemma JoinedUpdate(nodes: seq<Node>, order: seq<int>, pos: nat)
    requires Linked(nodes, order) && pos < |order|
    ensures UnspliceUpdate(nodes, Joined(nodes, order, pos), order, pos)
  {
    var r := Joined(nodes, order, pos);
    forall k | 0 <= k < |order| && k != pos - 1 && k != pos + 1 && k != pos
      ensures r[order[k]] == nodes[order[k]]
    {
      assert pos == 0 || order[k] != order[pos - 1];
      assert pos + 1 == |order| || order[k] != order[pos + 1];
    }
    if pos > 0 && pos + 1 < |order| {
      assert order[pos - 1] != order[pos + 1];
    }
  }

  /**
   * removeNode(node): the predecessor and successor are joined (or `head`
   * and `tail` moved when there is none), the node's data is cleared and
   * `size` drops by one.
   */
  method RemoveNode(c: Chain, node: int, ghost order: seq<int>, ghost pos: nat) returns (c': Chain)
    requires Valid(c, order) && pos < |order| && order[pos] == node
    ensures Valid(c', Unspliced(order, pos)) && c'.strategy == c.strategy
    ensures Items(c'.nodes, Unspliced(order, pos)) == SortedList.DeleteAt(Items(c.nodes, order), pos)
    ensures |c'.nodes| == |c.nodes| && c'.nodes[node] == Node(Null, Nil, Nil)
  {
    var prevNode := c.nodes[node].prev;
    var nextNode := c.nodes[node].next;
    Neighbours(c, order, pos);
    var nodes := c.nodes;
    var head := c.head;
    var tail := c.tail;
    if prevNode != Nil {
      nodes := nodes[prevNode := nodes[prevNode].(next := c.nodes[node].next)];
    } else {
      head := nextNode;
    }
    if nextNode != Nil {
      nodes := nodes[nextNode := nodes[nextNode].(prev := c.nodes[node].prev)];
    } else {
      tail := prevNode;
    }
    assert nodes == Joined(c.nodes, order, pos);
    JoinedUpdate(c.nodes, order, pos);
    ghost var linked := nodes;
    nodes := nodes[node := Node(Null, Nil, Nil)];
    c' := Chain(c.strategy, nodes, head, tail, c.size - 1);
    RemovedValid(c, order, pos, linked, c');
  }

  /** The neighbours removeNode reads are those of position `pos`. */
  lemma Neighbours(c: Chain, order: seq<int>, pos: nat)
    requires Valid(c, order) && pos < |order|
    ensures c.nodes[order[pos]].prev == PrevOf(order, pos)
    ensures c.nodes[order[pos]].next == NextOf(order, pos)
    ensures PrevOf(order, pos) == Nil <==> pos == 0
    ensures NextOf(order, pos) == Nil <==> pos == |order| - 1
  {
  }

  /** What removeNode leaves behind is the valid chain without position `pos`. */
  lemma RemovedValid(c: Chain, order: seq<int>, pos: nat, linked: seq<Node>, c': Chain)
    requires Valid(c, order) && pos < |order|
    requires UnspliceUpdate(c.nodes, linked, order, pos)
    requires c'.nodes == linked[order[pos] := Node(Null, Nil, Nil)]
    requires c'.head == (if pos == 0 then NextOf(order, pos) else c.head)
    requires c'.tail == (if pos == |order| - 1 then PrevOf(order, pos) else c.tail)
    requires c'.size == c.size - 1 && c'.strategy == c.strategy
    ensures Valid(c', Unspliced(order, pos))
    ensures Items(c'.nodes, Unspliced(order, pos)) == SortedList.DeleteAt(Items(c.nodes, order), pos)
  {
    UnspliceLinks(c.nodes, linked, order, pos);
    ClearUnlinked(linked, order, pos);
    UnsplicedEnds(order, pos);
  }

  /** The ends of the chain once position `pos` is gone: removeNode's updates of `head` and `tail`. */
  lemma UnsplicedEnds(order: seq<int>, pos: nat)
    requires pos < |order|
    ensures var o := Unspliced(order, pos);
      (if pos == 0 then NextOf(order, pos) else order[0]) == (if |o| == 0 then Nil else o[0])
    ensures var o := Unspliced(order, pos);
      (if pos == |order| - 1 then PrevOf(order, pos) else order[|order| - 1]) == (if |o| == 0 then Nil else o[|o| - 1])
  {
  }

  /** Clearing the data of the unlinked node disturbs nothing that is still in the chain. */
  lemma ClearUnlinked(nodes: seq<Node>, order: seq<int>, pos: nat)
    requires pos < |order| && Linked(nodes, Unspliced(order, pos)) && InArena(nodes, order)
    requires forall i, j :: 0 <= i < j < |order| ==> order[i] != order[j]
    ensures Linked(nodes[order[pos] := Node(Null, Nil, Nil)], Unspliced(order, pos))
    ensures Items(nodes[order[pos] := Node(Null, Nil, Nil)], Unspliced(order, pos)) == Items(nodes, Unspliced(order, pos))
  {
    var o := Unspliced(order, pos);
    var nodes' := nodes[order[pos] := Node(Null, Nil, Nil)];
    forall k | 0 <= k < |o|
      ensures nodes'[o[k]] == nodes[o[k]]
    {
      if k < pos {
        assert o[k] == order[k];
      } else {
        assert o[k] == order[k + 1];
      }
    }
  }

  /**
   * getNode(int index): after checkIndex, a walk along `next` from the head
   * when index <= size / 2 and along `prev` from the tail otherwise. Both
   * walks reach the node at that position of the chain.
   */
  method GetNode(c: Chain, index: int, ghost order: seq<int>) returns (r: Result<int, SortedList.Error>)
    requires Valid(c, order)
    ensures r.Success? <==> 0 <= index < c.size
    ensures r.Failure? ==> r.error == SortedList.IndexOutOfBounds(index, c.size)
    ensures r.Success? ==> r.value == order[index]
  {
    if index < 0 || index >= c.size {
      return Failure(SortedList.IndexOutOfBounds(index, c.size));
    }
    var searchFromHead := index <= c.size / 2;
    var node := if searchFromHead then c.head else c.tail;
    if searchFromHead {
      var i := 0;
      while i < index
        invariant 0 <= i <= index
        invariant node == order[i]
      {
        node := c.nodes[node].next;
        i := i + 1;
      }
    } else {
      var i := c.size - 1;
      while i > index
        invariant index <= i < c.size
        invariant node == order[i]
      {
        node := c.nodes[node].prev;
        i := i - 1;
      }
    }
    return Success(node);
  }

  /** The handle reached from `h` by following `next` (forward) or `prev` (backward) `n` times. */
  function Follow(nodes: seq<Node>, h: int, n: nat, forward: bool): int
    decreases n
  {
    if n == 0 then h
    else if 0 <= h < |nodes| then Follow(nodes, if forward then nodes[h].next else nodes[h].prev, n - 1, forward)
    else Nil
  }

  /** Following `next` k times from position i reaches position i + k. */
  lemma {:induction false} ForwardWalk(c: Chain, order: seq<int>, i: nat, k: nat)
    requires Valid(c, order) && i + k < |order|
    ensures Follow(c.nodes, order[i], k, true) == order[i + k]
    decreases k
  {
    if k > 0 {
      assert c.nodes[order[i]].next == order[i + 1];
      ForwardWalk(c, order, i + 1, k - 1);
    }
  }

  /** Following `prev` k times from position i reaches position i - k. */
  lemma {:induction false} BackwardWalk(c: Chain, order: seq<int>, i: nat, k: nat)
    requires Valid(c, order) && k <= i < |order|
    ensures Follow(c.nodes, order[i], k, false) == order[i - k]
    decreases k
  {
    if k > 0 {
      assert c.nodes[order[i]].prev == order[i - 1];
      BackwardWalk(c, order, i - 1, k - 1);
    }
  }

  /**
   * The two walks of getNode(int index) agree: `index` steps forward from
   * the head and `size - 1 - index` steps backward from the tail reach the
   * same node, the one at that position.
   */
  lemma WalksAgree(c: Chain, order: seq<int>, index: nat)
    requires Valid(c, order) && index < c.size
    ensures Follow(c.nodes, c.head, index, true) == order[index]
    ensures Follow(c.nodes, c.tail, c.size - 1 - index, false) == order[index]
  {
    ForwardWalk(c, order, 0, index);
    BackwardWalk(c, order, |order| - 1, |order| - 1 - index);
  }

  /** get(index): the element of the node getNode(index) finds. */
  method Get(c: Chain, index: int, ghost order: seq<int>) returns (r: Result<Elem, SortedList.Error>)
    requires Valid(c, order)
    ensures r == SortedList.Get(Items(c.nodes, order), index)
  {
    var node := GetNode(c, index, order);
    if node.Failure? {
      return Failure(node.error);
    }
    return Success(c.nodes[node.value].item);
  }

  /** The handle at position `k` of the chain, or Nil past its end: an iterator's `next` node. */
  function HandleAt(order: seq<int>, k: nat): int {
    if k < |order| then order[k] else Nil
  }

  /** One step of an iterator walk: the node at position `k` holds the k-th element and links to position k + 1. */
  lemma WalkStep(c: Chain, order: seq<int>, k: nat)
    requires Valid(c, order) && k < |order|
    ensures 0 <= order[k] < |c.nodes|
    ensures c.nodes[order[k]].next == HandleAt(order, k + 1)
    ensures c.nodes[order[k]].item == Items(c.nodes, order)[k]
  {
  }

  /**
   * findInsertNodePosition(item): walk with an iterator from the head until
   * a node compares greater than or equal to the item, returning the last
   * node visited. It finds the node the functional scan names.
   */
  method FindInsertNodePosition(c: Chain, item: Elem, ghost order: seq<int>) returns (node: int)
    requires Valid(c, order) && item.Val? && c.size > 0
    ensures node == order[SortedList.FindInsertNodePosition(c.strategy, Items(c.nodes, order), item)]
  {
    ghost var s := Items(c.nodes, order);
    ghost var target := SortedList.FindInsertNodePosition(c.strategy, s, item);
    node := Nil;
    var next := c.head;
    var nextIndex := 0;
    var found := false;
    while nextIndex < c.size && !found
      invariant 0 <= nextIndex <= target + 1
      invariant next == HandleAt(order, nextIndex)
      invariant nextIndex > 0 ==> node == order[nextIndex - 1]
      invariant found ==> nextIndex == target + 1
      invariant found || nextIndex <= target || nextIndex == |order|
      decreases |order| - nextIndex
    {
      WalkStep(c, order, nextIndex);
      node := next;
      next := c.nodes[next].next;
      nextIndex := nextIndex + 1;
      found := Compare(c.strategy, item, c.nodes[node].item) <= 0;
    }
    assert nextIndex - 1 == target;
  }

  /**
   * getNode(T item): on a non-empty list, walk with an iterator from the
   * head until a node compares equal to the item; none when there is none.
   */
  method GetNodeByValue(c: Chain, item: Elem, ghost order: seq<int>) returns (r: Option<int>)
    requires Valid(c, order)
    ensures var f := SortedList.FindEqual(c.strategy, Items(c.nodes, order), item);
      && (r.None? <==> f.None?)
      && (r.Some? ==> f.value < |order| && r.value == order[f.value])
  {
    if c.size == 0 {
      return None;
    }
    ghost var f := SortedList.FindEqual(c.strategy, Items(c.nodes, order), item);
    r := ScanForEqual(c, item, order, if f.Some? then f.value else |order|);
  }

  /**
   * The iterator loop of getNode(T item), given the position `target` of
   * the first element comparing equal to the item (the length when none
   * does): it stops on the node there, or runs off the tail.
   */
  method ScanForEqual(c: Chain, item: Elem, ghost order: seq<int>, ghost target: nat) returns (r: Option<int>)
    requires Valid(c, order) && target <= |order|
    requires forall j :: 0 <= j < target ==> Compare(c.strategy, item, Items(c.nodes, order)[j]) != 0
    requires target < |order| ==> Compare(c.strategy, item, Items(c.nodes, order)[target]) == 0
    ensures r.None? <==> target == |order|
    ensures r.Some? ==> r.value == order[target]
  {
    ghost var s := Items(c.nodes, order);
    var node := Nil;
    var next := c.head;
    var nextIndex := 0;
    var found := false;
    while nextIndex < c.size && !found
      invariant 0 <= nextIndex <= |order|
      invariant next == HandleAt(order, nextIndex)
      invariant nextIndex > 0 ==> node == order[nextIndex - 1]
      invariant found ==> nextIndex == target + 1
      invariant !found ==> nextIndex <= target
      decreases |order| - nextIndex
    {
      WalkStep(c, order, nextIndex);
      assert s[nextIndex] == c.nodes[order[nextIndex]].item;
      node := next;
      next := c.nodes[next].next;
      nextIndex := nextIndex + 1;
      found := Compare(c.strategy, item, c.nodes[node].item) == 0;
    }
    if found {
      return Some(node);
    }
    return None;
  }

  /**
   * After a splice at `pos`, the list is valid again once `head` moves to
   * the new node when it went in first and `tail` when it went in last.
   */
  lemma SplicedValid(c: Chain, nodes: seq<Node>, order: seq<int>, pos: nat, m: int)
    requires Valid(c, order) && pos <= |order|
    requires Linked(nodes, Spliced(order, pos, m))
    ensures Valid(Chain(c.strategy, nodes, if pos == 0 then m else c.head,
                        if pos == |order| then m else c.tail, c.size + 1), Spliced(order, pos, m))
  {
  }

  /** A one-node chain holding `item` (the `head = tail = new Node<>(item, null, null)` case). */
  method SingleNode(c: Chain, item: Elem, ghost order: seq<int>) returns (c': Chain, ghost order': seq<int>)
    requires Valid(c, order) && c.size == 0
    ensures Valid(c', order') && c'.strategy == c.strategy
    ensures Items(c'.nodes, order') == [item]
  {
    var m := |c.nodes|;
    c' := Chain(c.strategy, c.nodes + [Node(item, Nil, Nil)], m, m, 1);
    order' := [m];
  }

  /** addNullItem, followed by add's size++. */
  method AddNullItem(c: Chain, ghost order: seq<int>) returns (c': Chain, ghost order': seq<int>)
    requires Valid(c, order)
    ensures Valid(c', order') && c'.strategy == c.strategy
    ensures Items(c'.nodes, order') == SortedList.AddNullItem(c.strategy, Items(c.nodes, order))
  {
    if c.size == 0 {
      c', order' := SingleNode(c, Null, order);
      return;
    }
    ghost var s := Items(c.nodes, order);
    SortedList.InsertAtEnds(s, Null);
    if c.strategy == Trailing {
      var nodes, m := InsertAfter(c.nodes, c.tail, Null, order, |order| - 1);
      c' := Chain(c.strategy, nodes, c.head, m, c.size + 1);
      order' := Spliced(order, |order|, m);
      SplicedValid(c, nodes, order, |order|, m);
    } else {
      var nodes, m := InsertBefore(c.nodes, c.head, Null, order, 0);
      c' := Chain(c.strategy, nodes, m, c.tail, c.size + 1);
      order' := Spliced(order, 0, m);
      SplicedValid(c, nodes, order, 0, m);
    }
  }

  /**
   * add(item) on the chain: the null path, the empty list, the head and
   * tail shortcuts and the scan, each followed by size++. It keeps the
   * chain well linked and changes its elements exactly as the functional
   * add does; in the scan branch the node found is never the head, so
   * leaving `head` alone there is correct.
   */
  method Add(c: Chain, item: Elem, ghost order: seq<int>) returns (c': Chain, ghost order': seq<int>)
    requires Valid(c, order)
    ensures Valid(c', order') && c'.strategy == c.strategy
    ensures Items(c'.nodes, order') == SortedList.Add(c.strategy, Items(c.nodes, order), item)
  {
    ghost var s := Items(c.nodes, order);
    if item.Null? {
      c', order' := AddNullItem(c, order);
      return;
    }
    if c.size == 0 {
      c', order' := SingleNode(c, item, order);
      return;
    }
    c', order' := AddToNonEmpty(c, item, order);
  }

  /** add(item) for a non-null item and a non-empty list: the head and tail shortcuts, then the scan. */
  method AddToNonEmpty(c: Chain, item: Elem, ghost order: seq<int>) returns (c': Chain, ghost order': seq<int>)
    requires Valid(c, order) && item.Val? && c.size > 0
    ensures Valid(c', order') && c'.strategy == c.strategy
    ensures Items(c'.nodes, order') == SortedList.Add(c.strategy, Items(c.nodes, order), item)
  {
    ghost var s := Items(c.nodes, order);
    assert s[0] == c.nodes[c.head].item && s[|s| - 1] == c.nodes[c.tail].item;
    SortedList.InsertAtEnds(s, item);
    if Compare(c.strategy, item, c.nodes[c.head].item) <= 0 {
      var nodes, m := InsertBefore(c.nodes, c.head, item, order, 0);
      c' := Chain(c.strategy, nodes, m, c.tail, c.size + 1);
      order' := Spliced(order, 0, m);
      SplicedValid(c, nodes, order, 0, m);
    } else if Compare(c.strategy, item, c.nodes[c.tail].item) > 0 {
      var nodes, m := InsertAfter(c.nodes, c.tail, item, order, |order| - 1);
      c' := Chain(c.strategy, nodes, c.head, m, c.size + 1);
      order' := Spliced(order, |order|, m);
      SplicedValid(c, nodes, order, |order|, m);
    } else {
      var found := FindInsertNodePosition(c, item, order);
      ghost var p := SortedList.FindInsertNodePosition(c.strategy, s, item);
      SortedList.ScanFindsNonHeadPosition(c.strategy, s, item);
      var nodes, m := InsertBefore(c.nodes, found, item, order, p);
      c' := Chain(c.strategy, nodes, c.head, c.tail, c.size + 1);
      order' := Spliced(order, p, m);
      SplicedValid(c, nodes, order, p, m);
    }
  }

  /** remove(int index): getNode(index), then removeNode; the element of the removed node is returned. */
  method RemoveAt(c: Chain, index: int, ghost order: seq<int>)
    returns (r: Result<(Elem, Chain), SortedList.Error>, ghost order': seq<int>)
    requires Valid(c, order)
    ensures r.Success? <==> 0 <= index < c.size
    ensures r.Failure? ==> r.error == SortedList.IndexOutOfBounds(index, c.size)
    ensures r.Success? ==> r.value.0 == Items(c.nodes, order)[index] && r.value.1.size == c.size - 1
    ensures var expected := SortedList.RemoveAt(Items(c.nodes, order), index);
      && (r.Failure? ==> expected == Failure(r.error))
      && (r.Success? ==>
            && Valid(r.value.1, order') && r.value.1.strategy == c.strategy
            && expected == Success((r.value.0, Items(r.value.1.nodes, order'))))
  {
    var found := GetNode(c, index, order);
    if found.Failure? {
      order' := order;
      return Failure(found.error), order';
    }
    var node := found.value;
    var item := c.nodes[node].item;
    var c' := RemoveNode(c, node, order, index);
    order' := Unspliced(order, index);
    r := Success((item, c'));
  }

  /** remove(T item): getNode(item), then removeNode; null when no node compares equal. */
  method RemoveValue(c: Chain, item: Elem, ghost order: seq<int>)
    returns (removed: Elem, c': Chain, ghost order': seq<int>)
    requires Valid(c, order)
    ensures Valid(c', order') && c'.strategy == c.strategy
    ensures (removed, Items(c'.nodes, order')) == SortedList.RemoveValue(c.strategy, Items(c.nodes, order), item)
  {
    ghost var s := Items(c.nodes, order);
    var found := GetNodeByValue(c, item, order);
    if found.None? {
      return Null, c, order;
    }
    ghost var p := SortedList.FindEqual(c.strategy, s, item).value;
    var node := found.value;
    removed := c.nodes[node].item;
    c' := RemoveNode(c, node, order, p);
    order' := Unspliced(order, p);
  }

  /**
   * clear(): every node from head to tail has its data cleared, then head,
   * tail and size are reset. The result is a valid, empty list.
   */
  method Clear(c: Chain, ghost order: seq<int>) returns (c': Chain)
    requires Valid(c, order)
    ensures Valid(c', []) && c'.strategy == c.strategy && |c'.nodes| == |c.nodes|
    ensures forall k :: 0 <= k < |order| ==> c'.nodes[order[k]] == Node(Null, Nil, Nil)
  {
    if c.size == 0 {
      return c;
    }
    var nodes := ClearNodes(c, order);
    c' := Chain(c.strategy, nodes, Nil, Nil, 0);
  }

  /** The loop of clear(): the walk from head along `next`, clearing each node it passes. */
  method ClearNodes(c: Chain, ghost order: seq<int>) returns (nodes: seq<Node>)
    requires Valid(c, order)
    ensures |nodes| == |c.nodes|
    ensures forall k :: 0 <= k < |order| ==> nodes[order[k]] == Node(Null, Nil, Nil)
  {
    nodes := c.nodes;
    var node := c.head;
    ghost var i := 0;
    while node != Nil
      invariant 0 <= i <= |order| && |nodes| == |c.nodes|
      invariant node == if i < |order| then order[i] else Nil
      invariant forall k :: 0 <= k < i ==> nodes[order[k]] == Node(Null, Nil, Nil)
      invariant forall k :: i <= k < |order| ==> nodes[order[k]] == c.nodes[order[k]]
      decreases |order| - i
    {
      ClearStep(c.nodes, nodes, order, i);
      var next := nodes[node].next;
      nodes := nodes[node := Node(Null, Nil, Nil)];
      node := next;
      i := i + 1;
    }
  }

  /**
   * One step of clear: the node at position `i` still has its original
   * links, so its `next` is the following handle, and clearing it leaves
   * the nodes after it untouched.
   */
  lemma ClearStep(orig: seq<Node>, nodes: seq<Node>, order: seq<int>, i: nat)
    requires Linked(orig, order) && i < |order| && |nodes| == |orig|
    requires forall k :: i <= k < |order| ==> nodes[order[k]] == orig[order[k]]
    ensures nodes[order[i]].next == if i + 1 < |order| then order[i + 1] else Nil
    ensures forall k :: i < k < |order| ==> nodes[order[i] := Node(Null, Nil, Nil)][order[k]] == orig[order[k]]
  {
  }
}
