/**
 * Properties that relate several operations of the linked list, stated as
 * client methods that call them in sequence, and concrete runs on small
 * lists whose outcomes follow from the operations' contracts alone.
 */
module Scenarios {
  import opened Seqs
  import opened LinkedLists

  /** After `add_first(v)`, `get_first` answers `v`. */
  method AddFirstThenGetFirst(list: LinkedList, v: int) returns (r: Option<int>)
    requires list.Valid()
    modifies list
    ensures list.Valid() && list.Contents == [v] + old(list.Contents)
    ensures r == Some(v)
  {
    list.AddFirst(v);
    r := list.GetFirst();
  }

  /** After `add_last(v)`, `get_last` answers `v` and the earlier values keep their order. */
  method AddLastThenGetLast(list: LinkedList, v: int) returns (r: Option<int>)
    requires list.Valid()
    modifies list, list.Nodes
    ensures list.Valid() && list.Contents == old(list.Contents) + [v]
    ensures r == Some(v)
  {
    list.AddLast(v);
    r := list.GetLast();
  }

  /** Reversing twice relinks the same nodes back into their original order. */
  method ReverseTwice(list: LinkedList)
    requires list.Valid()
    modifies list, list.Nodes
    ensures list.Valid()
    ensures list.Nodes == old(list.Nodes) && list.Contents == old(list.Contents)
  {
    ghost var ns := list.Nodes;
    list.Reverse();
    forall i | 0 <= i < |ns|
      ensures list.Nodes[i] in ns
    {
      ReversedAt(ns, i);
    }
    list.Reverse();
    ReversedTwice(ns);
    ReversedTwice(old(list.Contents));
  }

  /**
   * `delete(v)` removes one occurrence only: `search(v)` afterwards still
   * finds `v` exactly when the list held it at least twice.
   */
  method DeleteThenSearch(list: LinkedList, v: int) returns (found: bool)
    requires list.Valid()
    modifies list, list.Nodes
    ensures list.Valid()
    ensures found <==> multiset(old(list.Contents))[v] >= 2
  {
    ghost var vs := list.Contents;
    list.Delete(v);
    found := list.Search(v);
    if v in vs {
      StillPresentAfterRemoval(vs, v);
    }
  }

  /** `has_cycle` answers true after `create_cycle` exactly when the list was not empty. */
  method CreateCycleThenHasCycle(list: LinkedList) returns (found: bool)
    requires list.Valid()
    modifies list.Nodes
    ensures found <==> old(list.Contents) != []
  {
    list.CreateCycle();
    found := list.HasCycle();
    if list.Nodes == [] {
      list.ValidNotEndless();
    }
  }

  /** The list 1, 2, 3, built by `add_last`. */
  method OneTwoThree() returns (list: LinkedList)
    ensures fresh(list) && list.Valid() && list.Contents == [1, 2, 3]
    ensures forall i :: 0 <= i < |list.Nodes| ==> fresh(list.Nodes[i])
  {
    list := new LinkedList();
    list.AddLast(1);
    list.AddLast(2);
    list.AddLast(3);
  }

  /** Length, ends and middle of 1, 2, 3. */
  method OneTwoThreeEnds() {
    var list := OneTwoThree();
    var length := list.Length();
    assert length == 3;
    var first := list.GetFirst();
    assert first == Some(1);
    var last := list.GetLast();
    assert last == Some(3);
    var middle := list.FindMiddleValue();
    assert middle == 2;
  }

  /** Counting from the end of 1, 2, 3: one step short of zero-based, and nothing for 0. */
  method OneTwoThreeFromEnd() {
    var list := OneTwoThree();
    var fromEnd := list.FindNthFromEnd(0);
    assert fromEnd == None;
    fromEnd := list.FindNthFromEnd(1);
    assert fromEnd == Some(3);
    fromEnd := list.FindNthFromEnd(2);
    assert fromEnd == Some(2);
    fromEnd := list.FindNthFromEnd(3);
    assert fromEnd == None;
  }

  /** Positional lookups in 1, 2, 3. */
  method OneTwoThreeAtIndex() {
    var list := OneTwoThree();
    var atIndex := list.GetAtIndex(-1);
    assert atIndex == Error(NegativeIndexMessage);
    atIndex := list.GetAtIndex(2);
    assert atIndex == Value(3);
    atIndex := list.GetAtIndex(4);
    assert atIndex == Nothing;
  }

  /** Reversing 1, 2, 3 gives 3, 2, 1. */
  method OneTwoThreeReversed() {
    var list := OneTwoThree();
    list.Reverse();
    ReversedAt([1, 2, 3], 0);
    ReversedAt([1, 2, 3], 1);
    ReversedAt([1, 2, 3], 2);
    assert list.Contents == [3, 2, 1];
  }

  /** The empty list: no first, last or largest value, length 0, no cycle. */
  method Empty() {
    var list := new LinkedList();
    var first := list.GetFirst();
    var last := list.GetLast();
    var largest := list.FindMax();
    assert first == None && last == None && largest == None;
    var length := list.Length();
    assert length == 0;
    var cyclic := list.HasCycle();
    assert !cyclic;
  }

  /** Deleting 3 from 5, 3, 3, 8 removes only the first 3. */
  method DeleteFirstOfDuplicates() {
    var list := new LinkedList();
    list.AddLast(5);
    list.AddLast(3);
    list.AddLast(3);
    list.AddLast(8);
    assert list.Contents == [5, 3, 3, 8];
    list.Delete(3);
    assert FirstIndex([5, 3, 3, 8], 3) == 1;
    assert list.Contents == [5, 3, 8];
    var largest := list.FindMax();
    assert 8 in list.Contents;
    assert largest.value in [5, 3, 8];
    assert largest == Some(8);
  }
}
