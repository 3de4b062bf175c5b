/**
 * Concrete runs of the containers on small inputs, each proved to end in the
 * state the code produces for it. Elements are plain integers that are
 * their own sort key.
 */
module Scenarios {
  import opened ListContract
  import opened DLinkedList
  import opened GrowableArray
  import opened SortedDLinkedList

  /** Inserting keys 5, 1 and 3, in that order, into a sorted list reads back 1, 3, 5. */
  method SortedInsertOrder() returns (first: Option<int>, second: Option<int>, third: Option<int>)
    ensures first == Some(1) && second == Some(3) && third == Some(5)
  {
    var sorted := new SortedDoubleLinkedList<int>(x => x);
    var ok;
    ghost var k;
    ok, k := sorted.Insert(5);
    assert sorted.list.Contents == [5];
    ok, k := sorted.Insert(1);
    assert sorted.list.Contents == [1, 5];
    ok, k := sorted.Insert(3);
    assert k == 1;
    assert sorted.list.Contents == [1, 3, 5];
    first := sorted.list.Get(0);
    second := sorted.list.Get(1);
    third := sorted.list.Get(2);
  }

  /** An array of capacity 2 with growth factor 0.5 holds three elements in 3 slots after one resize. */
  method GrowByHalf() returns (capacity: nat, contents: Option<int>)
    ensures capacity == 3 && contents == Some(30)
  {
    var a := new VSArray<int>(2, 1, 2);
    var ok := a.Insert(10, 0);
    ok := a.Insert(20, 1);
    GrowthByHalf();
    ok := a.Insert(30, 2);
    capacity := a.GetCapacity();
    contents := a.Get(2);
  }

  /** Removing position 10 from a three-element linked list yields absent and keeps three elements. */
  method RemovePastEndOfList() returns (removed: Option<int>, count: nat)
    ensures removed == None && count == 3
  {
    var list := new DoubleLinkedList<int>();
    var ok := list.Insert(1, 0);
    ok := list.Insert(2, 1);
    ok := list.Insert(3, 2);
    removed := list.Remove(10);
    count := list.size;
  }

  /** Removing position 10 from a three-element array yields absent and keeps three elements. */
  method RemovePastEndOfArray() returns (removed: Option<int>, count: nat)
    ensures removed == None && count == 3
  {
    var a := new VSArray<int>(4, 1, 2);
    var ok := a.Insert(1, 0);
    ok := a.Insert(2, 1);
    ok := a.Insert(3, 2);
    removed := a.Remove(10);
    count := a.size;
  }

  /** Clearing a non-empty list leaves a count of zero, renders as "{}", and has nothing at position 0. */
  method ClearEmpties() returns (count: nat, text: string, atZero: Option<int>)
    ensures count == 0 && text == "{}" && atZero == None
  {
    var list := new DoubleLinkedList<int>();
    var ok := list.Insert(7, 0);
    ok := list.Insert(8, 1);
    list.Clear();
    count := list.size;
    text := list.ToString(x => "x");
    atZero := list.Get(0);
  }

  /** A copy of the list [1, 2, 3]: the same elements, but a count of 0. */
  method UncountedCopy() returns (b: DoubleLinkedList<int>)
    ensures fresh(b) && fresh(b.Repr) && b.Valid()
    ensures b.Contents == [1, 2, 3] && b.size == 0
  {
    var a := new DoubleLinkedList<int>();
    var ok := a.Insert(1, 0);
    ok := a.Insert(2, 1);
    ok := a.Insert(3, 2);
    b := new DoubleLinkedList.Copy(a);
  }

  /**
   * In a copy of [1, 2, 3], whose count is 0, removing position 0 wraps the
   * count to the `size_t` maximum, one insertion wraps it back to 0, and the
   * next insertion therefore restarts the chain: the list reads back just [8].
   */
  method CountWrapsAround() returns (count: nat, first: Option<int>, second: Option<int>)
    ensures count == 1 && first == Some(8) && second == None
  {
    var b := UncountedCopy();
    var removed := b.Remove(0);
    assert b.size == SizeMax && b.Contents == [2, 3];
    var ok := b.Insert(9, 0);
    assert b.size == 0;
    ok := b.Insert(8, 0);
    count := b.size;
    first := b.Get(0);
    second := b.Get(1);
  }
}
