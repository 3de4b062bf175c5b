/**
 * SortedDoubleLinkedList: a DoubleLinkedList whose Insert takes no position
 * and instead places the element by comparing it against the chain.
 *
 * Elements are ordered by an integer key: `CompareTo(a, b)` is
 * `key(a) - key(b)`, so the ordering is a total preorder in which elements
 * with equal keys compare equal. The sorted list is built by composition:
 * it owns a `DoubleLinkedList` whose chain its Insert splices.
 */
module SortedDLinkedList {
  import opened ListContract
  import opened DLinkedList

  /** Negative, zero or positive as `a` orders before, level with or after `b`. */
  function CompareTo<T>(a: T, b: T, key: T -> int): int
  {
    key(a) - key(b)
  }

  /** Every element compares "not greater than" the element after it. */
  ghost predicate Sorted<T>(s: seq<T>, key: T -> int)
  {
    forall i :: 0 < i < |s| ==> CompareTo(s[i - 1], s[i], key) <= 0
  }

  /**
   * Where Insert puts `x`: before the first element that compares "not less
   * than" `x`, or at the end when there is none. Elements comparing equal
   * to `x` therefore all end up after it.
   */
  ghost function InsertionPoint<T>(s: seq<T>, x: T, key: T -> int): (r: nat)
    ensures r <= |s|
    ensures forall i :: 0 <= i < r ==> CompareTo(s[i], x, key) < 0
    ensures r < |s| ==> CompareTo(s[r], x, key) >= 0
  {
    if s == [] then 0
    else if CompareTo(s[0], x, key) >= 0 then 0
    else 1 + InsertionPoint(s[1..], x, key)
  }

  /** Sortedness of adjacent pairs orders every pair. */
  lemma {:induction false} SortedPairwise<T>(s: seq<T>, key: T -> int)
    requires Sorted(s, key)
    ensures forall i, j :: 0 <= i <= j < |s| ==> key(s[i]) <= key(s[j])
  {
    if |s| > 1 {
      var init := s[..|s| - 1];
      assert Sorted(init, key) by {
        forall i | 0 < i < |init|
          ensures CompareTo(init[i - 1], init[i], key) <= 0
        {
          assert init[i - 1] == s[i - 1] && init[i] == s[i];
        }
      }
      SortedPairwise(init, key);
      forall i, j | 0 <= i <= j < |s|
        ensures key(s[i]) <= key(s[j])
      {
        if j < |s| - 1 {
          assert s[i] == init[i] && s[j] == init[j];
        } else if i < j {
          assert s[i] == init[i] && s[j - 1] == init[j - 1];
        }
      }
    }
  }

  /** Inserting at the insertion point keeps a sorted list sorted. */
  lemma InsertionKeepsOrder<T>(s: seq<T>, x: T, key: T -> int)
    requires Sorted(s, key)
    ensures Sorted(Inserted(s, InsertionPoint(s, x, key), x), key)
  {
    var p := InsertionPoint(s, x, key);
    var r := Inserted(s, p, x);
    forall i | 0 < i < |r|
      ensures CompareTo(r[i - 1], r[i], key) <= 0
    {
      if i < p {
        assert r[i - 1] == s[i - 1] && r[i] == s[i];
      } else if i > p + 1 {
        assert r[i - 1] == s[i - 2] && r[i] == s[i - 1];
      }
    }
  }

  /** Taking any element out of a sorted list leaves it sorted. */
  lemma RemovalKeepsOrder<T>(s: seq<T>, p: nat, key: T -> int)
    requires Sorted(s, key) && p < |s|
    ensures Sorted(Removed(s, p), key)
  {
    var r := Removed(s, p);
    forall i | 0 < i < |r|
      ensures CompareTo(r[i - 1], r[i], key) <= 0
    {
      if i < p {
        assert r[i - 1] == s[i - 1] && r[i] == s[i];
      } else if i == p {
        assert r[i - 1] == s[i - 1] && r[i] == s[i + 1];
        assert CompareTo(s[i - 1], s[i], key) <= 0 && CompareTo(s[i], s[i + 1], key) <= 0;
      } else {
        assert r[i - 1] == s[i] && r[i] == s[i + 1];
      }
    }
  }

  /** In a sorted list the insertion point splits the elements below `x` from the rest. */
  lemma {:induction false} InsertionPointSplits<T>(s: seq<T>, x: T, key: T -> int)
    requires Sorted(s, key)
    ensures var p := InsertionPoint(s, x, key);
            forall i :: 0 <= i < |s| ==> (i < p <==> key(s[i]) < key(x))
  {
    SortedPairwise(s, key);
  }

  class SortedDoubleLinkedList<T> {
    const list: DoubleLinkedList<T>
    const key: T -> int

    /** The default constructor: an empty chain. */
    constructor (key: T -> int)
      ensures fresh(list) && list.Valid() && list.Counted() && list.TailIsLast()
      ensures list.Contents == [] && list.size == 0 && list.Repr == {}
      ensures this.key == key
    {
      list := new DoubleLinkedList();
      this.key := key;
    }

    /**
     * Splices a new node holding `element` into the chain at its insertion
     * point: as the whole chain when there is no head, in front of the head
     * when the head compares "not less than" it, and otherwise right after
     * the last node of the leading run that compares "less than" it, moving
     * `tail` when that node was the last. Always succeeds; the count is not
     * touched.
     */
    method Insert(element: T) returns (ok: bool, ghost k: nat)
      requires list.Valid()
      modifies list, list.Repr
      ensures ok && k == InsertionPoint(old(list.Contents), element, key)
      ensures list.Valid() && fresh(list.Repr - old(list.Repr))
      ensures list.size == old(list.size)
      ensures list.Contents == Inserted(old(list.Contents), k, element)
      ensures list.Nodes == Inserted(old(list.Nodes), k, list.Nodes[k]) && fresh(list.Nodes[k])
      ensures list.tail == if k == |old(list.Nodes)| then list.Nodes[k] else old(list.tail)
      ensures old(list.TailIsLast()) ==> list.TailIsLast()
      ensures old(Sorted(list.Contents, key)) ==> Sorted(list.Contents, key)
    {
      ghost var s0, n0 := list.Contents, list.Nodes;
      var newNode := new Node(element, null, null);
      if list.head == null {
        StartSorted(newNode);
        k := 0;
        assert list.Nodes == Inserted(n0, 0, newNode) && list.Contents == Inserted(s0, 0, element);
      } else if CompareTo(list.head.data, element, key) >= 0 {
        PrependSorted(newNode);
        k := 0;
      } else {
        k := SpliceAfterSmaller(newNode);
      }
      if Sorted(s0, key) {
        InsertionKeepsOrder(s0, element, key);
      }
      return true, k;
    }

    /** The empty-chain branch of Insert: `newNode` becomes both head and tail. */
    method StartSorted(newNode: Node<T>)
      requires list.Valid() && list.head == null
      requires newNode !in list.Repr && newNode.previous == null && newNode.next == null
      modifies list`head, list`tail, list`Nodes, list`Contents, list`Repr
      ensures list.Valid() && list.Repr == old(list.Repr) + {newNode}
      ensures list.Nodes == [newNode] && list.Contents == [newNode.data] && list.tail == newNode
    {
      list.StartChain(newNode);
      list.tail := newNode;
    }

    /** The branch of Insert for a head that compares "not less than" the new element: `newNode` becomes the head. */
    method PrependSorted(newNode: Node<T>)
      requires list.Valid() && list.head != null && CompareTo(list.head.data, newNode.data, key) >= 0
      requires newNode !in list.Repr && newNode.previous == null
      modifies list`head, list`Nodes, list`Contents, list`Repr, newNode, list.Repr
      ensures list.Valid() && list.Repr == old(list.Repr) + {newNode}
      ensures InsertionPoint(old(list.Contents), old(newNode.data), key) == 0
      ensures list.Contents == Inserted(old(list.Contents), 0, old(newNode.data))
      ensures list.Nodes == Inserted(old(list.Nodes), 0, newNode)
    {
      list.LinkFirst(newNode);
      assert list.Contents == Inserted(old(list.Contents), 0, old(newNode.data));
      assert list.Nodes == Inserted(old(list.Nodes), 0, newNode);
    }

    /**
     * The scan-and-splice branch of Insert, for a chain whose head compares
     * "less than" the new element: walks while the next node compares "less
     * than" it, splices `newNode` after the node reached, and moves `tail`
     * to `newNode` when that node was the last.
     */
    method SpliceAfterSmaller(newNode: Node<T>) returns (ghost k: nat)
      requires list.Valid() && list.head != null && CompareTo(list.head.data, newNode.data, key) < 0
      requires newNode !in list.Repr && newNode.previous == null
      modifies list`tail, list`Nodes, list`Contents, list`Repr, newNode, list.Repr
      ensures list.Valid() && list.Repr == old(list.Repr) + {newNode}
      ensures k == InsertionPoint(old(list.Contents), old(newNode.data), key)
      ensures list.Contents == Inserted(old(list.Contents), k, old(newNode.data))
      ensures list.Nodes == Inserted(old(list.Nodes), k, newNode)
      ensures list.tail == if k == |old(list.Nodes)| then newNode else old(list.tail)
    {
      ghost var s0, n0 := list.Contents, list.Nodes;
      var current := list.head;
      ghost var i := 0;
      while current.next != null && CompareTo(current.next.data, newNode.data, key) < 0
        invariant 0 <= i < |n0| && current == n0[i]
        invariant forall j :: 0 <= j <= i ==> CompareTo(s0[j], newNode.data, key) < 0
        decreases |n0| - i
        modifies {}
      {
        current := current.next;
        i := i + 1;
      }
      assert current.next == if i + 1 < |n0| then n0[i + 1] else null;
      InsertionPointAt(s0, newNode.data, key, i + 1);
      var appended := current.next == null;
      list.InsertAfter(current, newNode, i + 1);
      k := i + 1;
      if appended {
        list.tail := newNode;
      }
    }
  }

  /** A position before which every element is "less than" `x` and at which none is, is the insertion point. */
  lemma InsertionPointAt<T>(s: seq<T>, x: T, key: T -> int, p: nat)
    requires p <= |s|
    requires forall i :: 0 <= i < p ==> CompareTo(s[i], x, key) < 0
    requires p < |s| ==> CompareTo(s[p], x, key) >= 0
    ensures InsertionPoint(s, x, key) == p
  {
    // InsertionPoint's own postconditions pin it down: neither a smaller nor a larger position fits both
  }
}
