/**
 * DoubleLinkedList: a chain of individually allocated nodes linked both ways,
 * with `head`, `tail` and a `size_t` element count `size`.
 *
 * The ghost spine `Nodes` lists the chain's nodes from `head` on; `Contents`
 * is the list's abstract value. `Valid()` is the chain's well-formedness and
 * deliberately says nothing about `size` or `tail`: the code keeps neither in
 * step with the chain (Insert never writes `tail`, the copy constructor leaves
 * `size` at zero), so every method states what it does to them instead.
 * `Counted()` is the invariant `size == |Contents|`, which the default
 * constructor, Insert, Remove and Clear keep.
 */
module DLinkedList {
  import opened ListContract

  /** A node: one element and the links to its neighbours. */
  class Node<T> {
    var data: T
    var previous: Node?<T>
    var next: Node?<T>

    constructor (data: T, previous: Node?<T>, next: Node?<T>)
      ensures this.data == data && this.previous == previous && this.next == next
    {
      this.data := data;
      this.previous := previous;
      this.next := next;
    }
  }

  class DoubleLinkedList<T> {
    var head: Node?<T>
    var tail: Node?<T>
    var size: SizeT

    ghost var Nodes: seq<Node<T>>
    ghost var Contents: seq<T>
    ghost var Repr: set<Node<T>>

    /** The chain from `head` is exactly `Nodes`, every node linked both ways to its neighbours. */
    ghost predicate Valid()
      reads this`head, this`Nodes, this`Contents, this`Repr, Repr
    {
      && |Nodes| == |Contents|
      && (forall i :: 0 <= i < |Nodes| ==> Nodes[i] in Repr)
      && (forall i {:trigger Nodes[i].data} :: 0 <= i < |Nodes| ==> Nodes[i].data == Contents[i])
      && (forall i, j :: 0 <= i < j < |Nodes| ==> Nodes[i] != Nodes[j])
      && (forall i :: 0 < i < |Nodes| ==> Nodes[i].previous == Nodes[i - 1] && Nodes[i - 1].next == Nodes[i])
      && (if Nodes == [] then head == null
          else head == Nodes[0] && Nodes[0].previous == null && Nodes[|Nodes| - 1].next == null)
    }

    /** The element count agrees with the chain. */
    ghost predicate Counted()
      reads this`size, this`Contents
    {
      size == |Contents|
    }

    /** `tail` is the last node of the chain (null when the chain is empty). */
    ghost predicate TailIsLast()
      reads this`tail, this`Nodes
    {
      tail == if Nodes == [] then null else Nodes[|Nodes| - 1]
    }

    /** Default constructor: the empty list. */
    constructor ()
      ensures Valid() && Counted() && TailIsLast()
      ensures Contents == [] && head == null && tail == null && size == 0 && Repr == {}
    {
      head, tail, size := null, null, 0;
      Nodes, Contents, Repr := [], [], {};
    }

    /**
     * Copy constructor: a new chain of new nodes holding the very same
     * elements as `other` (no clone), with `tail` on the last new node. The
     * count is never copied and stays at the base class's zero.
     */
    constructor Copy(other: DoubleLinkedList<T>)
      requires other.Valid()
      ensures Valid() && TailIsLast() && fresh(Repr)
      ensures Contents == other.Contents && size == 0
    {
      head, tail, size := null, null, 0;
      Nodes, Contents, Repr := [], [], {};
      new;
      AppendCopiesOf(other);
    }

    /**
     * The copying loop shared by the copy constructor and copy assignment:
     * appends one new node per node of `other`, linking it after `tail`.
     */
    method AppendCopiesOf(other: DoubleLinkedList<T>)
      requires Valid() && other.Valid() && this != other
      requires head == null && tail == null && Nodes == [] && Repr == {}
      modifies this`head, this`tail, this`Nodes, this`Contents, this`Repr
      ensures Valid() && TailIsLast() && fresh(Repr)
      ensures Contents == other.Contents
    {
      var current := other.head;
      ghost var j := 0;
      while current != null
        invariant 0 <= j <= |other.Nodes|
        invariant current == if j < |other.Nodes| then other.Nodes[j] else null
        invariant Valid() && TailIsLast() && fresh(Repr)
        invariant Contents == other.Contents[..j]
        invariant unchanged(other) && unchanged(other.Repr) && other.Valid()
        decreases |other.Nodes| - j
      {
        assert current.next == if j + 1 < |other.Nodes| then other.Nodes[j + 1] else null;
        var newNode := new Node(current.data, tail, null);
        LinkLast(newNode);
        current := current.next;
        j := j + 1;
      }
      assert other.Contents[..j] == other.Contents;
    }

    /** Links `newNode`, already pointing back at `tail`, after the last node and makes it the tail. */
    method LinkLast(newNode: Node<T>)
      requires Valid() && TailIsLast() && newNode !in Repr
      requires newNode.previous == tail && newNode.next == null
      modifies this`head, this`tail, this`Nodes, this`Contents, this`Repr, Repr
      ensures Valid() && TailIsLast() && Repr == old(Repr) + {newNode}
      ensures Nodes == old(Nodes) + [newNode] && Contents == old(Contents) + [newNode.data]
      ensures newNode.data == old(newNode.data) && newNode.next == null
    {
      ghost var n0 := Nodes;
      if tail != null {
        tail.next := newNode;
      } else {
        head := newNode;
      }
      tail := newNode;
      Nodes, Contents, Repr := Nodes + [newNode], Contents + [newNode.data], Repr + {newNode};
      forall i | 0 < i < |Nodes|
        ensures Nodes[i].previous == Nodes[i - 1] && Nodes[i - 1].next == Nodes[i]
      {
        if i < |n0| {
          assert Nodes[i] == n0[i] && Nodes[i - 1] == n0[i - 1] != n0[|n0| - 1];
        }
      }
    }

    /**
     * Copy assignment: drops the old chain and builds a copy of `rhs`'s
     * chain; the count and, on self-assignment, everything else is kept.
     */
    method Assign(rhs: DoubleLinkedList<T>)
      requires Valid() && rhs.Valid()
      modifies this
      ensures Valid() && Contents == old(rhs.Contents) && size == old(size)
      ensures this == rhs ==> unchanged(this)
      ensures this != rhs ==> TailIsLast() && fresh(Repr)
    {
      if this == rhs {
        return;
      }
      head, tail := null, null;
      Nodes, Contents, Repr := [], [], {};
      AppendCopiesOf(rhs);
    }

    /**
     * Inserts `element` so that it becomes the element at `position`; fails,
     * changing nothing, when `position` exceeds the count. A count of zero
     * makes the new node the whole chain. `tail` is never updated, and the
     * `size_t` count wraps past its maximum.
     */
    method Insert(element: T, position: nat) returns (ok: bool)
      requires Valid()
      // the walk to position - 1 (and the prepend) must stay on the chain
      requires position <= size && size != 0 ==> 0 < |Contents| && position <= |Contents|
      modifies this, Repr
      ensures Valid() && fresh(Repr - old(Repr))
      ensures ok == (position <= old(size))
      ensures !ok ==> unchanged(this) && unchanged(Repr)
      ensures ok ==> size == (if old(size) == SizeMax then 0 else old(size) + 1) && tail == old(tail)
      ensures ok && old(size) == 0 ==> |Nodes| == 1 && Contents == [element]
      ensures ok && old(size) != 0 ==>
                |Nodes| == |old(Nodes)| + 1 &&
                Contents == Inserted(old(Contents), position, element) &&
                Nodes == Inserted(old(Nodes), position, Nodes[position])
      ensures ok ==> fresh(Nodes[position])
      ensures old(Counted()) && old(size) < SizeMax ==> Counted()
    {
      if position > size {
        return false;
      }
      var newNode := new Node(element, null, null);
      if size == 0 {
        StartChain(newNode);
      } else {
        LinkAt(newNode, position);
      }
      size := if size == SizeMax then 0 else size + 1;
      return true;
    }

    /**
     * Links `newNode`, a node of no chain, into a non-empty chain so that it
     * becomes the node at `position`: in front of the head, or after the node
     * reached by walking `position - 1` links from the head.
     */
    method LinkAt(newNode: Node<T>, position: nat)
      requires Valid() && 0 < |Nodes| && position <= |Nodes|
      requires newNode !in Repr && newNode.previous == null
      modifies this`head, this`Nodes, this`Contents, this`Repr, newNode, Repr
      ensures Valid() && Repr == old(Repr) + {newNode}
      ensures Nodes == Inserted(old(Nodes), position, newNode)
      ensures Contents == Inserted(old(Contents), position, old(newNode.data))
    {
      if position == 0 {
        LinkFirst(newNode);
        assert Inserted(old(Nodes), 0, newNode) == [newNode] + old(Nodes);
        assert Inserted(old(Contents), 0, old(newNode.data)) == [old(newNode.data)] + old(Contents);
      } else {
        var temp := head;
        var i := 0;
        while i < position - 1
          invariant 0 <= i <= position - 1 && temp == Nodes[i]
          modifies {}
        {
          temp := temp.next;
          i := i + 1;
        }
        InsertAfter(temp, newNode, position);
      }
    }

    /** Makes `newNode`, a node of no chain, the whole chain, dropping whatever chain there was. */
    method StartChain(newNode: Node<T>)
      requires Valid() && newNode !in Repr && newNode.previous == null && newNode.next == null
      modifies this`head, this`Nodes, this`Contents, this`Repr
      ensures Valid() && Repr == old(Repr) + {newNode}
      ensures Nodes == [newNode] && Contents == [newNode.data]
    {
      head := newNode;
      Nodes, Contents, Repr := [newNode], [newNode.data], Repr + {newNode};
    }

    /** Puts `newNode`, a node of no chain, in front of the head of a non-empty chain. */
    method LinkFirst(newNode: Node<T>)
      requires Valid() && Nodes != [] && newNode !in Repr && newNode.previous == null
      modifies this`head, this`Nodes, this`Contents, this`Repr, newNode, Repr
      ensures Valid() && Repr == old(Repr) + {newNode}
      ensures Nodes == [newNode] + old(Nodes) && Contents == [old(newNode.data)] + old(Contents)
    {
      ghost var n0 := Nodes;
      newNode.next := head;
      head.previous := newNode;
      head := newNode;
      Nodes, Contents, Repr := [newNode] + Nodes, [newNode.data] + Contents, Repr + {newNode};
      forall i | 0 < i < |Nodes|
        ensures Nodes[i].previous == Nodes[i - 1] && Nodes[i - 1].next == Nodes[i]
      {
        if i > 1 {
          assert Nodes[i] == n0[i - 1] != n0[0] && Nodes[i - 1] == n0[i - 2];
        }
      }
    }

    /** Links `newNode`, a node of no chain, right after `temp`, the node at `position - 1`. */
    method InsertAfter(temp: Node<T>, newNode: Node<T>, ghost position: nat)
      requires Valid() && 0 < position <= |Nodes| && temp == Nodes[position - 1]
      requires newNode !in Repr
      modifies this`Nodes, this`Contents, this`Repr, newNode, Repr
      ensures Valid() && Repr == old(Repr) + {newNode}
      ensures Nodes == Inserted(old(Nodes), position, newNode)
      ensures Contents == Inserted(old(Contents), position, old(newNode.data))
    {
      ghost var n0 := Nodes;
      assert temp.next == if position < |n0| then n0[position] else null;
      var after := Splice(temp, newNode);
      Nodes, Contents, Repr := Inserted(Nodes, position, newNode), Inserted(Contents, position, newNode.data), Repr + {newNode};
      forall i | 0 < i < |Nodes|
        ensures Nodes[i].previous == Nodes[i - 1] && Nodes[i - 1].next == Nodes[i]
      {
        if i < position {
          assert Nodes[i] == n0[i] && Nodes[i - 1] == n0[i - 1] != temp;
          assert position < |n0| ==> n0[i] != n0[position];
        } else if i > position + 1 {
          assert Nodes[i] == n0[i - 1] != n0[position] && Nodes[i - 1] == n0[i - 2] != temp;
        }
      }
      assert position < |n0| ==> Nodes[|Nodes| - 1] == n0[|n0| - 1] != temp;
      forall i | 0 <= i < |Nodes|
        ensures Nodes[i] in Repr && Nodes[i].data == Contents[i]
      {
        if i < position {
          assert Nodes[i] == n0[i] && Contents[i] == old(Contents)[i];
        } else if i > position {
          assert Nodes[i] == n0[i - 1] && Contents[i] == old(Contents)[i - 1];
        }
      }
      forall i, j | 0 <= i < j < |Nodes|
        ensures Nodes[i] != Nodes[j]
      {
        if i != position && j != position {
          assert Nodes[i] == n0[if i < position then i else i - 1];
          assert Nodes[j] == n0[if j < position then j else j - 1];
        }
      }
    }

    /** Rewires `temp`, its old successor `after` and `newNode` so that `newNode` sits between the two. */
    static method Splice(temp: Node<T>, newNode: Node<T>) returns (after: Node?<T>)
      requires temp != newNode && temp.next != newNode
      modifies temp`next, newNode`next, newNode`previous, (if temp.next == null then {} else {temp.next})`previous
      ensures after == old(temp.next)
      ensures temp.next == newNode && newNode.previous == temp && newNode.next == after
      ensures after != null ==> after.previous == newNode
    {
      after := temp.next;
      newNode.next := after;
      newNode.previous := temp;
      if after != null {
        after.previous := newNode;
      }
      temp.next := newNode;
    }

    /** The position of the first element that Equals `element`, or -1. */
    method IndexOf(element: T, equals: (T, T) -> bool) returns (r: int)
      requires Valid()
      ensures r == FirstMatch(Contents, element, equals)
    {
      var current := head;
      var position := 0;
      while current != null
        invariant 0 <= position <= |Nodes|
        invariant current == if position < |Nodes| then Nodes[position] else null
        invariant forall i :: 0 <= i < position ==> !equals(Contents[i], element)
        decreases |Nodes| - position
      {
        if equals(current.data, element) {
          return position;
        }
        current := current.next;
        position := position + 1;
      }
      return -1;
    }

    /**
     * Unlinks the node at `position` and returns its element, moving `head`
     * or `tail` when an end node goes; absent, changing nothing, when
     * `position` is past the chain. The `size_t` count wraps below zero.
     */
    method Remove(position: nat) returns (r: Option<T>)
      requires Valid()
      modifies this, Repr
      ensures Valid() && Repr <= old(Repr)
      ensures r == if position < |old(Contents)| then Some(old(Contents)[position]) else None
      ensures position >= |old(Contents)| ==> unchanged(this) && unchanged(Repr)
      ensures position < |old(Contents)| ==>
                && Contents == Removed(old(Contents), position)
                && Nodes == Removed(old(Nodes), position)
                && size == (if old(size) == 0 then SizeMax else old(size) - 1)
                && tail == (if position + 1 < |old(Nodes)| then old(tail)
                            else if position == 0 then null else old(Nodes)[position - 1])
      ensures old(Counted()) ==> Counted()
    {
      if head == null {
        return None;
      }
      var current := head;
      var currentPos := 0;
      while current != null
        invariant Valid() && unchanged(this) && unchanged(Repr)
        invariant 0 <= currentPos <= |Nodes| && currentPos <= position
        invariant current == if currentPos < |Nodes| then Nodes[currentPos] else null
        decreases |Nodes| - currentPos
      {
        if currentPos == position {
          Unlink(current, position);
          var removedData := current.data;
          size := if size == 0 then SizeMax else size - 1;
          return Some(removedData);
        }
        current := current.next;
        currentPos := currentPos + 1;
      }
      return None;
    }

    /** Takes `current`, the node at `position`, out of the chain by relinking its neighbours. */
    method Unlink(current: Node<T>, position: nat)
      requires Valid() && position < |Nodes| && current == Nodes[position]
      modifies this`head, this`tail, this`Nodes, this`Contents, this`Repr, Repr
      ensures Valid() && Repr == old(Repr) - {current}
      ensures current.data == old(current.data)
      ensures Contents == Removed(old(Contents), position)
      ensures Nodes == Removed(old(Nodes), position)
      ensures tail == (if position + 1 < |old(Nodes)| then old(tail)
                       else if position == 0 then null else old(Nodes)[position - 1])
    {
      ghost var n0 := Nodes;
      assert position > 0 ==> current.previous == n0[position - 1] && n0[position - 1] in Repr;
      assert position + 1 < |n0| ==> current.next == n0[position + 1] && n0[position + 1] in Repr;
      if current.previous != null {
        current.previous.next := current.next;
      } else {
        head := current.next;
      }
      if current.next != null {
        current.next.previous := current.previous;
      } else {
        tail := current.previous;
      }
      Nodes, Contents, Repr := Removed(Nodes, position), Removed(Contents, position), Repr - {current};
      forall i | 0 < i < |Nodes|
        ensures Nodes[i].previous == Nodes[i - 1] && Nodes[i - 1].next == Nodes[i]
      {
        if i < position {
          assert Nodes[i] == n0[i] && Nodes[i - 1] == n0[i - 1] != n0[position - 1];
          assert position + 1 < |n0| ==> n0[i] != n0[position + 1];
        } else if i > position {
          assert Nodes[i] == n0[i + 1] != n0[position + 1] && Nodes[i - 1] == n0[i];
          assert position > 0 ==> n0[i] != n0[position - 1];
        }
      }
    }

    /** The element at `position`, or absent when `position` is past the chain. */
    method Get(position: nat) returns (r: Option<T>)
      requires Valid()
      ensures r == if position < |Contents| then Some(Contents[position]) else None
    {
      var current := head;
      var currentPosition := 0;
      while current != null
        invariant 0 <= currentPosition <= |Nodes| && currentPosition <= position
        invariant current == if currentPosition < |Nodes| then Nodes[currentPosition] else null
        decreases |Nodes| - currentPosition
      {
        if currentPosition == position {
          return Some(current.data);
        }
        current := current.next;
        currentPosition := currentPosition + 1;
      }
      return None;
    }

    /** `{a, b, c}`: each element's text, ", "-separated, in braces. */
    method ToString(show: T -> string) returns (s: string)
      requires Valid()
      ensures s == Render(Contents, show)
    {
      s := "{";
      var current := head;
      ghost var i := 0;
      while current != null
        invariant 0 <= i <= |Nodes|
        invariant current == if i < |Nodes| then Nodes[i] else null
        invariant s == "{" + Items(Contents[..i], show) + (if 0 < i < |Nodes| then ", " else "")
        decreases |Nodes| - i
      {
        assert Contents[..i + 1][..i] == Contents[..i];
        s := s + show(current.data);
        if current.next != null {
          s := s + ", ";
        }
        current := current.next;
        i := i + 1;
      }
      assert Contents[..i] == Contents;
      s := s + "}";
    }

    /** Drops every node and resets the list to empty. */
    method Clear()
      requires Valid()
      modifies this
      ensures Valid() && Counted() && TailIsLast()
      ensures Contents == [] && head == null && tail == null && size == 0 && Repr == {}
    {
      head, tail, size := null, null, 0;
      Nodes, Contents, Repr := [], [], {};
    }
  }
}
