/**
 * VSArray: a growable array. The live elements sit in slots `[0, size)` of
 * the store `data`, whose length is `capacity`; when an insertion finds the
 * store full, the store is replaced by one `capacity * (1 + delta)` slots
 * long, the product truncated to a whole count.
 *
 * The growth factor `delta` is a `double` in the C++ source; here it is the
 * non-negative rational `deltaNum / deltaDen`, fixed at construction.
 * Element slots hold element handles of type `T`; cloning is the element
 * capability `clone`.
 */
module GrowableArray {
  import opened ListContract

  /**
   * The capacity a resize produces: `capacity * (1 + num / den)` truncated
   * toward zero, as the cast to `size_t` does.
   */
  function Grown(capacity: nat, num: nat, den: nat): (r: nat)
    requires den > 0
    ensures r * den <= capacity * (den + num) < (r + 1) * den
  {
    capacity * (den + num) / den
  }

  /** Multiplying both sides by the same non-negative count keeps their order. */
  lemma MulMonotone(a: int, b: int, d: nat)
    requires a <= b
    ensures a * d <= b * d
  {
    assert b * d - a * d == (b - a) * d;
  }

  /** A resize never shrinks the store, so every live element still has a slot. */
  lemma GrownNeverShrinks(capacity: nat, num: nat, den: nat)
    requires den > 0
    ensures capacity <= Grown(capacity, num, den)
  {
    var r := Grown(capacity, num, den);
    assert capacity * (den + num) == capacity * den + capacity * num;
    if r + 1 <= capacity {
      MulMonotone(r + 1, capacity, den);
    }
  }

  /**
   * A resize adds at least one slot exactly when the growth `capacity * delta`
   * reaches a whole slot; below that the truncation gives the old capacity back.
   */
  lemma GrowsIff(capacity: nat, num: nat, den: nat)
    requires den > 0
    ensures capacity < Grown(capacity, num, den) <==> den <= capacity * num
  {
    var r := Grown(capacity, num, den);
    assert capacity * (den + num) == capacity * den + capacity * num;
    assert (capacity + 1) * den == capacity * den + den;
    if capacity < r {
      MulMonotone(capacity + 1, r, den);
    } else {
      MulMonotone(r + 1, capacity + 1, den);
    }
  }

  /** Capacity 2 with growth factor 0.5 grows to 3 slots. */
  lemma GrowthByHalf()
    ensures Grown(2, 1, 2) == 3
  {
  }

  /** Capacity 2 with growth factor 0.4 stays at 2 slots: 2 * 1.4 = 2.8 truncates to 2. */
  lemma TruncatedGrowthStalls()
    ensures Grown(2, 2, 5) == 2
  {
  }

  class VSArray<T(0)> {
    var data: array<T>
    var size: nat
    var capacity: nat
    const deltaNum: nat
    const deltaDen: nat

    /** The store is `capacity` slots long and holds the `size` live elements. */
    ghost predicate Valid()
      reads this`data, this`size, this`capacity
    {
      data.Length == capacity && size <= capacity && deltaDen > 0
    }

    /** The list's value: the live slots, in order. */
    ghost function Contents(): (r: seq<T>)
      requires Valid()
      reads this`data, this`size, this`capacity, data
      ensures |r| == size
    {
      data[..size]
    }

    /** An empty array with a store of `capacity` slots and growth factor `deltaNum / deltaDen`. */
    constructor (capacity: nat, deltaNum: nat, deltaDen: nat)
      requires deltaDen > 0
      ensures Valid() && fresh(data) && Contents() == []
      ensures this.capacity == capacity && this.deltaNum == deltaNum && this.deltaDen == deltaDen
    {
      this.capacity := capacity;
      this.deltaNum, this.deltaDen := deltaNum, deltaDen;
      data := new T[capacity];
      size := 0;
    }

    /**
     * Copy constructor: a store of `other`'s capacity whose live slots hold
     * clones of `other`'s elements, and `other`'s count and growth factor.
     */
    constructor Copy(other: VSArray<T>, clone: T -> T)
      requires other.Valid()
      ensures Valid() && fresh(data)
      ensures capacity == other.capacity && deltaNum == other.deltaNum && deltaDen == other.deltaDen
      ensures size == other.size
      ensures forall i :: 0 <= i < size ==> Contents()[i] == clone(other.Contents()[i])
    {
      size := other.size;
      capacity := other.capacity;
      deltaNum, deltaDen := other.deltaNum, other.deltaDen;
      data := new T[other.capacity];
      new;
      var i := 0;
      while i < other.size
        invariant 0 <= i <= other.size
        invariant forall k :: 0 <= k < i ==> data[k] == clone(other.data[k])
        modifies data
      {
        data[i] := clone(other.data[i]);
        i := i + 1;
      }
    }

    /**
     * Copy assignment: takes over the store, count and capacity of a fresh
     * copy of `rhs` (the growth factor is not exchanged, so this array keeps
     * its own); self-assignment changes nothing.
     */
    method Assign(rhs: VSArray<T>, clone: T -> T)
      requires Valid() && rhs.Valid()
      modifies this
      ensures Valid()
      ensures this == rhs ==> unchanged(this)
      ensures this != rhs ==>
                && fresh(data)
                && capacity == old(rhs.capacity) && size == old(rhs.size)
                && forall i :: 0 <= i < size ==> Contents()[i] == clone(old(rhs.Contents())[i])
    {
      if this == rhs {
        return;
      }
      var copy := new VSArray.Copy(rhs, clone);
      ghost var copied := copy.Contents();
      assert forall i :: 0 <= i < |copied| ==> copied[i] == clone(old(rhs.Contents())[i]);
      var swapArray, swapSize, swapCapacity := data, size, capacity;
      data, capacity, size := copy.data, copy.capacity, copy.size;
      copy.data, copy.size, copy.capacity := swapArray, swapSize, swapCapacity;
      assert Contents() == copied;
    }

    /** Moves the live elements into a new store of `Grown(capacity)` slots. */
    method Resize()
      requires Valid()
      modifies this`data, this`capacity
      ensures Valid() && fresh(data)
      ensures capacity == Grown(old(capacity), deltaNum, deltaDen)
      ensures Contents() == old(Contents())
    {
      var newCapacity := Grown(capacity, deltaNum, deltaDen);
      GrownNeverShrinks(capacity, deltaNum, deltaDen);
      var newData := new T[newCapacity];
      var i := 0;
      while i < size
        invariant 0 <= i <= size
        invariant forall k :: 0 <= k < i ==> newData[k] == data[k]
        modifies newData
      {
        newData[i] := data[i];
        i := i + 1;
      }
      data := newData;
      capacity := newCapacity;
    }

    /**
     * Inserts `element` so that it becomes the element at `position`,
     * resizing first when the store is full; fails, changing nothing, when
     * `position` exceeds the count.
     */
    method Insert(element: T, position: nat) returns (ok: bool)
      requires Valid()
      // a resize of a full store must add a slot, or the shift writes past its end
      requires position <= size && size == capacity ==> capacity < Grown(capacity, deltaNum, deltaDen)
      modifies this`data, this`size, this`capacity, data
      ensures Valid()
      ensures ok == (position <= old(size))
      ensures !ok ==> unchanged(this) && unchanged(data)
      ensures ok ==> size == old(size) + 1 && Contents() == Inserted(old(Contents()), position, element)
      ensures ok ==> capacity == if old(size) == old(capacity) then Grown(old(capacity), deltaNum, deltaDen)
                                 else old(capacity)
      ensures if ok && old(size) == old(capacity) then fresh(data) else data == old(data)
    {
      if position > size {
        return false;
      }
      if size == capacity {
        Resize();
      }
      ghost var s0 := Contents();
      var i := size;
      while i > position
        invariant position <= i <= size < data.Length
        invariant forall k :: 0 <= k < i ==> data[k] == s0[k]
        invariant forall k :: i < k <= size ==> data[k] == s0[k - 1]
        modifies data
      {
        data[i] := data[i - 1];
        i := i - 1;
      }
      data[position] := element;
      size := size + 1;
      return true;
    }

    /** The position of the first element that Equals `element`, or -1. */
    method IndexOf(element: T, equals: (T, T) -> bool) returns (r: int)
      requires Valid()
      ensures r == FirstMatch(Contents(), element, equals)
    {
      var i := 0;
      while i < size
        invariant 0 <= i <= size
        invariant forall k :: 0 <= k < i ==> !equals(data[k], element)
      {
        if equals(data[i], element) {
          return i;
        }
        i := i + 1;
      }
      return -1;
    }

    /**
     * Takes out the element at `position`, shifting the later ones down, and
     * returns it; absent, changing nothing, when `position` is not a live slot.
     */
    method Remove(position: nat) returns (r: Option<T>)
      requires Valid()
      modifies this`size, data
      ensures Valid()
      ensures r == if position < old(size) then Some(old(Contents())[position]) else None
      ensures position >= old(size) ==> unchanged(this) && unchanged(data)
      ensures position < old(size) ==> size == old(size) - 1 && Contents() == Removed(old(Contents()), position)
    {
      if position >= size {
        return None;
      }
      var removedElement := data[position];
      var i := position;
      while i < size - 1
        invariant position <= i <= size - 1
        invariant forall k :: 0 <= k < i ==> data[k] == old(Contents())[if k < position then k else k + 1]
        invariant forall k :: i <= k < size ==> data[k] == old(data[k])
        modifies data
      {
        data[i] := data[i + 1];
        i := i + 1;
      }
      size := size - 1;
      return Some(removedElement);
    }

    /** The element at `position`, or absent when `position` is not a live slot. */
    function Get(position: nat): (r: Option<T>)
      requires Valid()
      reads this`data, this`size, this`capacity, data
      ensures r.Some? <==> position < |Contents()|
      ensures r.Some? ==> r.value == Contents()[position]
    {
      if position >= size then None else Some(data[position])
    }

    /** `{a, b, c}`: each element's text, ", "-separated, in braces. */
    method ToString(show: T -> string) returns (s: string)
      requires Valid()
      ensures s == Render(Contents(), show)
    {
      s := "{";
      var i := 0;
      while i < size
        invariant 0 <= i <= size
        invariant s == "{" + Items(data[..i], show) + (if 0 < i < size then ", " else "")
      {
        assert data[..i + 1][..i] == data[..i];
        s := s + show(data[i]);
        if i < size - 1 {
          s := s + ", ";
        }
        i := i + 1;
      }
      s := s + "}";
    }

    /** Drops every element; the store and its capacity stay. */
    method Clear()
      requires Valid()
      modifies this`size
      ensures Valid() && Contents() == [] && capacity == old(capacity)
    {
      size := 0;
    }

    /** The store's slot count, which always covers the live elements. */
    function GetCapacity(): (r: nat)
      requires Valid()
      reads this`data, this`size, this`capacity
      ensures r == data.Length && size <= r
    {
      capacity
    }
  }
}
