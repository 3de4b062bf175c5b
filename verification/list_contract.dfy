/**
 * The sequence-level meaning shared by every list of the library: what
 * positional insertion and removal do to the contents, which position
 * IndexOf reports, and how ToString renders the contents. Both the growable
 * array and the doubly linked list are specified against these functions.
 *
 * Elements are values of a type parameter `T`; the element capabilities are
 * passed in as functions: `equals(stored, probe)` for Equals and
 * `show(x)` for ToString.
 */
module ListContract {

  /** A pointer that may be null: `None` is the "absent" sentinel. */
  datatype Option<T> = None | Some(value: T)

  /** The largest value of a 64-bit C++ `size_t`; decrementing a zero count wraps to it. */
  const SizeMax: nat := 0xFFFF_FFFF_FFFF_FFFF

  /** A value of a C++ `size_t`; operations that step a count wrap it explicitly at both ends. */
  type SizeT = n: nat | n <= SizeMax

  /** The contents after `x` is inserted so that it becomes the element at position `p`. */
  function Inserted<T>(s: seq<T>, p: nat, x: T): (r: seq<T>)
    requires p <= |s|
    ensures |r| == |s| + 1 && r[p] == x
    ensures forall i :: 0 <= i < p ==> r[i] == s[i]
    ensures forall i :: p < i < |r| ==> r[i] == s[i - 1]
  {
    s[..p] + [x] + s[p..]
  }

  /** The contents after the element at position `p` is taken out. */
  function Removed<T>(s: seq<T>, p: nat): (r: seq<T>)
    requires p < |s|
    ensures |r| == |s| - 1
    ensures forall i :: 0 <= i < p ==> r[i] == s[i]
    ensures forall i :: p <= i < |r| ==> r[i] == s[i + 1]
  {
    s[..p] + s[p + 1..]
  }

  /** Removing an element and inserting it again at the same position restores the list. */
  lemma RemoveThenInsert<T>(s: seq<T>, p: nat)
    requires p < |s|
    ensures Inserted(Removed(s, p), p, s[p]) == s
  {
    var r := Inserted(Removed(s, p), p, s[p]);
    forall i | 0 <= i < |s|
      ensures r[i] == s[i]
    {
      if i > p {
        assert r[i] == Removed(s, p)[i - 1];
      }
    }
  }

  /** Inserting an element and removing the same position restores the list. */
  lemma InsertThenRemove<T>(s: seq<T>, p: nat, x: T)
    requires p <= |s|
    ensures Removed(Inserted(s, p, x), p) == s
  {
    var r := Removed(Inserted(s, p, x), p);
    forall i | 0 <= i < |s|
      ensures r[i] == s[i]
    {
      if i >= p {
        assert r[i] == Inserted(s, p, x)[i + 1];
      }
    }
  }

  /** An insertion adds exactly the inserted element and keeps every other one. */
  lemma InsertedMultiset<T>(s: seq<T>, p: nat, x: T)
    requires p <= |s|
    ensures multiset(Inserted(s, p, x)) == multiset(s) + multiset{x}
  {
    assert s == s[..p] + s[p..];
  }

  /**
   * The position IndexOf reports: the smallest index whose element Equals
   * the probe, or -1 when none does.
   */
  function FirstMatch<T>(s: seq<T>, probe: T, equals: (T, T) -> bool): (r: int)
    ensures -1 <= r < |s|
    ensures r == -1 <==> forall i :: 0 <= i < |s| ==> !equals(s[i], probe)
    ensures r != -1 ==> equals(s[r], probe) && forall i :: 0 <= i < r ==> !equals(s[i], probe)
  {
    if s == [] then -1
    else if equals(s[0], probe) then 0
    else
      var r := FirstMatch(s[1..], probe, equals);
      if r == -1 then -1 else r + 1
  }

  /**
   * The body of the rendering, in the order the output stream receives it:
   * each element's text, preceded by ", " unless it is the first.
   */
  function Items<T>(s: seq<T>, show: T -> string): string
  {
    if s == [] then ""
    else Items(s[..|s| - 1], show) + (if |s| > 1 then ", " else "") + show(s[|s| - 1])
  }

  /** ToString of a list: `{e0, e1, ..., en}`, and `{}` for the empty list. */
  function Render<T>(s: seq<T>, show: T -> string): (r: string)
    ensures |r| >= 2 && r[0] == '{' && r[|r| - 1] == '}'
    ensures s == [] ==> r == "{}"
  {
    "{" + Items(s, show) + "}"
  }

  /** The element texts, in list order. */
  function Shown<T>(s: seq<T>, show: T -> string): (r: seq<string>)
    ensures |r| == |s| && forall i :: 0 <= i < |s| ==> r[i] == show(s[i])
  {
    if s == [] then [] else [show(s[0])] + Shown(s[1..], show)
  }

  /** An independent reference for the body: the texts joined by ", ", first to last. */
  function Join(parts: seq<string>): string
  {
    if |parts| == 0 then ""
    else if |parts| == 1 then parts[0]
    else parts[0] + ", " + Join(parts[1..])
  }

  /** Appending one more text to a join adds a separator only when the join was not empty. */
  lemma {:induction false} JoinSnoc(parts: seq<string>, q: string)
    ensures Join(parts + [q]) == Join(parts) + (if |parts| > 0 then ", " else "") + q
  {
    if |parts| > 1 {
      assert (parts + [q])[1..] == parts[1..] + [q];
      JoinSnoc(parts[1..], q);
    } else if |parts| == 1 {
      assert (parts + [q])[1..] == [q];
    }
  }

  /** The streamed body is exactly the ", "-join of the element texts. */
  lemma {:induction false} ItemsIsJoin<T>(s: seq<T>, show: T -> string)
    ensures Items(s, show) == Join(Shown(s, show))
  {
    if s != [] {
      var init := s[..|s| - 1];
      ItemsIsJoin(init, show);
      assert Shown(s, show) == Shown(init, show) + [show(s[|s| - 1])];
      JoinSnoc(Shown(init, show), show(s[|s| - 1]));
    }
  }

  /** ToString of a list is its element texts, ", "-joined, in braces. */
  lemma RenderIsJoin<T>(s: seq<T>, show: T -> string)
    ensures Render(s, show) == "{" + Join(Shown(s, show)) + "}"
  {
    ItemsIsJoin(s, show);
  }
}
