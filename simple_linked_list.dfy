/**
 * The positional singly-linked list of src/lists/simple_linked_list.rs.
 *
 * The list owns a chain of nodes reached from `head` and keeps a `len`
 * counter. The ghost sequence `nodes` names the chain link by link and the
 * ghost sequence `elems` is the abstract value the list stands for; `Valid()`
 * ties both to the real fields.
 */
module LinkedLists {
  import opened Prelude

  /** The errors of `LinkedListError`. */
  datatype LinkedListError = IndexError(index: nat) | Empty | Unknown

  // ---------------------------------------------------------------------
  // The sequence-level view of the positional operations
  // ---------------------------------------------------------------------

  /** `s` with `v` inserted so that it ends up at position `i`. */
  function Inserted<T>(s: seq<T>, i: nat, v: T): (r: seq<T>)
    requires i <= |s|
    ensures |r| == |s| + 1
    ensures r[i] == v
    ensures forall j :: 0 <= j < i ==> r[j] == s[j]
    ensures forall j :: i < j < |r| ==> r[j] == s[j - 1]
  {
    s[..i] + [v] + s[i..]
  }

  /** `s` without the element at position `i`. */
  function Removed<T>(s: seq<T>, i: nat): (r: seq<T>)
    requires i < |s|
    ensures |r| == |s| - 1
    ensures forall j :: 0 <= j < i ==> r[j] == s[j]
    ensures forall j :: i <= j < |r| ==> r[j] == s[j + 1]
  {
    s[..i] + s[i + 1..]
  }

  /**
   * Removing the element at `i` and inserting it again at `i` restores the
   * sequence. On the list itself see `RemoveThenAddAt`, which also respects
   * `add_at`'s restriction on position 0.
   */
  lemma RemoveThenInsert<T>(s: seq<T>, i: nat)
    requires i < |s|
    ensures Inserted(Removed(s, i), i, s[i]) == s
  {
  }

  /**
   * Inserting at `i` and then removing at `i` gives back the element and the
   * sequence. On the list itself see `AddAtThenRemove`.
   */
  lemma InsertThenRemove<T>(s: seq<T>, i: nat, v: T)
    requires i <= |s|
    ensures Inserted(s, i, v)[i] == v
    ensures Removed(Inserted(s, i, v), i) == s
  {
  }

  /** Inserting at the end position is appending. */
  lemma InsertAtEnd<T>(s: seq<T>, v: T)
    ensures Inserted(s, |s|, v) == s + [v]
  {
  }

  /** Removing at the last position drops the last element. */
  lemma RemoveLast<T>(s: seq<T>)
    requires s != []
    ensures Removed(s, |s| - 1) == s[..|s| - 1]
  {
  }

  // ---------------------------------------------------------------------
  // Rendering (the `Display` implementation)
  // ---------------------------------------------------------------------

  /** One step of the rendering loop: the first piece goes in alone, later ones after " -> ". */
  function Appended(acc: string, piece: string): string
  {
    if acc == "" then piece else acc + " -> " + piece
  }

  /** What the rendering loop has built after visiting the elements `xs` in order. */
  function Rendering<T>(xs: seq<T>, show: T -> string): string
  {
    if xs == [] then "" else Appended(Rendering(xs[..|xs| - 1], show), show(xs[|xs| - 1]))
  }

  /** The plain "a -> b -> c" join, as an independent reference definition. */
  function Joined<T>(xs: seq<T>, show: T -> string): string
  {
    if xs == [] then ""
    else if |xs| == 1 then show(xs[0])
    else show(xs[0]) + " -> " + Joined(xs[1..], show)
  }

  lemma {:induction false} JoinedSnoc<T>(xs: seq<T>, x: T, show: T -> string)
    requires xs != []
    ensures Joined(xs + [x], show) == Joined(xs, show) + " -> " + show(x)
    decreases |xs|
  {
    if |xs| == 1 {
      assert (xs + [x])[1..] == [x];
    } else {
      assert (xs + [x])[1..] == xs[1..] + [x];
      JoinedSnoc(xs[1..], x, show);
    }
  }

  /**
   * When no element renders as the empty string, the rendering loop produces
   * exactly the elements joined by " -> ", and the empty list renders as "".
   */
  lemma {:induction false} RenderingIsJoin<T>(xs: seq<T>, show: T -> string)
    requires forall i :: 0 <= i < |xs| ==> show(xs[i]) != ""
    ensures Rendering(xs, show) == Joined(xs, show)
    ensures Rendering(xs, show) == "" <==> xs == []
    decreases |xs|
  {
    if xs != [] {
      var init := xs[..|xs| - 1];
      RenderingIsJoin(init, show);
      if init != [] {
        assert xs == init + [xs[|xs| - 1]];
        JoinedSnoc(init, xs[|xs| - 1], show);
      }
    }
  }

  /** The Debug rendering of an integer, used by the display tests below. */
  function Decimal(n: int): string
    decreases if n < 0 then 1 - n else n
  {
    if n < 0 then "-" + Decimal(-n)
    else if n < 10 then [(('0' as int) + n) as char]
    else Decimal(n / 10) + Decimal(n % 10)
  }

  /** Every integer renders as a non-empty string. */
  lemma DecimalNonEmpty(n: int)
    ensures Decimal(n) != ""
  {
  }

  /** A list of integers renders as its elements joined by " -> ". */
  lemma IntRenderingIsJoin(xs: seq<int>)
    ensures Rendering(xs, Decimal) == Joined(xs, Decimal)
    ensures Rendering(xs, Decimal) == "" <==> xs == []
  {
    forall i | 0 <= i < |xs| ensures Decimal(xs[i]) != "" {
      DecimalNonEmpty(xs[i]);
    }
    RenderingIsJoin(xs, Decimal);
  }

  // ---------------------------------------------------------------------
  // The imperative list
  // ---------------------------------------------------------------------

  /** One link of the chain: a value and the reference to the next link, if any. */
  class Node<T> {
    var value: T
    var next: Node?<T>

    constructor (value: T)
      ensures this.value == value && next == null
    {
      this.value := value;
      next := null;
    }
  }

  class LinkedList<T> {
    var head: Node?<T>
    var len: nat

    ghost var elems: seq<T>
    ghost var nodes: seq<Node<T>>
    ghost var Repr: set<object>

    /**
     * The chain from `head` spells `elems`, the last node ends it and no node
     * occurs twice.
     */
    ghost predicate Chained()
      reads this, Repr
    {
      this in Repr &&
      (forall i :: 0 <= i < |nodes| ==> nodes[i] in Repr) &&
      |nodes| == |elems| &&
      head == (if nodes == [] then null else nodes[0]) &&
      (forall i :: 0 <= i < |nodes| ==> nodes[i].value == elems[i]) &&
      (forall i :: 0 <= i < |nodes| - 1 ==> nodes[i].next == nodes[i + 1]) &&
      (nodes != [] ==> nodes[|nodes| - 1].next == null) &&
      (forall i, j :: 0 <= i < j < |nodes| ==> nodes[i] != nodes[j])
    }

    /** The chain invariant, with `len` the number of nodes in the chain. */
    ghost predicate Valid()
      reads this, Repr
    {
      Chained() && len == |nodes|
    }

    constructor ()
      ensures Valid() && fresh(Repr)
      ensures elems == [] && len == 0 && head == null
    {
      head := null;
      len := 0;
      elems := [];
      nodes := [];
      Repr := {this};
    }

    /** Appends `value`; implemented, as in the source, as `add_at(len, value)`. */
    method Push(value: T)
      requires Valid()
      modifies Repr
      ensures Valid() && fresh(Repr - old(Repr))
      ensures elems == old(elems) + [value]
    {
      var ignored := AddAt(len, value);
      InsertAtEnd(old(elems), value);
    }

    /**
     * Inserts `value` so that it ends up at position `index`. The source
     * cannot insert at position 0 of a non-empty list (its traversal count
     * `index - 1` underflows), so that call is excluded.
     */
    method AddAt(index: nat, value: T) returns (r: Result<(), LinkedListError>)
      requires Valid()
      requires index == 0 ==> len == 0
      modifies Repr
      ensures Valid() && fresh(Repr - old(Repr))
      ensures index > old(len) ==> r == Err(IndexError(index)) && unchanged(old(Repr))
      ensures index <= old(len) ==> r == Ok(()) && elems == Inserted(old(elems), index, value)
      ensures len == |elems|
    {
      if index > len {
        return Err(IndexError(index));
      }
      var iter := head;
      len := len + 1;
      var newNode := new Node(value);
      if iter == null {
        head := newNode;
        elems := [value];
        nodes := [newNode];
        Repr := Repr + {newNode};
        return Ok(());
      }
      // Walk to the predecessor of the insertion point, `index - 1` links on.
      for k := 0 to index - 1
        invariant iter == nodes[k]
      {
        iter := iter.next;
      }
      // The source's `None => Err(Unknown)` arm is unreachable: the walk
      // stays inside the chain because `len` counts its nodes.
      LinkAfter(iter, newNode, index);
      r := Ok(());
    }

    /**
     * The splice at the end of `add_at`: `node` takes over the successor of
     * `pred`, the node at position `index - 1`, and becomes its successor.
     * `len` already counts the new node.
     */
    method LinkAfter(pred: Node<T>, node: Node<T>, ghost index: nat)
      requires Chained() && len == |nodes| + 1
      requires 0 < index <= |nodes| && pred == nodes[index - 1]
      requires node !in Repr && node.next == null
      modifies this, pred, node
      ensures Valid() && Repr == old(Repr) + {node} && len == old(len)
      ensures elems == Inserted(old(elems), index, old(node.value))
    {
      ghost var chain := nodes;
      ghost var linked := Inserted(chain, index, node);
      node.next := pred.next;
      pred.next := node;
      forall i | 0 <= i < |linked| - 1
        ensures linked[i].next == linked[i + 1]
      {
        if i < index - 1 {
          assert chain[i] != chain[index - 1];
        } else if i > index {
          assert chain[i - 1] != chain[index - 1];
        }
      }
      assert linked[|linked| - 1].next == null by {
        if index < |chain| {
          assert chain[|chain| - 1] != chain[index - 1];
        }
      }
      forall i, j | 0 <= i < j < |linked| ensures linked[i] != linked[j] {
        if i == index || j == index {
        } else if i < index && j < index {
          assert linked[i] == chain[i] && linked[j] == chain[j];
        } else if i < index {
          assert linked[i] == chain[i] && linked[j] == chain[j - 1];
        } else {
          assert linked[i] == chain[i - 1] && linked[j] == chain[j - 1];
        }
      }
      elems := Inserted(elems, index, node.value);
      nodes := linked;
      Repr := Repr + {node};
    }

    /** Unlinks and returns the element at `index`; `Empty` is checked before the index. */
    method RemoveAt(index: nat) returns (r: Result<T, LinkedListError>)
      requires Valid()
      modifies Repr
      ensures Valid() && fresh(Repr - old(Repr))
      ensures old(len) == 0 ==> r == Err(Empty) && unchanged(old(Repr))
      ensures 0 < old(len) <= index ==> r == Err(IndexError(index)) && unchanged(old(Repr))
      ensures index < old(len) ==> r == Ok(old(elems)[index]) && elems == Removed(old(elems), index)
      ensures len == |elems|
    {
      if len == 0 {
        return Err(Empty);
      }
      if index >= len {
        return Err(IndexError(index));
      }
      len := len - 1;
      if index == 0 {
        var removed := head;
        assert removed.next == if 1 < |nodes| then nodes[1] else null;
        head := removed.next;
        elems := elems[1..];
        nodes := nodes[1..];
        return Ok(removed.value);
      }
      var iter := head;
      for k := 0 to index - 1
        invariant iter == nodes[k]
      {
        iter := iter.next;
      }
      // `iter` is the predecessor; the source's `unwrap` and its trailing
      // `Err(Unknown)` cannot fail because the chain has `len` nodes.
      var value := UnlinkAfter(iter, index);
      r := Ok(value);
    }

    /**
     * The splice of `remove_at` past the head: the successor of `pred`, the
     * node at position `index - 1`, is unlinked and its value returned.
     * `len` has already been decremented.
     */
    method UnlinkAfter(pred: Node<T>, ghost index: nat) returns (value: T)
      requires Chained() && len + 1 == |nodes|
      requires 0 < index < |nodes| && pred == nodes[index - 1]
      modifies this, pred
      ensures Valid() && Repr == old(Repr) && len == old(len)
      ensures value == old(elems)[index] && elems == Removed(old(elems), index)
    {
      ghost var chain := nodes;
      ghost var unlinked := Removed(chain, index);
      var removed := pred.next;
      assert removed == chain[index];
      pred.next := removed.next;
      forall i | 0 <= i < |unlinked| - 1
        ensures unlinked[i].next == unlinked[i + 1]
      {
        if i < index - 1 {
          assert chain[i] != chain[index - 1];
        } else if i >= index {
          assert chain[i + 1] != chain[index - 1];
        }
      }
      assert unlinked[|unlinked| - 1].next == null by {
        if index < |unlinked| {
          assert chain[|chain| - 1] != chain[index - 1];
        }
      }
      forall i, j | 0 <= i < j < |unlinked| ensures unlinked[i] != unlinked[j] {
        if j < index {
          assert unlinked[i] == chain[i] && unlinked[j] == chain[j];
        } else if i < index {
          assert unlinked[i] == chain[i] && unlinked[j] == chain[j + 1];
        } else {
          assert unlinked[i] == chain[i + 1] && unlinked[j] == chain[j + 1];
        }
      }
      value := removed.value;
      elems := Removed(elems, index);
      nodes := unlinked;
    }

    /** Removes and returns the last element, as `remove_at(len - 1)`. */
    method Pop() returns (r: Result<T, LinkedListError>)
      requires Valid()
      modifies Repr
      ensures Valid() && fresh(Repr - old(Repr))
      ensures old(len) == 0 ==> r == Err(Empty) && unchanged(old(Repr))
      ensures old(len) > 0 ==> r == Ok(old(elems)[old(len) - 1]) && elems == old(elems)[..old(len) - 1]
    {
      if len == 0 {
        return Err(Empty);
      }
      r := RemoveAt(len - 1);
      RemoveLast(old(elems));
    }

    /** The element at `index`, found by walking `index` links from `head`; never changes the list. */
    method GetAt(index: nat) returns (r: Result<T, LinkedListError>)
      requires Valid()
      ensures index < |elems| ==> r == Ok(elems[index])
      ensures index >= |elems| ==> r == Err(IndexError(index))
    {
      if index >= len {
        return Err(IndexError(index));
      }
      var iter := head;
      for k := 0 to index
        invariant iter == nodes[k]
      {
        iter := iter.next;
      }
      // The source's `None => Err(Empty)` arm is unreachable for the same reason.
      r := Ok(iter.value);
    }

    /**
     * The `Display` rendering: calls `GetAt(0)`, `GetAt(1)`, ... until one
     * fails, rendering each element with `show`.
     */
    method Render(show: T -> string) returns (s: string)
      requires Valid()
      ensures s == Rendering(elems, show)
    {
      s := "";
      var counter := 0;
      while true
        invariant counter <= |elems|
        invariant s == Rendering(elems[..counter], show)
        decreases |elems| - counter
      {
        var item := GetAt(counter);
        if item.Err? {
          break;
        }
        assert elems[..counter + 1][..counter] == elems[..counter];
        if s == "" {
          s := show(item.value);
        } else {
          s := s + " -> " + show(item.value);
        }
        counter := counter + 1;
      }
      assert elems[..counter] == elems;
    }
  }

  /**
   * Removing the element at `i` and adding it back at `i` restores the list.
   * At the head this is a round trip only for a one-element list, which
   * `remove_at` empties; on a longer one `add_at(0, ·)` is refused.
   */
  method RemoveThenAddAt<T>(list: LinkedList<T>, i: nat) returns (removed: Result<T, LinkedListError>, added: Result<(), LinkedListError>)
    requires list.Valid() && i < list.len && (i == 0 ==> list.len == 1)
    modifies list.Repr
    ensures removed == Ok(old(list.elems)[i]) && added == Ok(())
    ensures list.Valid() && list.len == old(list.len) && list.elems == old(list.elems)
  {
    ghost var before := list.elems;
    removed := list.RemoveAt(i);
    added := list.AddAt(i, removed.value);
    RemoveThenInsert(before, i);
  }

  /**
   * Adding `v` at `i` and removing at `i` hands back `v` and restores the
   * list; position 0 is open to `add_at` only on the empty list.
   */
  method AddAtThenRemove<T>(list: LinkedList<T>, i: nat, v: T) returns (added: Result<(), LinkedListError>, removed: Result<T, LinkedListError>)
    requires list.Valid() && i <= list.len && (i == 0 ==> list.len == 0)
    modifies list.Repr
    ensures added == Ok(()) && removed == Ok(v)
    ensures list.Valid() && list.len == old(list.len) && list.elems == old(list.elems)
  {
    ghost var before := list.elems;
    added := list.AddAt(i, v);
    InsertThenRemove(before, i, v);
    removed := list.RemoveAt(i);
  }

  /** The `add_at` test: 31 at 0 of an empty list, then 66 at 1, then 420 at 1. */
  method AddAtTest() returns (list: LinkedList<int>, results: seq<Result<(), LinkedListError>>)
    ensures list.Valid() && list.len == 3
    ensures list.elems == [31, 420, 66]
    ensures results == [Ok(()), Ok(()), Ok(())]
  {
    list := new LinkedList<int>();
    var first := list.AddAt(0, 31);
    var second := list.AddAt(1, 66);
    var third := list.AddAt(1, 420);
    results := [first, second, third];
  }

  /** The `remove_at_head_and_tail` test: remove at 0, then at 1, from 1, 2, 3. */
  method RemoveAtHeadAndTailTest() returns (list: LinkedList<int>, headRes: Result<int, LinkedListError>, tailRes: Result<int, LinkedListError>)
    ensures list.Valid() && list.len == 1 && list.elems == [2]
    ensures headRes == Ok(1) && tailRes == Ok(3)
  {
    list := new LinkedList<int>();
    list.Push(1);
    list.Push(2);
    list.Push(3);
    headRes := list.RemoveAt(0);
    tailRes := list.RemoveAt(1);
  }

  lemma RenderOneTwoThree()
    ensures Rendering([1, 2, 3], Decimal) == "1 -> 2 -> 3"
  {
    assert [1, 2, 3][..2] == [1, 2];
    assert [1, 2][..1] == [1];
    assert Rendering([1], Decimal) == "1";
    assert Rendering([1, 2], Decimal) == "1 -> 2";
  }

  /** The `Display` tests: 1, 2, 3 render as "1 -> 2 -> 3" and the empty list as "". */
  method DisplayTest() returns (three: string, none: string)
    ensures three == "1 -> 2 -> 3"
    ensures none == ""
  {
    var empty := new LinkedList<int>();
    none := empty.Render(Decimal);
    var list := new LinkedList<int>();
    list.Push(1);
    list.Push(2);
    list.Push(3);
    assert list.elems == [1, 2, 3];
    three := list.Render(Decimal);
    RenderOneTwoThree();
  }
}
