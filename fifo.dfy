/**
 * The queue of src/lists/fifo.rs.
 *
 * In the source every link is a shared, mutable cell holding an optional
 * node, and a node holds a value and the cell of the next link. `head` and
 * `tail` are two references to such cells; when the queue holds exactly one
 * element they are the same cell, so emptying it through `head` also empties
 * what `tail` sees. Here a cell is an object with one mutable `slot` and a
 * node is a value. The ghost sequence `cells` names the linked cells from
 * head to tail and `elems` is the queue they stand for.
 */
module Fifos {
  import opened Prelude

  /** A node: its value and the cell of the next link. */
  datatype Node<T> = Node(value: T, next: Cell<T>)

  /** A shared cell that may hold a node. */
  class Cell<T> {
    var slot: Option<Node<T>>

    constructor (slot: Option<Node<T>>)
      ensures this.slot == slot
    {
      this.slot := slot;
    }
  }

  class Fifo<T> {
    var head: Cell<T>
    var tail: Cell<T>
    var len: nat

    ghost var elems: seq<T>
    ghost var cells: seq<Cell<T>>
    ghost var Repr: set<object>

    /**
     * The cells from `head` to `tail` are full, distinct, linked in order and
     * spell `elems`; the last node links to an empty cell. An empty queue has
     * empty `head` and `tail` cells.
     */
    ghost predicate Chained()
      reads this, Repr
    {
      this in Repr && head in Repr && tail in Repr &&
      (forall i :: 0 <= i < |cells| ==> cells[i] in Repr) &&
      |cells| == |elems| &&
      (forall i :: 0 <= i < |cells| ==> cells[i].slot.Some? && cells[i].slot.value.value == elems[i]) &&
      (forall i :: 0 <= i < |cells| - 1 ==> cells[i].slot.value.next == cells[i + 1]) &&
      (forall i, j :: 0 <= i < j < |cells| ==> cells[i] != cells[j]) &&
      (cells == [] ==> head.slot.None? && tail.slot.None?) &&
      (cells != [] ==>
         head == cells[0] && tail == cells[|cells| - 1] &&
         tail.slot.value.next in Repr && tail.slot.value.next.slot.None?)
    }

    /** The chain invariant, with `len` counting the queued elements. */
    ghost predicate Valid()
      reads this, Repr
    {
      Chained() && len == |cells|
    }

    /** The value in the head cell, as the source's tests inspect it. */
    function Front(): (r: Option<T>)
      requires Valid()
      reads this, Repr
      ensures r == if elems == [] then None else Some(elems[0])
    {
      if head.slot.Some? then Some(head.slot.value.value) else None
    }

    /** The value in the tail cell. */
    function Back(): (r: Option<T>)
      requires Valid()
      reads this, Repr
      ensures r == if elems == [] then None else Some(elems[|elems| - 1])
    {
      if tail.slot.Some? then Some(tail.slot.value.value) else None
    }

    constructor ()
      ensures Valid() && fresh(Repr)
      ensures elems == [] && len == 0
    {
      head := new Cell(None);
      tail := new Cell(None);
      len := 0;
      elems := [];
      cells := [];
      new;
      Repr := {this, head, tail};
    }

    /** Appends `value` at the tail; on an empty queue the new cell becomes both head and tail. */
    method Push(value: T)
      requires Valid()
      modifies Repr
      ensures Valid() && fresh(Repr - old(Repr))
      ensures elems == old(elems) + [value] && len == old(len) + 1
      ensures Back() == Some(value)
      ensures old(elems) == [] ==> head == tail && fresh(head)
    {
      var spare := new Cell(None);
      var newCell := new Cell(Some(Node(value, spare)));
      // The source counts the element after linking it; nothing reads `len`
      // in between, so it is counted first here.
      len := len + 1;
      if tail.slot.Some? {
        LinkAfterTail(newCell);
      } else {
        LinkFirst(newCell);
      }
    }

    /** The empty case of `push`: the new cell becomes both head and tail. */
    method LinkFirst(newCell: Cell<T>)
      requires Chained() && len == |cells| + 1 && tail.slot.None?
      requires newCell !in Repr && newCell.slot.Some?
      requires newCell.slot.value.next !in Repr && newCell.slot.value.next != newCell
      requires newCell.slot.value.next.slot.None?
      modifies this
      ensures Valid() && len == old(len)
      ensures Repr == old(Repr) + {newCell, newCell.slot.value.next}
      ensures elems == old(elems) + [newCell.slot.value.value]
      ensures head == newCell && tail == newCell
    {
      head := newCell;
      tail := newCell;
      elems := [newCell.slot.value.value];
      cells := [newCell];
      Repr := Repr + {newCell, newCell.slot.value.next};
    }

    /**
     * The non-empty case of `push`: the tail node's link is replaced by the
     * new cell, which becomes the tail.
     */
    method LinkAfterTail(newCell: Cell<T>)
      requires Chained() && len == |cells| + 1 && tail.slot.Some?
      requires newCell !in Repr && newCell.slot.Some?
      requires newCell.slot.value.next !in Repr && newCell.slot.value.next != newCell
      requires newCell.slot.value.next.slot.None?
      modifies this, tail
      ensures Valid() && len == old(len)
      ensures Repr == old(Repr) + {newCell, newCell.slot.value.next}
      ensures elems == old(elems) + [newCell.slot.value.value]
      ensures tail == newCell && head == old(head)
    {
      ghost var chain := cells;
      ghost var last := |chain| - 1;
      tail.slot := Some(tail.slot.value.(next := newCell));
      ghost var spare := newCell.slot.value.next;
      tail := newCell;
      forall i | 0 <= i < last
        ensures chain[i].slot.Some? && chain[i].slot.value.value == elems[i]
        ensures chain[i].slot.value.next == chain[i + 1]
      {
        assert chain[i] != chain[last];
      }
      elems := elems + [newCell.slot.value.value];
      cells := cells + [newCell];
      Repr := Repr + {newCell, spare};
    }

    /**
     * Takes the oldest element out of the head cell and moves `head` on to
     * the next cell; `None`, with nothing changed, when the head cell is empty.
     */
    method Pop() returns (x: Option<T>)
      requires Valid()
      modifies Repr
      ensures Valid() && fresh(Repr - old(Repr))
      ensures old(elems) == [] ==> x == None && unchanged(old(Repr))
      ensures old(elems) != [] ==> x == Some(old(elems)[0]) && elems == old(elems)[1..] && len == old(len) - 1
      ensures elems == [] ==> head.slot.None? && tail.slot.None?
    {
      if head.slot.None? {
        return None;
      }
      len := len - 1;
      // The head cell was just seen to be full, so the source's `None` arm
      // after `take()` is unreachable.
      var taken := head.slot.value;
      assert taken.next == if |cells| > 1 then cells[1] else tail.slot.value.next;
      head.slot := None;
      head := taken.next;
      x := Some(taken.value);
      elems := elems[1..];
      cells := cells[1..];
    }
  }

  /** The first half of the walk-through below: push 1, 2, 3 and pop once. */
  method PushThreePopOne() returns (q: Fifo<int>, first: Option<int>)
    ensures fresh(q.Repr) && q.Valid()
    ensures q.elems == [2, 3] && q.len == 2
    ensures first == Some(1)
  {
    q := new Fifo<int>();
    q.Push(1);
    q.Push(2);
    q.Push(3);
    assert q.elems == [1, 2, 3];
    first := q.Pop();
  }

  /**
   * Push 1, 2, 3, then pop until the queue is empty and once more; after the
   * first pop the head cell holds 2 and the tail cell 3.
   */
  method Scenario() returns (popped: seq<Option<int>>, front: Option<int>, back: Option<int>)
    ensures popped == [Some(1), Some(2), Some(3), None]
    ensures front == Some(2) && back == Some(3)
  {
    var q, a := PushThreePopOne();
    front, back := q.Front(), q.Back();
    var b := q.Pop();
    var c := q.Pop();
    var d := q.Pop();
    popped := [a, b, c, d];
  }
}
