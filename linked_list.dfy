/** `linked_list<T>`: a singly linked stack of heap nodes, pushed and popped
    at the head. `T{}` is supplied as `blank`. */
module LinkedList {
  /** `linked_list::node` */
  class Node<T> {
    var value: T
    var next: Node?<T>

    constructor (value: T, next: Node?<T>)
      ensures this.value == value && this.next == next
    {
      this.value := value;
      this.next := next;
    }
  }

  class LinkedList<T> {
    var head: Node?<T>
    const blank: T
    /** The values from the head on, and the nodes that hold them. */
    ghost var contents: seq<T>
    ghost var nodes: seq<Node<T>>
    ghost var Repr: set<object>

    /** `head` starts the chain `nodes`, each node holding the matching value
        and linking to the next, the last one to null. */
    ghost predicate Valid()
      reads this, Repr
    {
      && this in Repr
      && |nodes| == |contents|
      && (forall i :: 0 <= i < |nodes| ==> nodes[i] in Repr)
      && head == (if |nodes| == 0 then null else nodes[0])
      && (forall i :: 0 <= i < |nodes| ==> nodes[i].value == contents[i])
      && (forall i :: 0 <= i < |nodes| - 1 ==> nodes[i].next == nodes[i + 1])
      && (|nodes| > 0 ==> nodes[|nodes| - 1].next == null)
    }

    /** An empty list. */
    constructor (blank: T)
      ensures Valid() && fresh(Repr)
      ensures contents == [] && this.blank == blank
    {
      head := null;
      this.blank := blank;
      contents := [];
      nodes := [];
      Repr := {this};
    }

    /** `push_head(v)`: a new node holding v becomes the head, linked to the
        old head. */
    method PushHead(v: T)
      requires Valid()
      modifies this
      ensures Valid() && fresh(Repr - old(Repr))
      ensures contents == [v] + old(contents)
    {
      var n := new Node(v, null);
      n.next := head;
      head := n;
      contents, nodes, Repr := [v] + contents, [n] + nodes, Repr + {n};
      assert forall i :: 1 <= i < |nodes| ==> nodes[i] == old(nodes)[i - 1];
    }

    /** `pop_head()`: `T{}` from an empty list, which stays empty; otherwise
        the head's value, and the head becomes its successor. */
    method PopHead() returns (r: T)
      requires Valid()
      modifies this
      ensures Valid() && Repr <= old(Repr)
      ensures old(contents) == [] ==> r == blank && contents == []
      ensures old(contents) != [] ==> r == old(contents)[0] && contents == old(contents)[1..]
    {
      if head == null {
        return blank;
      }
      var node := head;
      assert node.next == if 1 < |nodes| then nodes[1] else null;
      head := head.next;
      r := node.value;
      contents, nodes := contents[1..], nodes[1..];
      assert forall i :: 0 <= i < |nodes| ==> nodes[i] == old(nodes)[i + 1];
    }

    /** `pop_head()` as written: the same unlinking, but the result is the
        unlinked `node` itself rather than its value. */
    method PopHeadAsWritten() returns (r: Node?<T>)
      requires Valid()
      modifies this
      ensures Valid() && Repr <= old(Repr)
      ensures old(contents) == [] ==> r == null && contents == []
      ensures old(contents) != [] ==> r == old(head) && r != null && contents == old(contents)[1..]
    {
      if head == null {
        return null;
      }
      var node := head;
      assert node.next == if 1 < |nodes| then nodes[1] else null;
      head := head.next;
      contents, nodes := contents[1..], nodes[1..];
      assert forall i :: 0 <= i < |nodes| ==> nodes[i] == old(nodes)[i + 1];
      r := node;
    }
  }

  /** The values of xs in reverse order. */
  function Reversed<T>(xs: seq<T>): (r: seq<T>)
    ensures |r| == |xs|
    ensures forall i :: 0 <= i < |xs| ==> r[i] == xs[|xs| - 1 - i]
  {
    if xs == [] then [] else Reversed(xs[1..]) + [xs[0]]
  }

  /** LIFO: pushing every item of xs and then popping as many hands them back
      in reverse order and leaves the list empty. */
  method Lifo<T>(blank: T, xs: seq<T>) returns (ys: seq<T>)
    ensures ys == Reversed(xs)
  {
    var l := new LinkedList(blank);
    var i := 0;
    while i < |xs|
      invariant 0 <= i <= |xs| && l.Valid() && fresh(l.Repr)
      invariant l.contents == Reversed(xs[..i])
    {
      l.PushHead(xs[i]);
      assert xs[..i + 1][1..] == xs[1..i + 1];
      i := i + 1;
    }
    ys := [];
    while i > 0
      invariant 0 <= i <= |xs| && l.Valid() && fresh(l.Repr)
      invariant l.contents == Reversed(xs[..i])
      invariant ys == Reversed(xs[i..])
    {
      var y := l.PopHead();
      ys := ys + [y];
      i := i - 1;
    }
  }

  /** With `T = bool`, the node returned as written converts to `true` (it is
      not null), so popping a pushed `false` yields `true`. */
  method PopReturnsNode() returns (pushed: bool, popped: bool)
    ensures !pushed && popped
  {
    var l := new LinkedList(false);
    pushed := false;
    l.PushHead(pushed);
    var node := l.PopHeadAsWritten();
    popped := node != null;
  }
}
