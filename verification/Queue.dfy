/** The doubly linked FIFO queue, refined to the sequence of its items. */
module Queue {
  import opened Wrappers

  class Node<T> {
    var next: Node?<T>
    var prev: Node?<T>
    var data: T

    constructor (data: T)
      ensures this.data == data && next == null && prev == null
    {
      this.data := data;
      next := null;
      prev := null;
    }
  }

  /** The position of the first occurrence of x. */
  function IndexOf<T(==)>(q: seq<T>, x: T): (k: nat)
    requires x in q
    ensures k < |q| && q[k] == x && x !in q[..k]
  {
    if q[0] == x then 0 else 1 + IndexOf(q[1..], x)
  }

  class Queue<T(==)> {
    var head: Node?<T>
    var tail: Node?<T>
    var length: int
    ghost var nodes: seq<Node<T>>
    ghost var Contents: seq<T>
    ghost var Repr: set<object>

    ghost predicate Valid()
      reads this, Repr
      ensures Valid() ==> this in Repr
    {
      && this in Repr
      && length == |nodes| == |Contents|
      && (forall i {:trigger nodes[i]} :: 0 <= i < |nodes| ==> nodes[i] in Repr)
      && (forall i {:trigger nodes[i].data} :: 0 <= i < |nodes| ==> nodes[i].data == Contents[i])
      && (forall i, j :: 0 <= i < j < |nodes| ==> nodes[i] != nodes[j])
      && (forall i {:trigger nodes[i].next} :: 0 <= i < |nodes| - 1 ==> nodes[i].next == nodes[i + 1])
      && (forall i {:trigger nodes[i].prev} :: 0 < i < |nodes| ==> nodes[i].prev == nodes[i - 1])
      && (if nodes == [] then head == null && tail == null
          else
            && head == nodes[0] && tail == nodes[|nodes| - 1]
            && nodes[0].prev == null && nodes[|nodes| - 1].next == null)
    }

    constructor ()
      ensures Valid() && fresh(Repr) && Contents == []
    {
      length := 0;
      head := null;
      tail := null;
      nodes := [];
      Contents := [];
      Repr := {this};
    }

    /** Appends the item; the null pointer is refused. */
    method Enqueue(data: Option<T>) returns (r: int)
      requires Valid()
      modifies Repr
      ensures Valid() && fresh(Repr - old(Repr))
      ensures r == if data.Some? then 0 else -1
      ensures Contents == old(Contents) + if data.Some? then [data.value] else []
    {
      if data == None {
        return -1;
      }
      var node := new Node(data.value);
      if head == null {
        node.prev := null;
        head := node;
      } else {
        var curr := tail;
        node.prev := curr;
        curr.next := node;
      }
      tail := node;
      length := length + 1;
      nodes := nodes + [node];
      Contents := Contents + [data.value];
      Repr := Repr + {node};
      r := 0;
    }

    /** Removes the oldest item. */
    method Dequeue() returns (r: int, data: Option<T>)
      requires Valid()
      modifies Repr
      ensures Valid() && Repr == old(Repr)
      ensures old(Contents) == [] ==> r == -1 && data == None && Contents == []
      ensures old(Contents) != [] ==> r == 0 && data == Some(old(Contents)[0]) && Contents == old(Contents)[1..]
    {
      if head == null {
        return -1, None;
      }
      var first := head;
      data := Some(first.data);
      assert |nodes| > 1 ==> first.next == nodes[1];
      if first.next == null {
        head := null;
        tail := null;
        length := 0;
      } else {
        var next := first.next;
        next.prev := null;
        head := next;
        length := length - 1;
      }
      nodes := nodes[1..];
      Contents := Contents[1..];
      r := 0;
    }

    /** Removes the first occurrence of the item, and answers 1 if there was one. */
    method Delete(data: Option<T>) returns (r: int)
      requires Valid()
      modifies Repr
      ensures Valid() && Repr == old(Repr)
      ensures r == if data.Some? && data.value in old(Contents) then 1 else -1
      ensures r == -1 ==> Contents == old(Contents)
      ensures r == 1 ==>
        var k := IndexOf(old(Contents), data.value);
        Contents == old(Contents[..k] + Contents[k + 1..])
    {
      if data == None {
        return -1;
      }
      var curr := head;
      ghost var k := 0;
      while curr != null
        invariant 0 <= k <= |nodes|
        invariant curr == if k < |nodes| then nodes[k] else null
        invariant data.value !in Contents[..k]
        decreases |nodes| - k
      {
        if curr.data == data.value {
          FirstIndex(Contents, data.value, k);
          Unlink(curr, k);
          return 1;
        } else {
          if curr.next == null {
            return -1;
          }
          curr := curr.next;
          k := k + 1;
        }
      }
      return -1;
    }

    static lemma FirstIndex(q: seq<T>, x: T, k: nat)
      requires k < |q| && q[k] == x && x !in q[..k]
      ensures x in q && IndexOf(q, x) == k
    {
      var i := IndexOf(q, x);
      forall j | 0 <= j < k ensures q[j] != x {
        assert q[..k][j] == q[j];
      }
      forall j | 0 <= j < i ensures q[j] != x {
        assert q[..i][j] == q[j];
      }
    }

    /** The nodes without the one at k, before its neighbours are linked to each other. */
    lemma Without(k: nat, rest: seq<Node<T>>, kept: seq<T>)
      requires Valid() && k < |nodes| && rest == nodes[..k] + nodes[k + 1..] && kept == Contents[..k] + Contents[k + 1..]
      ensures |rest| == |kept| == |nodes| - 1
      ensures forall i {:trigger rest[i]} :: 0 <= i < |rest| ==> rest[i] in Repr && rest[i].data == kept[i] && rest[i] != nodes[k]
      ensures forall i, j :: 0 <= i < j < |rest| ==> rest[i] != rest[j]
      ensures forall i {:trigger rest[i].next} :: 0 <= i < |rest| - 1 && i != k - 1 ==> rest[i].next == rest[i + 1]
      ensures forall i {:trigger rest[i].prev} :: 0 < i < |rest| && i != k ==> rest[i].prev == rest[i - 1]
      ensures nodes[k].next == if k < |rest| then rest[k] else null
      ensures nodes[k].prev == if k > 0 then rest[k - 1] else null
      ensures k > 0 ==> head == rest[0] && rest[0].prev == null
      ensures k < |rest| ==> tail == rest[|rest| - 1] && rest[|rest| - 1].next == null
    {
      forall i {:trigger rest[i]} | 0 <= i < |rest|
        ensures rest[i] == nodes[if i < k then i else i + 1] && kept[i] == Contents[if i < k then i else i + 1] {}
      assert nodes[k].next == if k < |nodes| - 1 then nodes[k + 1] else null;
      assert nodes[k].prev == if k > 0 then nodes[k - 1] else null;
    }

    /** Takes one node out: the only one, the head, the tail, or one in the middle. */
    method Unlink(curr: Node<T>, ghost k: nat)
      requires Valid() && k < |nodes| && nodes[k] == curr
      modifies Repr
      ensures Valid() && Repr == old(Repr)
      ensures Contents == old(Contents[..k] + Contents[k + 1..])
    {
      ghost var rest := nodes[..k] + nodes[k + 1..];
      ghost var kept := Contents[..k] + Contents[k + 1..];
      Without(k, rest, kept);
      if curr.next == null && curr.prev == null {
        head := null;
        tail := null;
      } else if curr.next != null && curr.prev == null {
        var next := curr.next;
        next.prev := null;
        head := next;
      } else if curr.prev != null && curr.next == null {
        var previous := curr.prev;
        previous.next := null;
        tail := previous;
      } else {
        var next, previous := curr.next, curr.prev;
        next.prev := previous;
        previous.next := next;
      }
      length := length - 1;
      nodes := rest;
      Contents := kept;
    }

    /** The first item on which the callback answers 1. */
    method Iterate(func: T ~> int) returns (r: int, data: Option<T>)
      requires Valid()
      requires forall x :: x in Contents ==> func.requires(x)
      ensures r == if data.Some? then 0 else -1
      ensures data.Some? ==>
        exists k :: 0 <= k < |Contents| && data.value == Contents[k] && func(Contents[k]) == 1
          && forall j :: 0 <= j < k ==> func(Contents[j]) != 1
      ensures data.None? ==> forall j :: 0 <= j < |Contents| ==> func(Contents[j]) != 1
    {
      var curr := head;
      ghost var k := 0;
      while curr != null
        invariant 0 <= k <= |nodes|
        invariant curr == if k < |nodes| then nodes[k] else null
        invariant forall j :: 0 <= j < k ==> func(Contents[j]) != 1
        decreases |nodes| - k
      {
        assert curr.data == Contents[k] && Contents[k] in Contents;
        var stop := func(curr.data);
        if stop == 1 {
          return 0, Some(curr.data);
        }
        curr := curr.next;
        k := k + 1;
      }
      return -1, None;
    }

    method Length() returns (n: int)
      requires Valid()
      ensures n == |Contents|
    {
      n := length;
    }
  }
}
