/** `queue.c`: a singly linked queue with front, rear and counter, rewritten in
    place.  Its value is the sequence of items from front to rear. */
module LinkedQueue {
  import opened Options

  class QueueNode<T> {
    const dataPtr: T
    var next: QueueNode?<T>

    constructor (item: T)
      ensures dataPtr == item && next == null
    {
      dataPtr, next := item, null;
    }
  }

  ghost function ItemsOf<T>(ns: seq<QueueNode<T>>): (items: seq<T>)
    ensures |items| == |ns| && forall i :: 0 <= i < |ns| ==> items[i] == ns[i].dataPtr
  {
    seq(|ns|, i requires 0 <= i < |ns| => ns[i].dataPtr)
  }

  class Queue<T> {
    var front: QueueNode?<T>
    var rear: QueueNode?<T>
    var count: int
    ghost var nodes: seq<QueueNode<T>>  // from front to rear

    ghost function NodeAt(i: nat): QueueNode?<T>
      requires i <= |nodes|
      reads this
    {
      if i == |nodes| then null else nodes[i]
    }

    ghost predicate Valid()
      reads this, nodes
    {
      && (forall i, j :: 0 <= i < j < |nodes| ==> nodes[i] != nodes[j])
      && front == NodeAt(0)
      && rear == (if nodes == [] then null else nodes[|nodes|-1])
      && (forall i {:trigger nodes[i].next} :: 0 <= i < |nodes| ==> nodes[i].next == NodeAt(i + 1))
      && count == |nodes|
    }

    ghost function Spine(): set<QueueNode<T>>
      reads this
    {
      set n | n in nodes
    }

    ghost function Contents(): seq<T>
      reads this
    {
      ItemsOf(nodes)
    }

    constructor ()
      ensures Valid() && Contents() == [] && Spine() == {}
    {
      front, rear, count, nodes := null, null, 0, [];
    }

    method EnQueue(item: T) returns (r: int)
      requires Valid()
      modifies this, Spine()
      ensures Valid() && r == 0 && Contents() == old(Contents()) + [item]
      ensures fresh(Spine() - old(Spine()))
    {
      var node := new QueueNode<T>(item);
      if rear != null {
        rear.next := node;
        rear := node;
      } else {
        front := node;
        rear := node;
      }
      nodes := nodes + [node];
      count := count + 1;
      return 0;
    }

    /** The front item and 0, or nothing and -1 when the queue is empty. */
    method DeQueue() returns (r: int, item: Option<T>)
      requires Valid()
      modifies this
      ensures Valid()
      ensures old(Contents()) == [] ==> r == -1 && item == None && Contents() == []
      ensures old(Contents()) != [] ==> r == 0 && item == Some(old(Contents())[0]) && Contents() == old(Contents())[1..]
      ensures Spine() <= old(Spine())
    {
      var node := front;
      if node == null {
        assert nodes == [];
        return -1, None;
      }
      assert node == nodes[0] && node.next == NodeAt(1);
      item := Some(node.dataPtr);
      front := node.next;
      if front == null {
        rear := null;
      }
      ghost var before := nodes;
      nodes := nodes[1..];
      count := count - 1;
      r := 0;
      assert ItemsOf(before)[1..] == ItemsOf(nodes);
      forall i | 0 <= i < |nodes| ensures nodes[i].next == NodeAt(i + 1) {
        assert nodes[i] == before[i+1];
      }
    }

    function QueueFront(): (item: Option<T>)
      requires Valid()
      reads this, nodes
      ensures item == if Contents() == [] then None else Some(Contents()[0])
    {
      if front != null then Some(front.dataPtr) else None
    }

    function QueueRear(): (item: Option<T>)
      requires Valid()
      reads this, nodes
      ensures item == if Contents() == [] then None else Some(Contents()[|Contents()|-1])
    {
      if rear != null then Some(rear.dataPtr) else None
    }

    function QueueCount(): (n: int)
      requires Valid()
      reads this, nodes
      ensures n == |Contents()|
    {
      count
    }

    predicate IsEmpty()
      requires Valid()
      reads this, nodes
      ensures IsEmpty() <==> Contents() == []
    {
      front == null
    }
  }
}
