/** `linkedlist.c` as it runs: a doubly linked list whose links, head, tail and
    counter are rewritten in place.  Its value is the `Dictionary.List` of the
    items from head to tail. */
module DoublyLinkedList {
  import opened Options
  import opened Sequences
  import opened Items
  import D = Dictionary

  class ListNode {
    var prev: ListNode?
    var next: ListNode?
    const data: Item

    constructor (x: Item)
      ensures data == x && prev == null && next == null
    {
      data, prev, next := x, null, null;
    }
  }

  ghost function DataOf(ns: seq<ListNode>): (items: seq<Item>)
    ensures |items| == |ns| && forall i :: 0 <= i < |ns| ==> items[i] == ns[i].data
  {
    seq(|ns|, i requires 0 <= i < |ns| => ns[i].data)
  }

  lemma DataWithout(ns: seq<ListNode>, i: nat)
    requires i < |ns|
    ensures DataOf(Without(ns, i)) == Without(DataOf(ns), i)
  {
  }

  lemma FirstFromHere(items: seq<Item>, k: int, i: nat)
    requires i < |items|
    ensures items[i].key == k ==>
      FirstWith(items[i..], k).Some? && items[..i] + WithoutFirst(items[i..], k) == Without(items, i)
    ensures items[i].key != k ==>
      FirstWith(items[i..], k) == FirstWith(items[i+1..], k)
      && items[..i] + WithoutFirst(items[i..], k) == items[..i+1] + WithoutFirst(items[i+1..], k)
  {
    assert items[i..][0] == items[i] && items[i..][1..] == items[i+1..];
  }

  lemma DeleteCounts(l: D.List, k: int, l': D.List)
    requires l.count == |l.items| && l'.count == |l'.items| && l'.items == [] + WithoutFirst(l.items, k)
    ensures l' == D.ListDelete(l, k).0
  {
    var i := FirstWithFacts(l.items, k);
  }

  class LinkedList {
    var head: ListNode?
    var tail: ListNode?
    var cnt: int
    ghost var nodes: seq<ListNode>  // from head to tail

    /** Following `next` from the head and `prev` from the tail visit the same
        distinct nodes in opposite orders, and the counter counts them. */
    ghost predicate Valid()
      reads this, nodes
    {
      && (forall i, j :: 0 <= i < j < |nodes| ==> nodes[i] != nodes[j])
      && head == (if nodes == [] then null else nodes[0])
      && tail == (if nodes == [] then null else nodes[|nodes|-1])
      && (forall i {:trigger nodes[i].next} :: 0 <= i < |nodes| ==> nodes[i].next == (if i == |nodes| - 1 then null else nodes[i+1]))
      && (forall i {:trigger nodes[i].prev} :: 0 <= i < |nodes| ==> nodes[i].prev == (if i == 0 then null else nodes[i-1]))
      && cnt == |nodes|
    }

    ghost function Data(): seq<Item>
      reads this
    {
      DataOf(nodes)
    }

    /** The node `i` places after the head; null past the tail. */
    ghost function NodeAt(i: nat): ListNode?
      requires i <= |nodes|
      reads this
    {
      if i == |nodes| then null else nodes[i]
    }

    ghost function Value(): D.List
      reads this
    {
      D.List(Data(), cnt)
    }

    constructor ()
      ensures Valid() && Value() == D.List([], 0) && nodes == []
    {
      head, tail, cnt, nodes := null, null, 0, [];
    }

    /** Appends an item. */
    method Insert(x: Item)
      requires Valid()
      modifies this, nodes
      ensures Valid() && fresh(set n | n in nodes && n !in old(nodes))
      ensures Value() == D.ListInsert(old(Value()), x)
    {
      var p := new ListNode(x);
      if tail == null {
        head := p;
        tail := p;
      } else {
        tail.next := p;
        p.prev := tail;
        tail := p;
      }
      assert forall i :: 0 <= i < |nodes| - 1 ==> nodes[i] != nodes[|nodes|-1];
      nodes := nodes + [p];
      cnt := cnt + 1;
    }

    /** `_delete` from a node on: unlinks the first node with the key. */
    method DeleteFrom(node: ListNode?, k: int, ghost i: nat) returns (found: bool)
      requires Valid()
      requires i <= |nodes| && node == NodeAt(i)
      modifies this, nodes
      ensures Valid() && (forall n :: n in nodes ==> n in old(nodes))
      ensures found == FirstWith(old(Data())[i..], k).Some?
      ensures Data() == old(Data())[..i] + WithoutFirst(old(Data())[i..], k)
      decreases |nodes| - i
    {
      ghost var items := Data();
      if node == null {
        assert items[..i] + items[i..] == items;
        return false;
      }
      assert node == nodes[i] && node.next == NodeAt(i + 1);
      FirstFromHere(items, k, i);
      if Compare(k, node.data.key) == 0 {
        Unlink(node, i);
        return true;
      }
      found := DeleteFrom(node.next, k, i + 1);
    }

    /** The relinking of `_delete`: the neighbours of a node come to point at
        each other and nothing else is touched. */
    method Bypass(node: ListNode, ghost i: nat)
      requires Valid() && i < |nodes| && node == nodes[i]
      modifies this, nodes
      ensures nodes == old(nodes) && cnt == old(cnt)
      ensures head == (if i == 0 then NodeAt(1) else old(head))
      ensures tail == (if i < |nodes| - 1 then old(tail) else if i == 0 then null else nodes[i-1])
      ensures forall m {:trigger nodes[m].next} :: 0 <= m < |nodes| ==>
        nodes[m].next == if m == i - 1 then NodeAt(i + 1) else NodeAt(m + 1)
      ensures forall m {:trigger nodes[m].prev} :: 0 <= m < |nodes| ==>
        nodes[m].prev == if m == i + 1 then (if i == 0 then null else nodes[i-1]) else if m == 0 then null else nodes[m-1]
    {
      assert node.next == NodeAt(i + 1);
      assert node.prev == if i == 0 then null else nodes[i-1];
      if node.prev != null {
        node.prev.next := node.next;
      }
      if node.next != null {
        node.next.prev := node.prev;
      }
      if node == head {
        head := node.next;
      }
      if node == tail {
        tail := node.prev;
      }
    }

    /** Unlinks one node. */
    method Unlink(node: ListNode, ghost i: nat)
      requires Valid() && i < |nodes| && node == nodes[i]
      modifies this, nodes
      ensures Valid() && nodes == Without(old(nodes), i)
      ensures Data() == Without(old(Data()), i)
    {
      Bypass(node, i);
      DataWithout(nodes, i);
      ghost var was := nodes;
      nodes := Without(nodes, i);
      cnt := cnt - 1;
      assert forall m :: 0 <= m < i ==> nodes[m] == was[m];
      assert forall m :: i <= m < |nodes| ==> nodes[m] == was[m+1];
      forall m {:trigger nodes[m].next} | 0 <= m < |nodes| ensures nodes[m].next == if m == |nodes| - 1 then null else nodes[m+1] {
        assert nodes[m] == if m < i then was[m] else was[m+1];
      }
      forall m {:trigger nodes[m].prev} | 0 <= m < |nodes| ensures nodes[m].prev == if m == 0 then null else nodes[m-1] {
        assert nodes[m] == if m < i then was[m] else was[m+1];
      }
    }

    /** Removes the oldest item with key `k` and reports whether there was one. */
    method Delete(k: int) returns (found: bool)
      requires Valid()
      modifies this, nodes
      ensures Valid() && (forall n :: n in nodes ==> n in old(nodes))
      ensures (Value(), found) == D.ListDelete(old(Value()), k)
    {
      ghost var l := Value();
      assert l.items[..0] == [] && l.items[0..] == l.items;
      found := DeleteFrom(head, k, 0);
      DeleteCounts(l, k, Value());
    }

    /** `_retrieve` from a node on. */
    function RetrieveFrom(node: ListNode?, k: int, ghost i: nat): (r: Option<Item>)
      requires Valid()
      requires i <= |nodes| && node == NodeAt(i)
      reads this, nodes
      ensures r == FirstWith(Data()[i..], k)
      decreases |nodes| - i
    {
      if node == null then None
      else if Compare(k, node.data.key) == 0 then Some(node.data)
      else assert Data()[i..][1..] == Data()[i+1..] && node == nodes[i]; RetrieveFrom(node.next, k, i + 1)
    }

    function Retrieve(k: int): (r: Option<Item>)
      requires Valid()
      reads this, nodes
      ensures r == FirstWith(Data(), k)
    {
      assert Data()[0..] == Data();
      RetrieveFrom(head, k, 0)
    }

    /** `_traverse` from a node on: the data handed to `process`. */
    method TraverseFrom(node: ListNode?, ghost i: nat) returns (visited: seq<Item>)
      requires Valid()
      requires i <= |nodes| && node == NodeAt(i)
      ensures visited == Data()[i..]
      decreases |nodes| - i
    {
      if node == null {
        return [];
      }
      assert node == nodes[i];
      var rest := TraverseFrom(node.next, i + 1);
      return [node.data] + rest;
    }

    function Count(): (n: int)
      requires Valid()
      reads this, nodes
      ensures n == |Data()|
    {
      cnt
    }
  }
}
