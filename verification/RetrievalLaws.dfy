/** What a delete does to retrieval, read off the tree before the delete.  With
    distinct keys only the deleted key is affected; among duplicates the exchange
    with the predecessor can put another item where a search ends. */
module RetrievalLaws {
  import opened Options
  import opened Items
  import opened SearchTree

  lemma {:induction false} NothingBeyond(t: Tree, m: int, j: int)
    ensures AllAtMost(t, m) && m < j ==> Retrieve(t, j) == None
    ensures AllAtLeast(t, m) && j < m ==> Retrieve(t, j) == None
  {
    if t.Node? {
      NothingBeyond(t.left, m, j);
      NothingBeyond(t.right, m, j);
    }
  }

  lemma {:induction false} RetrieveSetMax(t: Tree, x: Item, j: int)
    requires t.Node? && Ordered(t) && AllAtMost(t, x.key) && j < x.key && j != Max(t).key
    ensures Retrieve(SetMax(t, x), j) == Retrieve(t, j)
  {
    if t.right.Node? {
      RetrieveSetMax(t.right, x, j);
    } else {
      NothingBeyond(t.left, t.data.key, j);
    }
  }

  /** The item that deleting `k` moves up to where a search for another key `j`
      ends; none when the delete leaves that search alone. */
  function Promoted(t: Tree, k: int, j: int): Option<Item>
    decreases Size(t)
  {
    match t
    case Leaf => None
    case Node(l, d, r) =>
      if k < d.key then (if j < d.key then Promoted(l, k, j) else None)
      else if k > d.key then (if j > d.key then Promoted(r, k, j) else None)
      else if l.Leaf? || r.Leaf? then None
      else if j == Max(l).key then Some(Max(l))
      else if j < Max(l).key then Promoted(SetMax(l, d), k, j)
      else None
  }

  /** The item found under `k` once the one found now is deleted. */
  function NextFound(t: Tree, k: int): Option<Item>
  {
    match t
    case Leaf => None
    case Node(l, d, r) =>
      if k < d.key then NextFound(l, k)
      else if k > d.key then NextFound(r, k)
      else if l.Leaf? then Retrieve(r, k)
      else if r.Leaf? then Retrieve(l, k)
      else if Max(l).key == k then Some(Max(l))
      else Retrieve(r, k)
  }

  /** A delete changes what is found under another key exactly by promoting. */
  lemma {:induction false} RetrieveAfterDelete(t: Tree, k: int, j: int)
    requires Ordered(t) && j != k
    ensures Retrieve(Delete(t, k).0, j) == if Promoted(t, k, j).Some? then Promoted(t, k, j) else Retrieve(t, j)
    decreases Size(t)
  {
    match t
    case Leaf =>
    case Node(l, d, r) =>
      if k < d.key {
        RetrieveAfterDelete(l, k, j);
      } else if k > d.key {
        RetrieveAfterDelete(r, k, j);
      } else if l.Leaf? || r.Leaf? {
        NothingBeyond(l, k, j);
        NothingBeyond(r, k, j);
      } else {
        SetMaxFacts(l, d);
        NothingBeyond(l, Max(l).key, j);
        NothingBeyond(r, k, j);
        if j < Max(l).key {
          RetrieveSetMax(l, d, j);
          RetrieveAfterDelete(SetMax(l, d), k, j);
        }
      }
  }

  lemma {:induction false} RetrieveNext(t: Tree, k: int)
    requires Ordered(t)
    ensures Retrieve(Delete(t, k).0, k) == NextFound(t, k)
  {
    match t
    case Leaf =>
    case Node(l, d, r) =>
      if k < d.key {
        RetrieveNext(l, k);
      } else if k > d.key {
        RetrieveNext(r, k);
      } else if l.Node? && r.Node? {
        SetMaxFacts(l, d);
      }
  }
}
