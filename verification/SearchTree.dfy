/** What the binary search tree of `bst.c` computes, as functions on trees of
    items, and the laws those functions obey.  `BinarySearchTree` proves that the
    pointer-rewriting code computes exactly these functions. */
module SearchTree {
  import opened Options
  import opened Sequences
  import opened Items

  datatype Tree = Leaf | Node(left: Tree, data: Item, right: Tree)

  function InOrder(t: Tree): seq<Item>
  {
    match t
    case Leaf => []
    case Node(l, d, r) => InOrder(l) + [d] + InOrder(r)
  }

  function Size(t: Tree): nat
  {
    match t
    case Leaf => 0
    case Node(l, _, r) => Size(l) + 1 + Size(r)
  }

  /** How often an item is stored. */
  function Count(t: Tree, x: Item): nat
  {
    match t
    case Leaf => 0
    case Node(l, d, r) => Count(l, x) + (if d == x then 1 else 0) + Count(r, x)
  }

  predicate HasKey(t: Tree, k: int)
  {
    t.Node? && (t.data.key == k || HasKey(t.left, k) || HasKey(t.right, k))
  }

  predicate AllAtMost(t: Tree, k: int)
  {
    t.Node? ==> t.data.key <= k && AllAtMost(t.left, k) && AllAtMost(t.right, k)
  }

  predicate AllAtLeast(t: Tree, k: int)
  {
    t.Node? ==> k <= t.data.key && AllAtLeast(t.left, k) && AllAtLeast(t.right, k)
  }

  /** The order that survives duplicates: left keys <= node <= right keys. */
  predicate Ordered(t: Tree)
  {
    match t
    case Leaf => true
    case Node(l, d, r) => Ordered(l) && Ordered(r) && AllAtMost(l, d.key) && AllAtLeast(r, d.key)
  }

  /** The order insertion alone gives: left keys < node <= right keys. */
  predicate StrictOnLeft(t: Tree)
  {
    match t
    case Leaf => true
    case Node(l, d, r) => StrictOnLeft(l) && StrictOnLeft(r) && AllAtMost(l, d.key - 1) && AllAtLeast(r, d.key)
  }

  // ---------- the operations ----------

  function Insert(t: Tree, x: Item): Tree
  {
    match t
    case Leaf => Node(Leaf, x, Leaf)
    case Node(l, d, r) =>
      if Compare(x.key, d.key) < 0 then Node(Insert(l, x), d, r) else Node(l, d, Insert(r, x))
  }

  /** The item of the rightmost node. */
  function Max(t: Tree): Item
    requires t.Node?
  {
    if t.right.Leaf? then t.data else Max(t.right)
  }

  /** The tree with the item of the rightmost node replaced by `x`. */
  function SetMax(t: Tree, x: Item): (r: Tree)
    requires t.Node?
    ensures r.Node? && Size(r) == Size(t)
  {
    if t.right.Leaf? then t.(data := x) else t.(right := SetMax(t.right, x))
  }

  /** One call of the recursive delete: the new subtree, and whether a node went.
      With two children the predecessor's data moves up, the old data moves into
      the predecessor's place, and the key is deleted again from the left. */
  function Delete(t: Tree, k: int): (Tree, bool)
    decreases Size(t)
  {
    match t
    case Leaf => (Leaf, false)
    case Node(l, d, r) =>
      if Compare(k, d.key) < 0 then
        var (l', found) := Delete(l, k); (Node(l', d, r), found)
      else if Compare(k, d.key) > 0 then
        var (r', found) := Delete(r, k); (Node(l, d, r'), found)
      else if l.Leaf? then (r, true)
      else if r.Leaf? then (l, true)
      else
        var (l', found) := Delete(SetMax(l, d), d.key); (Node(l', Max(l), r), found)
  }

  function Retrieve(t: Tree, k: int): Option<Item>
  {
    match t
    case Leaf => None
    case Node(l, d, r) =>
      if Compare(k, d.key) < 0 then Retrieve(l, k)
      else if Compare(k, d.key) > 0 then Retrieve(r, k)
      else Some(d)
  }

  /** Both assertions of the traversal hold at every node: a child's key other
      than the sentinel -1 is strictly on its side of the parent's key. */
  predicate AssertsHold(t: Tree)
  {
    match t
    case Leaf => true
    case Node(l, d, r) =>
      && (l.Node? ==> d.key > l.data.key || l.data.key == -1)
      && (r.Node? ==> d.key < r.data.key || r.data.key == -1)
      && AssertsHold(l) && AssertsHold(r)
  }

  /** Some child repeats the key of its parent, and that key is not -1. */
  ghost predicate ChildRepeatsParent(t: Tree)
  {
    match t
    case Leaf => false
    case Node(l, d, r) =>
      || (l.Node? && l.data.key == d.key != -1)
      || (r.Node? && r.data.key == d.key != -1)
      || ChildRepeatsParent(l) || ChildRepeatsParent(r)
  }

  // ---------- order ----------

  lemma {:induction false} Bounded(t: Tree, k: int, m: int)
    requires k <= m
    ensures AllAtMost(t, k) ==> AllAtMost(t, m)
    ensures AllAtLeast(t, m) ==> AllAtLeast(t, k)
    ensures AllAtMost(t, k) && k < m ==> !HasKey(t, m)
    ensures AllAtLeast(t, m) && k < m ==> !HasKey(t, k)
  {
    if t.Node? {
      Bounded(t.left, k, m);
      Bounded(t.right, k, m);
    }
  }

  lemma {:induction false} BoundedInOrder(t: Tree, k: int)
    ensures AllAtMost(t, k) ==> forall i :: 0 <= i < |InOrder(t)| ==> InOrder(t)[i].key <= k
    ensures AllAtLeast(t, k) ==> forall i :: 0 <= i < |InOrder(t)| ==> k <= InOrder(t)[i].key
  {
    match t
    case Leaf =>
    case Node(l, d, r) =>
      BoundedInOrder(l, k);
      BoundedInOrder(r, k);
      forall i | 0 <= i < |InOrder(t)|
        ensures AllAtMost(t, k) ==> InOrder(t)[i].key <= k
        ensures AllAtLeast(t, k) ==> k <= InOrder(t)[i].key
      {
        InOrderAt(t, i);
      }
  }

  lemma InOrderAt(t: Tree, i: nat)
    requires t.Node? && i < |InOrder(t)|
    ensures |InOrder(t)| == |InOrder(t.left)| + 1 + |InOrder(t.right)|
    ensures i < |InOrder(t.left)| ==> InOrder(t)[i] == InOrder(t.left)[i]
    ensures i == |InOrder(t.left)| ==> InOrder(t)[i] == t.data
    ensures i > |InOrder(t.left)| ==> InOrder(t)[i] == InOrder(t.right)[i - |InOrder(t.left)| - 1]
  {
  }

  lemma SortedConcat(a: seq<int>, k: int, c: seq<int>)
    requires Sorted(a) && Sorted(c)
    requires forall i :: 0 <= i < |a| ==> a[i] <= k
    requires forall i :: 0 <= i < |c| ==> k <= c[i]
    ensures Sorted(a + [k] + c)
  {
  }

  lemma {:induction false} OrderedIsSorted(t: Tree)
    requires Ordered(t)
    ensures Sorted(Keys(InOrder(t)))
  {
    match t
    case Leaf =>
    case Node(l, d, r) =>
      OrderedIsSorted(l);
      OrderedIsSorted(r);
      BoundedInOrder(l, d.key);
      BoundedInOrder(r, d.key);
      SortedConcat(Keys(InOrder(l)), d.key, Keys(InOrder(r)));
      assert Keys(InOrder(t)) == Keys(InOrder(l)) + [d.key] + Keys(InOrder(r));
  }

  lemma {:induction false} CountIsMultiplicity(t: Tree, x: Item)
    ensures multiset(InOrder(t))[x] == Count(t, x)
    ensures |InOrder(t)| == Size(t)
  {
    if t.Node? {
      CountIsMultiplicity(t.left, x);
      CountIsMultiplicity(t.right, x);
    }
  }

  lemma {:induction false} HasKeyInOrder(t: Tree, k: int)
    ensures HasKey(t, k) <==> exists i :: 0 <= i < |InOrder(t)| && InOrder(t)[i].key == k
  {
    match t
    case Leaf =>
    case Node(l, d, r) =>
      var s, a, c := InOrder(t), InOrder(l), InOrder(r);
      HasKeyInOrder(l, k);
      HasKeyInOrder(r, k);
      if HasKey(t, k) {
        if d.key == k {
          assert s[|a|].key == k;
        } else if HasKey(l, k) {
          var i :| 0 <= i < |a| && a[i].key == k;
          assert s[i].key == k;
        } else {
          var i :| 0 <= i < |c| && c[i].key == k;
          assert s[|a| + 1 + i].key == k;
        }
      }
      if i :| 0 <= i < |s| && s[i].key == k {
        InOrderAt(t, i);
        assert i < |a| ==> a[i].key == k;
        assert i > |a| ==> c[i - |a| - 1].key == k;
      }
  }

  // ---------- insertion ----------

  lemma {:induction false} InsertKeepsBounds(t: Tree, x: Item, k: int)
    ensures AllAtMost(Insert(t, x), k) <==> AllAtMost(t, k) && x.key <= k
    ensures AllAtLeast(Insert(t, x), k) <==> AllAtLeast(t, k) && k <= x.key
  {
    if t.Node? {
      InsertKeepsBounds(t.left, x, k);
      InsertKeepsBounds(t.right, x, k);
    }
  }

  lemma {:induction false} InsertKeepsOrder(t: Tree, x: Item)
    ensures Ordered(t) ==> Ordered(Insert(t, x))
    ensures StrictOnLeft(t) ==> StrictOnLeft(Insert(t, x))
  {
    match t
    case Leaf =>
    case Node(l, d, r) =>
      InsertKeepsOrder(l, x);
      InsertKeepsOrder(r, x);
      InsertKeepsBounds(l, x, d.key);
      InsertKeepsBounds(l, x, d.key - 1);
      InsertKeepsBounds(r, x, d.key);
  }

  /** Position `i` of `s` is where a stable sort puts a later item with key `k`. */
  ghost predicate LastPlace(s: seq<Item>, k: int, i: nat)
  {
    && i <= |s|
    && (forall j :: 0 <= j < i ==> s[j].key <= k)
    && (forall j :: i <= j < |s| ==> k < s[j].key)
  }

  /** Insertion puts an item after every item with a key at most its own and
      before every item with a larger key. */
  lemma {:induction false} InsertPlacesLast(t: Tree, x: Item) returns (i: nat)
    requires Ordered(t)
    ensures LastPlace(InOrder(t), x.key, i)
    ensures InOrder(Insert(t, x)) == InOrder(t)[..i] + [x] + InOrder(t)[i..]
  {
    match t
    case Leaf => i := 0;
    case Node(l, d, r) =>
      BoundedInOrder(l, d.key);
      BoundedInOrder(r, d.key);
      if x.key < d.key {
        i := InsertPlacesLast(l, x);
        SplitLeft(InOrder(l), d, InOrder(r), i, x);
      } else {
        var j := InsertPlacesLast(r, x);
        i := |InOrder(l)| + 1 + j;
        SplitRight(InOrder(l), d, InOrder(r), j, x);
      }
      forall n | 0 <= n < |InOrder(t)|
        ensures n < i ==> InOrder(t)[n].key <= x.key
        ensures i <= n ==> x.key < InOrder(t)[n].key
      {
        InOrderAt(t, n);
      }
  }

  lemma SplitLeft(a: seq<Item>, d: Item, c: seq<Item>, i: nat, x: Item)
    requires i <= |a|
    ensures (a[..i] + [x] + a[i..]) + [d] + c == (a + [d] + c)[..i] + [x] + (a + [d] + c)[i..]
  {
  }

  lemma SplitRight(a: seq<Item>, d: Item, c: seq<Item>, j: nat, x: Item)
    requires j <= |c|
    ensures var i := |a| + 1 + j; a + [d] + (c[..j] + [x] + c[j..]) == (a + [d] + c)[..i] + [x] + (a + [d] + c)[i..]
  {
  }

  function InsertAll(xs: seq<Item>): Tree
  {
    if xs == [] then Leaf else Insert(InsertAll(xs[..|xs|-1]), xs[|xs|-1])
  }

  lemma WithKeyInserted(s: seq<Item>, x: Item, i: nat, k: int)
    requires LastPlace(s, x.key, i)
    ensures WithKey(s[..i] + [x] + s[i..], k) == WithKey(s, k) + WithKey([x], k)
  {
    var a, c := s[..i], s[i..];
    assert s == a + c;
    WithKeyConcat(a + [x], c, k);
    WithKeyConcat(a, [x], k);
    WithKeyConcat(a, c, k);
    if k == x.key {
      WithKeyEmpty(c, k);
    } else {
      assert WithKey([x], k) == [];
    }
  }

  lemma {:induction false} InsertAllOrdered(xs: seq<Item>)
    ensures Ordered(InsertAll(xs)) && StrictOnLeft(InsertAll(xs))
  {
    if xs != [] {
      InsertAllOrdered(xs[..|xs|-1]);
      InsertKeepsOrder(InsertAll(xs[..|xs|-1]), xs[|xs|-1]);
    }
  }

  lemma {:induction false} InsertAllWithKey(xs: seq<Item>, k: int)
    ensures WithKey(InOrder(InsertAll(xs)), k) == WithKey(xs, k)
  {
    if xs != [] {
      var init, x := xs[..|xs|-1], xs[|xs|-1];
      InsertAllOrdered(init);
      InsertAllWithKey(init, k);
      var s := InOrder(InsertAll(init));
      var i := InsertPlacesLast(InsertAll(init), x);
      WithKeyInserted(s, x, i, k);
      WithKeyConcat(init, [x], k);
      assert xs == init + [x];
    }
  }

  /** Traversing after inserting a whole sequence is the stable sort of it. */
  lemma InsertAllIsStableSort(xs: seq<Item>)
    ensures IsStableSort(InOrder(InsertAll(xs)), xs)
  {
    InsertAllOrdered(xs);
    OrderedIsSorted(InsertAll(xs));
    forall k ensures WithKey(InOrder(InsertAll(xs)), k) == WithKey(xs, k) {
      InsertAllWithKey(xs, k);
    }
  }

  // ---------- deletion ----------

  /** The item that a delete frees. */
  ghost function Gone(t: Tree, k: int): Item
    requires Delete(t, k).1
    decreases Size(t)
  {
    match t
    case Node(l, d, r) =>
      if k < d.key then Gone(l, k)
      else if k > d.key then Gone(r, k)
      else if l.Leaf? || r.Leaf? then d
      else Gone(SetMax(l, d), d.key)
  }

  /** Swapping data with a key no smaller than all others into the rightmost
      node keeps a tree ordered, and what leaves is a maximum. */
  lemma {:induction false} SetMaxFacts(t: Tree, x: Item)
    requires t.Node? && Ordered(t) && AllAtMost(t, x.key)
    ensures Ordered(SetMax(t, x)) && AllAtMost(SetMax(t, x), x.key) && HasKey(SetMax(t, x), x.key)
    ensures AllAtMost(t, Max(t).key) && Max(t).key <= x.key
    ensures forall k :: AllAtLeast(t, k) && k <= x.key ==> AllAtLeast(SetMax(t, x), k) && k <= Max(t).key
  {
    if t.right.Node? {
      SetMaxFacts(t.right, x);
      Bounded(t.left, t.data.key, Max(t).key);
    } else {
      Bounded(t.left, t.data.key, x.key);
    }
  }

  lemma {:induction false} SetMaxCount(t: Tree, x: Item, y: Item)
    requires t.Node?
    ensures Count(SetMax(t, x), y) + (if Max(t) == y then 1 else 0) == Count(t, y) + (if x == y then 1 else 0)
  {
    if t.right.Node? {
      SetMaxCount(t.right, x, y);
    }
  }

  /** After the swap, deleting a key above all other keys removes exactly the
      rightmost node, so the bound on the other keys is a bound on the result. */
  lemma {:induction false} DeleteStripsMax(l: Tree, d: Item, p: int)
    requires l.Node? && Ordered(l) && AllAtMost(l, p) && p < d.key
    ensures AllAtMost(Delete(SetMax(l, d), d.key).0, p)
  {
    if l.right.Node? {
      DeleteStripsMax(l.right, d, p);
    }
  }

  lemma {:induction false} DeleteKeepsBounds(t: Tree, k: int, b: int)
    requires Ordered(t)
    ensures AllAtMost(t, b) ==> AllAtMost(Delete(t, k).0, b)
    ensures AllAtLeast(t, b) ==> AllAtLeast(Delete(t, k).0, b)
    decreases Size(t)
  {
    match t
    case Leaf =>
    case Node(l, d, r) =>
      DeleteKeepsBounds(l, k, b);
      DeleteKeepsBounds(r, k, b);
      if k == d.key && l.Node? && r.Node? {
        SetMaxFacts(l, d);
        DeleteKeepsBounds(SetMax(l, d), d.key, b);
        Bounded(SetMax(l, d), d.key, if d.key <= b then b else d.key);
        BoundsOfMax(l, b);
      }
  }

  lemma {:induction false} BoundsOfMax(t: Tree, b: int)
    requires t.Node?
    ensures AllAtMost(t, b) ==> Max(t).key <= b
    ensures AllAtLeast(t, b) ==> b <= Max(t).key
  {
    if t.right.Node? {
      BoundsOfMax(t.right, b);
    }
  }

  /** Every key left of the promoted predecessor is at most its own.  When a
      duplicate of the key was below the node, the recursive call may take that
      one and leave the swapped-down item behind; then the predecessor carries
      the deleted key too. */
  lemma PredecessorBounds(l: Tree, d: Item)
    requires l.Node? && Ordered(l) && AllAtMost(l, d.key)
    ensures AllAtMost(Delete(SetMax(l, d), d.key).0, Max(l).key)
  {
    SetMaxFacts(l, d);
    if Max(l).key < d.key {
      DeleteStripsMax(l, d, Max(l).key);
    } else {
      DeleteKeepsBounds(SetMax(l, d), d.key, d.key);
    }
  }

  /** Delete keeps the weak order although the swap breaks it in mid-call; it
      reports true exactly when the key is present; an absent key leaves the tree
      as it was. */
  lemma {:induction false} DeleteKeepsOrder(t: Tree, k: int)
    requires Ordered(t)
    ensures Ordered(Delete(t, k).0)
    ensures Delete(t, k).1 <==> HasKey(t, k)
    ensures !HasKey(t, k) ==> Delete(t, k).0 == t
    decreases Size(t)
  {
    match t
    case Leaf =>
    case Node(l, d, r) =>
      if k < d.key {
        DeleteKeepsOrder(l, k);
        DeleteKeepsBounds(l, k, d.key);
        Bounded(r, k, d.key);
      } else if k > d.key {
        DeleteKeepsOrder(r, k);
        DeleteKeepsBounds(r, k, d.key);
        Bounded(l, d.key, k);
      } else if l.Node? && r.Node? {
        SetMaxFacts(l, d);
        DeleteKeepsOrder(SetMax(l, d), d.key);
        PredecessorBounds(l, d);
        Bounded(r, Max(l).key, d.key);
      }
  }

  lemma {:induction false} DeleteCount(t: Tree, k: int, x: Item)
    requires Delete(t, k).1
    ensures Count(Delete(t, k).0, x) + (if Gone(t, k) == x then 1 else 0) == Count(t, x)
    ensures Gone(t, k).key == k
    decreases Size(t)
  {
    match t
    case Node(l, d, r) =>
      if k < d.key {
        DeleteCount(l, k, x);
      } else if k > d.key {
        DeleteCount(r, k, x);
      } else if l.Node? && r.Node? {
        SetMaxCount(l, d, x);
        DeleteCount(SetMax(l, d), d.key, x);
      }
  }

  lemma LosesOne(a: seq<Item>, b: seq<Item>, g: Item)
    requires forall x :: multiset(a)[x] == multiset(b)[x] + (if g == x then 1 else 0)
    ensures g in a && multiset(b) == multiset(a) - multiset{g}
    ensures forall i :: 0 <= i < |b| ==> b[i] in a
  {
    assert multiset(a)[g] > 0;
    forall i | 0 <= i < |b| ensures b[i] in a {
      assert b[i] in multiset(b);
      assert multiset(a)[b[i]] > 0;
    }
  }

  lemma DeleteMultiset(t: Tree, k: int)
    requires Delete(t, k).1
    ensures Gone(t, k) in InOrder(t) && Gone(t, k).key == k
    ensures multiset(InOrder(Delete(t, k).0)) == multiset(InOrder(t)) - multiset{Gone(t, k)}
    ensures forall i :: 0 <= i < |InOrder(Delete(t, k).0)| ==> InOrder(Delete(t, k).0)[i] in InOrder(t)
  {
    var a, b, g := InOrder(t), InOrder(Delete(t, k).0), Gone(t, k);
    DeleteCount(t, k, g);
    forall x ensures multiset(a)[x] == multiset(b)[x] + (if g == x then 1 else 0) {
      CountIsMultiplicity(t, x);
      CountIsMultiplicity(Delete(t, k).0, x);
      DeleteCount(t, k, x);
    }
    LosesOne(a, b, g);
  }

  lemma SortedWithout(ks: seq<int>, i: nat)
    requires i < |ks| && Sorted(ks)
    ensures Sorted(Without(ks, i))
  {
  }

  lemma KeysAfterLoss(s: seq<Item>, s': seq<Item>, gone: Item) returns (j: nat)
    requires gone in s && multiset(s') == multiset(s) - multiset{gone}
    ensures j < |s| && s[j] == gone
    ensures multiset(Keys(s')) == multiset(Without(Keys(s), j))
  {
    j :| 0 <= j < |s| && s[j] == gone;
    WithoutMultiset(s, j);
    KeysMultiset(s', Without(s, j));
    KeysWithout(s, j);
  }

  /** Removing any one item with a key leaves the keys that removing the item
      at position `i` with that key leaves. */
  lemma SameKeysAfterLoss(s: seq<Item>, s': seq<Item>, gone: Item, i: nat)
    requires gone in s && multiset(s') == multiset(s) - multiset{gone}
    requires i < |s| && s[i].key == gone.key
    requires Sorted(Keys(s)) && Sorted(Keys(s'))
    ensures Keys(s') == Keys(Without(s, i))
  {
    var j := KeysAfterLoss(s, s', gone);
    var ks := Keys(s);
    KeysWithout(s, i);
    WithoutMultiset(ks, i);
    WithoutMultiset(ks, j);
    SortedWithout(ks, i);
    SortedUnique(Keys(s'), Without(ks, i));
  }

  /** What delete does to the stored sequence: the in-order keys lose their first
      `k` and nothing else moves, and as items exactly one with that key goes. */
  lemma DeleteLosesOne(t: Tree, k: int)
    requires Ordered(t)
    ensures Ordered(Delete(t, k).0)
    ensures Delete(t, k).1 <==> KeyIn(InOrder(t), k)
    ensures !Delete(t, k).1 ==> Delete(t, k).0 == t
    ensures Delete(t, k).1 ==> Gone(t, k) in InOrder(t) && Gone(t, k).key == k
    ensures Delete(t, k).1 ==> multiset(InOrder(Delete(t, k).0)) == multiset(InOrder(t)) - multiset{Gone(t, k)}
    ensures Keys(InOrder(Delete(t, k).0)) == Keys(WithoutFirst(InOrder(t), k))
  {
    DeleteKeepsOrder(t, k);
    HasKeyInOrder(t, k);
    var i := FirstWithFacts(InOrder(t), k);
    if Delete(t, k).1 {
      DeleteMultiset(t, k);
      OrderedIsSorted(t);
      OrderedIsSorted(Delete(t, k).0);
      SameKeysAfterLoss(InOrder(t), InOrder(Delete(t, k).0), Gone(t, k), i);
    }
  }

  /** Items are determined by their keys when they all come from a sequence with
      distinct keys. */
  lemma KeysDetermineItems(s: seq<Item>, a: seq<Item>, b: seq<Item>)
    requires DistinctKeys(s) && Keys(a) == Keys(b)
    requires forall i :: 0 <= i < |a| ==> a[i] in s
    requires forall i :: 0 <= i < |b| ==> b[i] in s
    ensures a == b
  {
    assert |a| == |Keys(a)| == |b|;
    forall i | 0 <= i < |a| ensures a[i] == b[i] {
      assert Keys(a)[i] == Keys(b)[i];
    }
  }

  lemma DeterminedByKeys(s: seq<Item>, s': seq<Item>, k: int)
    requires DistinctKeys(s) && Keys(s') == Keys(WithoutFirst(s, k))
    requires forall i :: 0 <= i < |s'| ==> s'[i] in s
    ensures s' == WithoutFirst(s, k)
  {
    var i := FirstWithFacts(s, k);
    var w := WithoutFirst(s, k);
    forall n | 0 <= n < |w| ensures w[n] in s {
      if KeyIn(s, k) { assert w[n] == if n < i then s[n] else s[n + 1]; }
    }
    KeysDetermineItems(s, s', w);
  }

  /** With distinct keys nothing but the deleted item changes in the traversal. */
  lemma DeleteKeepsOthersInPlace(t: Tree, k: int)
    requires Ordered(t) && DistinctKeys(InOrder(t))
    ensures InOrder(Delete(t, k).0) == WithoutFirst(InOrder(t), k)
  {
    DeleteLosesOne(t, k);
    if Delete(t, k).1 {
      DeleteMultiset(t, k);
    }
    DeterminedByKeys(InOrder(t), InOrder(Delete(t, k).0), k);
  }

  // ---------- retrieval and traversal ----------

  /** Retrieval finds an item with the key exactly when there is one. */
  lemma {:induction false} RetrieveFinds(t: Tree, k: int)
    requires Ordered(t)
    ensures Retrieve(t, k).Some? <==> KeyIn(InOrder(t), k)
    ensures Retrieve(t, k).Some? ==> Retrieve(t, k).value.key == k && Retrieve(t, k).value in InOrder(t)
  {
    HasKeyInOrder(t, k);
    match t
    case Leaf =>
    case Node(l, d, r) =>
      if k < d.key {
        RetrieveFinds(l, k);
        HasKeyInOrder(l, k);
        Bounded(r, k, d.key);
      } else if k > d.key {
        RetrieveFinds(r, k);
        HasKeyInOrder(r, k);
        Bounded(l, d.key, k);
      }
  }

  /** A new item is found under its key only when nothing was found before; every
      other answer is unchanged.  No order is needed. */
  lemma {:induction false} RetrieveAfterInsert(t: Tree, x: Item, k: int)
    ensures Retrieve(Insert(t, x), k) == if k == x.key && Retrieve(t, k).None? then Some(x) else Retrieve(t, k)
  {
    if t.Node? {
      RetrieveAfterInsert(t.left, x, k);
      RetrieveAfterInsert(t.right, x, k);
    }
  }

  /** On every ordered tree the two assertions of the traversal hold exactly when
      no child repeats its parent's key (the sentinel key -1 aside). */
  lemma {:induction false} AssertsHoldExactly(t: Tree)
    requires Ordered(t)
    ensures AssertsHold(t) <==> !ChildRepeatsParent(t)
  {
    if t.Node? {
      AssertsHoldExactly(t.left);
      AssertsHoldExactly(t.right);
    }
  }

  lemma {:induction false} DistinctHasNoRepeat(t: Tree)
    requires DistinctKeys(InOrder(t))
    ensures !ChildRepeatsParent(t)
  {
    match t
    case Leaf =>
    case Node(l, d, r) =>
      var s, a, c := InOrder(t), InOrder(l), InOrder(r);
      assert s[|a|] == d;
      forall i, j | 0 <= i < j < |a| ensures a[i].key != a[j].key { assert a[i] == s[i] && a[j] == s[j]; }
      forall i, j | 0 <= i < j < |c| ensures c[i].key != c[j].key {
        assert c[i] == s[|a| + 1 + i] && c[j] == s[|a| + 1 + j];
      }
      DistinctHasNoRepeat(l);
      DistinctHasNoRepeat(r);
      if l.Node? {
        var i := |InOrder(l.left)|;
        assert a[i] == l.data && s[i] == l.data;
      }
      if r.Node? {
        var i := |InOrder(r.left)|;
        assert c[i] == r.data && s[|a| + 1 + i] == r.data;
      }
  }
}
