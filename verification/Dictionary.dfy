/** The two implementations of one interface: the search tree (the fast form) and
    the linked list (the simple form), run side by side on any history. */
module Dictionary {
  import opened Sequences
  import opened Items
  import T = SearchTree

  datatype Op = Insert(item: Item) | Delete(key: int)

  /** The tree object: `_root` and `_cnt`. */
  datatype Bst = Bst(root: T.Tree, count: int)

  /** The list object: the items from `_head` to `_tail`, and `_cnt`. */
  datatype List = List(items: seq<Item>, count: int)

  function BstInsert(b: Bst, x: Item): Bst
  {
    Bst(T.Insert(b.root, x), b.count + 1)
  }

  /** Only a successful delete stores the new root, and a count of zero resets it. */
  function BstDelete(b: Bst, k: int): (Bst, bool)
  {
    var (root, found) := T.Delete(b.root, k);
    if found then (Bst(if b.count - 1 == 0 then T.Leaf else root, b.count - 1), true) else (b, false)
  }

  function ListInsert(l: List, x: Item): List
  {
    List(l.items + [x], l.count + 1)
  }

  function ListDelete(l: List, k: int): (List, bool)
  {
    if FirstWith(l.items, k).Some? then (List(WithoutFirst(l.items, k), l.count - 1), true) else (l, false)
  }

  /** A history on the tree: the final object and what each delete returned. */
  function RunBst(ops: seq<Op>): (Bst, seq<bool>)
  {
    if ops == [] then (Bst(T.Leaf, 0), [])
    else
      var (b, results) := RunBst(ops[..|ops|-1]);
      match ops[|ops|-1]
      case Insert(x) => (BstInsert(b, x), results)
      case Delete(k) => var (b', found) := BstDelete(b, k); (b', results + [found])
  }

  function RunList(ops: seq<Op>): (List, seq<bool>)
  {
    if ops == [] then (List([], 0), [])
    else
      var (l, results) := RunList(ops[..|ops|-1]);
      match ops[|ops|-1]
      case Insert(x) => (ListInsert(l, x), results)
      case Delete(k) => var (l', found) := ListDelete(l, k); (l', results + [found])
  }

  // ---------- facts about key multisets ----------

  lemma KeyInMultiset(xs: seq<Item>, k: int)
    ensures KeyIn(xs, k) <==> multiset(Keys(xs))[k] > 0
  {
    if KeyIn(xs, k) {
      var i :| 0 <= i < |xs| && xs[i].key == k;
      assert Keys(xs)[i] == k;
    }
    if k in multiset(Keys(xs)) {
      var i :| 0 <= i < |Keys(xs)| && Keys(xs)[i] == k;
      assert xs[i].key == k;
    }
  }

  lemma WithoutFirstMultiset(xs: seq<Item>, k: int)
    ensures multiset(Keys(WithoutFirst(xs, k))) == multiset(Keys(xs)) - multiset{k}
  {
    var i := FirstWithFacts(xs, k);
    KeyInMultiset(xs, k);
    if KeyIn(xs, k) {
      KeysWithout(xs, i);
      WithoutMultiset(Keys(xs), i);
    }
  }

  lemma {:induction false} DistinctMultiplicity(ks: seq<int>, k: int)
    requires forall i, j :: 0 <= i < j < |ks| ==> ks[i] != ks[j]
    ensures multiset(ks)[k] <= 1
  {
    if ks != [] {
      DistinctMultiplicity(ks[1..], k);
      assert ks == [ks[0]] + ks[1..];
      if ks[0] == k {
        assert k !in ks[1..];
      }
    }
  }

  lemma RepeatedMultiplicity(ks: seq<int>, i: nat, j: nat)
    requires i < j < |ks| && ks[i] == ks[j]
    ensures multiset(ks)[ks[i]] >= 2
  {
    WithoutMultiset(ks, i);
    assert Without(ks, i)[j-1] == ks[i];
    assert ks[i] in multiset(Without(ks, i));
  }

  lemma DistinctByMultiset(xs: seq<Item>, ys: seq<Item>)
    requires multiset(Keys(xs)) == multiset(Keys(ys)) && DistinctKeys(xs)
    ensures DistinctKeys(ys)
  {
    forall i, j | 0 <= i < j < |ys| ensures ys[i].key != ys[j].key {
      if ys[i].key == ys[j].key {
        RepeatedMultiplicity(Keys(ys), i, j);
        DistinctMultiplicity(Keys(xs), ys[i].key);
      }
    }
  }

  // ---------- refinement ----------

  ghost predicate Refines(b: Bst, l: List)
  {
    && T.Ordered(b.root)
    && multiset(Keys(T.InOrder(b.root))) == multiset(Keys(l.items))
    && b.count == l.count == |l.items| == T.Size(b.root)
  }

  lemma KeysWith(s: seq<Item>, i: nat, x: Item)
    requires i <= |s|
    ensures multiset(Keys(s[..i] + [x] + s[i..])) == multiset(Keys(s)) + multiset{x.key}
  {
    assert Keys(s[..i] + [x] + s[i..]) == Keys(s)[..i] + [x.key] + Keys(s)[i..];
    InsertedMultiset(Keys(s), i, x.key);
  }

  lemma InsertRefines(b: Bst, l: List, x: Item)
    requires Refines(b, l)
    ensures Refines(BstInsert(b, x), ListInsert(l, x))
  {
    T.InsertKeepsOrder(b.root, x);
    var s := T.InOrder(b.root);
    var i := T.InsertPlacesLast(b.root, x);
    KeysWith(s, i, x);
    KeysWith(l.items, |l.items|, x);
    assert l.items[..|l.items|] + [x] + l.items[|l.items|..] == l.items + [x];
    T.CountIsMultiplicity(b.root, x);
    T.CountIsMultiplicity(T.Insert(b.root, x), x);
  }

  lemma DeleteRefines(b: Bst, l: List, k: int)
    requires Refines(b, l)
    ensures Refines(BstDelete(b, k).0, ListDelete(l, k).0)
    ensures BstDelete(b, k).1 == ListDelete(l, k).1
    ensures BstDelete(b, k).0.root == T.Delete(b.root, k).0
  {
    T.DeleteLosesOne(b.root, k);
    WithoutFirstMultiset(T.InOrder(b.root), k);
    WithoutFirstMultiset(l.items, k);
    KeyInMultiset(T.InOrder(b.root), k);
    KeyInMultiset(l.items, k);
    ListLosesFirst(l, k);
    if T.Delete(b.root, k).1 {
      DeleteLosesNode(b.root, k);
    }
  }

  lemma ListLosesFirst(l: List, k: int)
    ensures ListDelete(l, k).0.items == WithoutFirst(l.items, k)
    ensures ListDelete(l, k).1 <==> KeyIn(l.items, k)
    ensures |WithoutFirst(l.items, k)| == |l.items| - (if KeyIn(l.items, k) then 1 else 0)
  {
    var i := FirstWithFacts(l.items, k);
  }

  lemma DeleteLosesNode(t: T.Tree, k: int)
    requires T.Ordered(t) && KeyIn(T.InOrder(t), k)
    ensures T.Size(T.Delete(t, k).0) == T.Size(t) - 1
    ensures T.Size(t) == 1 ==> T.Delete(t, k).0 == T.Leaf
  {
    var t', s := T.Delete(t, k).0, T.InOrder(t);
    T.DeleteLosesOne(t, k);
    T.CountIsMultiplicity(t, Item(k, 0));
    T.CountIsMultiplicity(t', Item(k, 0));
    var i := FirstWithFacts(s, k);
    assert |Keys(T.InOrder(t'))| == |Keys(WithoutFirst(s, k))| == |s| - 1;
  }

  /** After any common history the tree and the list hold the same keys equally
      often and agree on the count and on every delete's answer. */
  lemma {:induction false} TreeRefinesList(ops: seq<Op>)
    ensures Refines(RunBst(ops).0, RunList(ops).0)
    ensures RunBst(ops).1 == RunList(ops).1
  {
    if ops != [] {
      var init, last := ops[..|ops|-1], ops[|ops|-1];
      TreeRefinesList(init);
      var b, l := RunBst(init).0, RunList(init).0;
      match last
      case Insert(x) => InsertRefines(b, l, x);
      case Delete(k) => DeleteRefines(b, l, k);
    }
  }

  /** After any common history a key is found in one exactly when in the other. */
  lemma RetrieveAgreesOnPresence(ops: seq<Op>, k: int)
    ensures T.Retrieve(RunBst(ops).0.root, k).Some? <==> FirstWith(RunList(ops).0.items, k).Some?
  {
    var b, l := RunBst(ops).0, RunList(ops).0;
    TreeRefinesList(ops);
    T.RetrieveFinds(b.root, k);
    KeyInMultiset(T.InOrder(b.root), k);
    KeyInMultiset(l.items, k);
    var i := FirstWithFacts(l.items, k);
  }

  // ---------- the traversal's assertions ----------

  /** After any history the traversal's assertions hold exactly when no child
      repeats its parent's key; with distinct keys they always hold. */
  lemma TraverseAsserts(ops: seq<Op>)
    ensures T.AssertsHold(RunBst(ops).0.root) <==> !T.ChildRepeatsParent(RunBst(ops).0.root)
    ensures DistinctKeys(RunList(ops).0.items) ==> T.AssertsHold(RunBst(ops).0.root)
  {
    var b, l := RunBst(ops).0, RunList(ops).0;
    TreeRefinesList(ops);
    T.AssertsHoldExactly(b.root);
    if DistinctKeys(l.items) {
      DistinctByMultiset(l.items, T.InOrder(b.root));
      T.DistinctHasNoRepeat(b.root);
    }
  }
}
