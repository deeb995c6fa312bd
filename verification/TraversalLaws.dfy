/** When the assertions of the traversal hold, told from the history of inserts
    alone: they fail exactly when an item was put right below one with its key. */
module TraversalLaws {
  import opened Items
  import opened SearchTree
  import D = Dictionary

  // ---------- where an item would go ----------

  /** A new item with key `k` would become the right child of one with that key. */
  predicate WouldRepeat(t: Tree, k: int)
  {
    match t
    case Leaf => false
    case Node(l, d, r) =>
      if k < d.key then WouldRepeat(l, k) else if r.Leaf? then d.key == k else WouldRepeat(r, k)
  }

  /** Every stored key above `k` is above `z`. */
  predicate BelowLarger(t: Tree, k: int, z: int)
  {
    t.Node? ==> (t.data.key > k ==> z < t.data.key) && BelowLarger(t.left, k, z) && BelowLarger(t.right, k, z)
  }

  lemma {:induction false} BelowLargerBounds(t: Tree, k: int, z: int, m: int)
    ensures AllAtLeast(t, m) && z < m ==> BelowLarger(t, k, z)
    ensures AllAtMost(t, m) && m <= k ==> BelowLarger(t, k, z)
  {
    if t.Node? {
      BelowLargerBounds(t.left, k, z, m);
      BelowLargerBounds(t.right, k, z, m);
    }
  }

  lemma {:induction false} BelowLargerInsert(t: Tree, x: Item, k: int, z: int)
    ensures BelowLarger(Insert(t, x), k, z) <==> BelowLarger(t, k, z) && (x.key > k ==> z < x.key)
  {
    if t.Node? {
      BelowLargerInsert(t.left, x, k, z);
      BelowLargerInsert(t.right, x, k, z);
    }
  }

  /** An insert makes a repetition exactly when it would, the sentinel aside. */
  lemma {:induction false} InsertRepeats(t: Tree, x: Item)
    ensures ChildRepeatsParent(Insert(t, x)) <==> ChildRepeatsParent(t) || (x.key != -1 && WouldRepeat(t, x.key))
  {
    if t.Node? {
      InsertRepeats(t.left, x);
      InsertRepeats(t.right, x);
    }
  }

  /** The place right below key `k` is taken by another key exactly when that key is
      above `k` and below everything else above `k`. */
  lemma {:induction false} WouldRepeatAfterInsert(t: Tree, z: Item, k: int)
    requires Ordered(t)
    ensures WouldRepeat(Insert(t, z), k) <==>
      z.key == k || (WouldRepeat(t, k) && !(k < z.key && BelowLarger(t, k, z.key)))
  {
    match t
    case Leaf =>
    case Node(l, d, r) =>
      WouldRepeatAfterInsert(l, z, k);
      WouldRepeatAfterInsert(r, z, k);
      BelowLargerBounds(r, k, z.key, d.key);
      BelowLargerBounds(l, k, z.key, d.key);
  }

  // ---------- histories of inserts ----------

  /** Item `m` disturbs item `i`: it has the same key, or one above it and below
      every larger key inserted before `i`. */
  predicate Disturbs(xs: seq<Item>, i: nat, m: nat)
    requires i < |xs| && m < |xs|
  {
    xs[m].key == xs[i].key
    || (xs[i].key < xs[m].key && forall h :: 0 <= h < i && xs[i].key < xs[h].key ==> xs[m].key < xs[h].key)
  }

  predicate Undisturbed(xs: seq<Item>, i: nat, n: nat)
    requires i < n <= |xs|
  {
    forall m :: i < m < n ==> !Disturbs(xs, i, m)
  }

  /** Items `i` and `j` have one key, not the sentinel, and nothing inserted between
      them disturbs the first. */
  predicate Repeats(xs: seq<Item>, i: nat, j: nat)
    requires i < j < |xs|
  {
    xs[i].key == xs[j].key != -1 && Undisturbed(xs, i, j)
  }

  lemma {:induction false} BelowLargerInserted(xs: seq<Item>, k: int, z: int)
    ensures BelowLarger(InsertAll(xs), k, z) <==> forall h :: 0 <= h < |xs| && k < xs[h].key ==> z < xs[h].key
  {
    if xs != [] {
      var init := xs[..|xs|-1];
      BelowLargerInserted(init, k, z);
      BelowLargerInsert(InsertAll(init), xs[|xs|-1], k, z);
    }
  }

  lemma UndisturbedPrefix(xs: seq<Item>, i: nat, n: nat)
    requires i < n < |xs|
    ensures Undisturbed(xs, i, n) <==> Undisturbed(xs[..|xs|-1], i, n)
    ensures Undisturbed(xs, i, n + 1) <==> Undisturbed(xs, i, n) && !Disturbs(xs, i, n)
  {
    var init := xs[..|xs|-1];
    assert forall h :: 0 <= h < |init| ==> xs[h] == init[h];
    forall m | i < m < n ensures Disturbs(xs, i, m) <==> Disturbs(init, i, m) {
      if Disturbs(init, i, m) {
        assert forall h :: 0 <= h < i ==> xs[h] == init[h];
      }
    }
  }

  /** While item `i` is undisturbed, a further item above it is below everything
      larger exactly when it is below everything larger before `i`. */
  lemma SameLarger(xs: seq<Item>, i: nat)
    requires i < |xs| - 1 && Undisturbed(xs, i, |xs| - 1) && xs[i].key != xs[|xs|-1].key
    ensures Disturbs(xs, i, |xs| - 1) <==>
      xs[i].key < xs[|xs|-1].key && BelowLarger(InsertAll(xs[..|xs|-1]), xs[i].key, xs[|xs|-1].key)
  {
    var init, k, z := xs[..|xs|-1], xs[i].key, xs[|xs|-1].key;
    BelowLargerInserted(init, k, z);
    if k < z && forall h :: 0 <= h < i && k < xs[h].key ==> z < xs[h].key {
      forall m | 0 <= m < |init| && k < init[m].key ensures z < init[m].key {
        if m > i {
          assert !Disturbs(xs, i, m);
        }
      }
    }
    assert forall h :: 0 <= h < |init| ==> init[h] == xs[h];
  }

  /** The place below the last item with key `k` is free exactly when that item is
      undisturbed. */
  lemma {:induction false} WouldRepeatInserted(xs: seq<Item>, k: int)
    ensures WouldRepeat(InsertAll(xs), k) <==> exists i :: 0 <= i < |xs| && xs[i].key == k && Undisturbed(xs, i, |xs|)
  {
    if xs != [] {
      var n := |xs| - 1;
      var init, z := xs[..n], xs[n];
      WouldRepeatInserted(init, k);
      InsertAllOrdered(init);
      WouldRepeatAfterInsert(InsertAll(init), z, k);
      if z.key == k {
        assert Undisturbed(xs, n, |xs|);
      } else {
        forall i | 0 <= i < n && xs[i].key == k
          ensures Undisturbed(xs, i, |xs|) <==> Undisturbed(init, i, n) && !(k < z.key && BelowLarger(InsertAll(init), k, z.key))
        {
          UndisturbedPrefix(xs, i, n);
          if Undisturbed(xs, i, n) {
            SameLarger(xs, i);
          }
        }
      }
    }
  }

  lemma {:induction false} RepeatsInserted(xs: seq<Item>)
    ensures ChildRepeatsParent(InsertAll(xs)) <==> exists i, j :: 0 <= i < j < |xs| && Repeats(xs, i, j)
  {
    if xs != [] {
      var n := |xs| - 1;
      var init, x := xs[..n], xs[n];
      RepeatsInserted(init);
      InsertRepeats(InsertAll(init), x);
      WouldRepeatInserted(init, x.key);
      forall i, j | 0 <= i < j <= n ensures Undisturbed(xs, i, j) <==> Undisturbed(init, i, j) {
        UndisturbedPrefix(xs, i, j);
      }
      assert forall i :: 0 <= i < n ==> xs[i] == init[i];
      forall i, j | 0 <= i < j < n ensures Repeats(xs, i, j) <==> Repeats(init, i, j) {
      }
      forall i | 0 <= i < n ensures Repeats(xs, i, n) <==> x.key != -1 && init[i].key == x.key && Undisturbed(init, i, n) {
      }
    }
  }

  /** After inserts alone the assertions of the traversal fail exactly when, for some
      key other than -1, two occurrences have nothing between them that disturbs the
      first: no third one, and no key above it and below all larger ones before it. */
  lemma InsertsFailExactly(ops: seq<D.Op>)
    requires forall op :: op in ops ==> op.Insert?
    ensures var xs := D.RunList(ops).0.items;
      !AssertsHold(D.RunBst(ops).0.root) <==> exists i, j :: 0 <= i < j < |xs| && Repeats(xs, i, j)
  {
    var xs := D.RunList(ops).0.items;
    InsertsBuild(ops);
    InsertAllOrdered(xs);
    AssertsHoldExactly(InsertAll(xs));
    RepeatsInserted(xs);
  }

  lemma {:induction false} InsertsBuild(ops: seq<D.Op>)
    requires forall op :: op in ops ==> op.Insert?
    ensures D.RunBst(ops).0.root == InsertAll(D.RunList(ops).0.items)
  {
    if ops != [] {
      var init, last := ops[..|ops|-1], ops[|ops|-1];
      InsertsBuild(init);
      var xs := D.RunList(init).0.items;
      assert (xs + [last.item])[..|xs|] == xs;
    }
  }

  /** They do fail: the same key twice is enough. */
  lemma EqualKeysFail(a: nat, b: nat)
    ensures !AssertsHold(D.RunBst([D.Insert(Item(5, a)), D.Insert(Item(5, b))]).0.root)
  {
    var one := [D.Insert(Item(5, a))];
    var two := one + [D.Insert(Item(5, b))];
    assert one[..0] == [] && two[..1] == one && two == [D.Insert(Item(5, a)), D.Insert(Item(5, b))];
    assert D.RunBst(one).0.root == Node(Leaf, Item(5, a), Leaf);
    assert D.RunBst(two).0.root == Insert(Node(Leaf, Item(5, a), Leaf), Item(5, b));
    assert Insert(Leaf, Item(5, b)) == Node(Leaf, Item(5, b), Leaf);
  }
}
