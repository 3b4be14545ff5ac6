/** The steps of btree_insert (src/btree.c:110-169), each stated on the
    descent state: the entries of the whole tree are the entries before the
    current node, the node's own, and those after it; everything before is
    below the key and everything after above it. */
module InsertSteps {
  import opened Entries
  import opened Nodes
  import opened Restructure
  import opened Occupancy
  import opened Zipper

  /** A tree of height h at the top level: good as a root, entries sorted. */
  ghost predicate Tree(t: Node, h: nat, m: nat)
  {
    Good(t, h, m, true) && Sorted(Inorder(t))
  }

  /** The state of the insertion's descent towards key through a tree that
      lists e0, at node cur of height hc. */
  ghost predicate Descent(e0: seq<Entry>, key: int, path: seq<Frame>, cur: Node, hc: nat, m: nat)
  {
    DescentShape(path, cur, hc, m) && DescentOrder(e0, key, path, cur)
  }

  /** The bounds: every frame and the current node within them. */
  ghost predicate DescentShape(path: seq<Frame>, cur: Node, hc: nat, m: nat)
  {
    3 <= m && CtxGood(path, hc, m, true) && Good(cur, hc, m, path == [])
  }

  /** The entries: the tree lists e0, sorted, with the key's place inside cur. */
  ghost predicate DescentOrder(e0: seq<Entry>, key: int, path: seq<Frame>, cur: Node)
  {
    && Sorted(e0) && PathOk(path)
    && CtxL(path) + Inorder(cur) + CtxR(path) == e0
    && AllBelow(CtxL(path), key) && AllAbove(CtxR(path), key)
  }

  lemma Start(t: Node, key: int, h: nat, m: nat)
    requires 3 <= m && Tree(t, h, m)
    ensures Descent(Inorder(t), key, [], t, h, m)
  {
  }

  /** Root growth (src/btree.c:115-122): a root with at least m - 1 entries
      moves below a new empty root, which then splits it; the new root has
      one entry and two children, the tree is one level higher and lists the
      same entries. */
  lemma GrowRoot(t: Node, h: nat, m: nat)
    requires 3 <= m && Good(t, h, m, true) && m - 1 <= |t.kvs|
    ensures Shaped(t) && Ceil(m) < |t.kvs|
    ensures Good(SplitChild(Node(false, [], [t]), 0, m), h + 1, m, true)
    ensures Inorder(SplitChild(Node(false, [], [t]), 0, m)) == Inorder(t)
    ensures |SplitChild(Node(false, [], [t]), 0, m).kvs| == 1
    ensures |SplitChild(Node(false, [], [t]), 0, m).children| == 2
  {
    var n := Node(false, [], [t]);
    GoodNotRoot(t, h, m);
    assert n.children[0] == t;
    SplitChildGood(n, 0, h + 1, m, true);
    SplitChildInorder(n, 0, m);
    InorderSingle(n);
  }

  /** Descending into child k, whose separators enclose the key, keeps the
      descent state. */
  lemma Descend(e0: seq<Entry>, key: int, path: seq<Frame>, n: Node, hc: nat, m: nat, k: nat)
    requires Descent(e0, key, path, n, hc, m) && !n.leaf && k < |n.children|
    requires 0 < k ==> n.kvs[k - 1].key < key
    requires k < |n.kvs| ==> key < n.kvs[k].key
    ensures 1 <= hc && FrameOk(Frame(n, k))
    ensures Descent(e0, key, path + [Frame(n, k)], n.children[k], hc - 1, m)
  {
    DescendShape(path, n, hc, m, k);
    DescendOrder(e0, key, path, n, k);
  }

  lemma DescendShape(path: seq<Frame>, n: Node, hc: nat, m: nat, k: nat)
    requires DescentShape(path, n, hc, m) && !n.leaf && k < |n.children|
    ensures 1 <= hc && DescentShape(path + [Frame(n, k)], n.children[k], hc - 1, m)
  {
    FrameOfGood(n, k, hc, m, path == []);
    CtxGoodExtend(path, Frame(n, k), hc - 1, m, true);
  }

  lemma DescendOrder(e0: seq<Entry>, key: int, path: seq<Frame>, n: Node, k: nat)
    requires DescentOrder(e0, key, path, n) && !n.leaf && Shaped(n) && k < |n.children|
    requires 0 < k ==> n.kvs[k - 1].key < key
    requires k < |n.kvs| ==> key < n.kvs[k].key
    ensures FrameOk(Frame(n, k))
    ensures DescentOrder(e0, key, path + [Frame(n, k)], n.children[k])
  {
    var f := Frame(n, k);
    var l, r := CtxL(path), CtxR(path);
    assert Sorted(Inorder(n)) by {
      SortedParts(l, Inorder(n), r);
    }
    Route(n, k, key);
    InorderAt(n, k);
    CtxExtend(path, f);
    Reassociate(l, Left(n, k), Inorder(n.children[k]), Right(n, k), r);
    AllBelowConcat(l, Left(n, k), key);
    AllAboveConcat(Right(n, k), r, key);
  }

  /** btree_split_child of a child with at least m - 1 entries below the
      current node: the state is kept, both halves have fewer than m - 1
      entries, and the median lands at slot i between the old neighbours. */
  lemma SplitStep(e0: seq<Entry>, key: int, path: seq<Frame>, n: Node, hc: nat, m: nat, i: nat)
    requires Descent(e0, key, path, n, hc, m) && !n.leaf && |n.kvs| < m - 1
    requires i < |n.children| && m - 1 <= |n.children[i].kvs|
    ensures Shaped(n.children[i]) && Ceil(m) < |n.children[i].kvs|
    ensures Descent(e0, key, path, SplitChild(n, i, m), hc, m)
    ensures |SplitChild(n, i, m).kvs| < m
    ensures |SplitChild(n, i, m).children[i].kvs| < m - 1
    ensures |SplitChild(n, i, m).children[i + 1].kvs| < m - 1
    ensures 0 < i ==> SplitChild(n, i, m).kvs[i - 1] == n.kvs[i - 1]
    ensures i < |n.kvs| ==> SplitChild(n, i, m).kvs[i + 1] == n.kvs[i]
  {
    GoodChildren(n, hc, m, path == []);
    SplitChildGood(n, i, hc, m, path == []);
    SplitChildInorder(n, i, m);
  }

  /** The key found at slot i of the current node: overwriting its value
      gives a tree that maps key to value and is otherwise unchanged. */
  lemma Overwrite(e0: seq<Entry>, key: int, value: int, path: seq<Frame>, n: Node, hc: nat, m: nat, i: nat)
    requires Descent(e0, key, path, n, hc, m) && i < |n.kvs| && n.kvs[i].key == key
    ensures PathOk(path)
    ensures Tree(Zip(path, Node(n.leaf, n.kvs[i := Entry(key, value)], n.children)), hc + |path|, m)
    ensures ToMap(Inorder(Zip(path, Node(n.leaf, n.kvs[i := Entry(key, value)], n.children))))
            == ToMap(e0)[key := value]
    ensures |Inorder(Zip(path, Node(n.leaf, n.kvs[i := Entry(key, value)], n.children)))| == |e0|
    ensures key in ToMap(e0)
  {
    var n' := Node(n.leaf, n.kvs[i := Entry(key, value)], n.children);
    SetEntryGood(n, i, Entry(key, value), hc, m, path == []);
    ZipGood(path, n', hc, m, true);
    OverwriteOrder(e0, key, value, path, n, i);
  }

  lemma OverwriteOrder(e0: seq<Entry>, key: int, value: int, path: seq<Frame>, n: Node, i: nat)
    requires DescentOrder(e0, key, path, n) && Shaped(n) && i < |n.kvs| && n.kvs[i].key == key
    ensures Sorted(Inorder(Zip(path, Node(n.leaf, n.kvs[i := Entry(key, value)], n.children))))
    ensures ToMap(Inorder(Zip(path, Node(n.leaf, n.kvs[i := Entry(key, value)], n.children))))
            == ToMap(e0)[key := value]
    ensures |Inorder(Zip(path, Node(n.leaf, n.kvs[i := Entry(key, value)], n.children)))| == |e0|
    ensures key in ToMap(e0)
  {
    var n' := Node(n.leaf, n.kvs[i := Entry(key, value)], n.children);
    SetEntryInorder(n, i, Entry(key, value));
    EntryAt(n, i);
    ZipInorder(path, n');
    ReplaceInContext(CtxL(path), Before(n, i), n.kvs[i], After(n, i), CtxR(path), value);
  }

  /** The key found at slot i without overwrite: the tree, with whatever
      splits happened on the way, lists the same entries. */
  lemma Keep(e0: seq<Entry>, key: int, path: seq<Frame>, n: Node, hc: nat, m: nat, i: nat)
    requires Descent(e0, key, path, n, hc, m) && i < |n.kvs| && n.kvs[i].key == key
    ensures PathOk(path)
    ensures Tree(Zip(path, n), hc + |path|, m) && Inorder(Zip(path, n)) == e0
    ensures key in ToMap(e0)
  {
    ZipGood(path, n, hc, m, true);
    ZipInorder(path, n);
    EntryAt(n, i);
    ReplaceInContext(CtxL(path), Before(n, i), n.kvs[i], After(n, i), CtxR(path), n.kvs[i].value);
  }

  /** The key absent from the leaf reached: putting the new entry into slot i
      gives a tree one entry larger that maps key to value. */
  lemma LeafInsert(e0: seq<Entry>, key: int, value: int, path: seq<Frame>, n: Node, hc: nat, m: nat, i: nat)
    requires Descent(e0, key, path, n, hc, m) && n.leaf && |n.kvs| < m - 1 && i <= |n.kvs|
    requires 0 < i ==> n.kvs[i - 1].key < key
    requires i < |n.kvs| ==> key < n.kvs[i].key
    ensures PathOk(path)
    ensures Tree(Zip(path, Node(true, n.kvs[..i] + [Entry(key, value)] + n.kvs[i..], [])), hc + |path|, m)
    ensures ToMap(Inorder(Zip(path, Node(true, n.kvs[..i] + [Entry(key, value)] + n.kvs[i..], []))))
            == ToMap(e0)[key := value]
    ensures |Inorder(Zip(path, Node(true, n.kvs[..i] + [Entry(key, value)] + n.kvs[i..], [])))| == |e0| + 1
    ensures key !in ToMap(e0)
  {
    var n' := Node(true, n.kvs[..i] + [Entry(key, value)] + n.kvs[i..], []);
    ZipGood(path, n', hc, m, true);
    LeafInsertOrder(e0, key, value, path, n, i);
  }

  lemma LeafInsertOrder(e0: seq<Entry>, key: int, value: int, path: seq<Frame>, n: Node, i: nat)
    requires DescentOrder(e0, key, path, n) && n.leaf && i <= |n.kvs|
    requires 0 < i ==> n.kvs[i - 1].key < key
    requires i < |n.kvs| ==> key < n.kvs[i].key
    ensures Sorted(Inorder(Zip(path, Node(true, n.kvs[..i] + [Entry(key, value)] + n.kvs[i..], []))))
    ensures ToMap(Inorder(Zip(path, Node(true, n.kvs[..i] + [Entry(key, value)] + n.kvs[i..], []))))
            == ToMap(e0)[key := value]
    ensures |Inorder(Zip(path, Node(true, n.kvs[..i] + [Entry(key, value)] + n.kvs[i..], [])))| == |e0| + 1
    ensures key !in ToMap(e0)
  {
    var n' := Node(true, n.kvs[..i] + [Entry(key, value)] + n.kvs[i..], []);
    ZipInorder(path, n');
    var lo, hi := n.kvs[..i], n.kvs[i..];
    assert n.kvs == lo + hi;
    assert Inorder(n') == lo + [Entry(key, value)] + hi;
    assert Sorted(n.kvs) by {
      SortedParts(CtxL(path), n.kvs, CtxR(path));
    }
    SplitAround(n.kvs, i, key);
    InsertInContext(CtxL(path), lo, Entry(key, value), hi, CtxR(path));
  }
}
