/** The steps of btree_delete (src/btree.c:192-308), each stated on the
    deletion's descent state. The descent takes the key out of the subtree of
    the current node: what the whole tree will list once the key is gone is
    the entries before the node, the node's own without the target, and those
    after it. Before the node is entered it is topped up so that it can give
    up an entry.

    The leaf steps bind DelState as `var ok := DelState(..); ok`, as
    btree.dfy does, so that the verifier does not unfold it at every use. */
module DeleteSteps {
  import opened Entries
  import opened Nodes
  import opened Restructure
  import opened Occupancy
  import opened Zipper
  import opened InsertSteps

  /** The state of the deletion of key from a tree that listed e0, at node cur
      of height hc below path. The target is the key still to be taken out of
      cur's subtree: key itself, or, once key was replaced by its predecessor,
      that predecessor's key, and then res holds the value key had. */
  ghost predicate DelState(e0: seq<Entry>, key: int, target: int, res: Option<int>,
                           path: seq<Frame>, cur: Node, hc: nat, m: nat)
  {
    DelShape(path, cur, hc, m) && DelOrder(e0, key, target, res, path, cur)
  }

  /** The bounds: the path and cur are good, and cur, unless it is the root,
      holds more than the fewest entries, so it may lose one. */
  ghost predicate DelShape(path: seq<Frame>, cur: Node, hc: nat, m: nat)
  {
    && 3 <= m && CtxGood(path, hc, m, true) && Good(cur, hc, m, path == [])
    && (path != [] ==> MinOcc(m) < |cur.kvs|)
  }

  /** The entries: taking the target out of cur's subtree gives the original
      entries without key; until a replacement, the tree still lists e0 and key
      can only be inside cur; after one, key had value res and the target is
      inside cur. */
  ghost predicate DelOrder(e0: seq<Entry>, key: int, target: int, res: Option<int>,
                           path: seq<Frame>, cur: Node)
  {
    && Sorted(e0) && PathOk(path) && Sorted(Inorder(cur))
    && RemoveKey(e0, key) == CtxL(path) + RemoveKey(Inorder(cur), target) + CtxR(path)
    && (res.None? ==>
          && target == key && CtxL(path) + Inorder(cur) + CtxR(path) == e0
          && key !in KeySet(CtxL(path)) && key !in KeySet(CtxR(path)))
    && (res.Some? ==>
          && key in ToMap(e0) && ToMap(e0)[key] == res.value
          && target in KeySet(Inorder(cur)))
  }

  /** The slot key_binary_search gives for t in kvs. */
  ghost predicate Slot(kvs: seq<Entry>, t: int, i: nat)
  {
    i <= |kvs| && (0 < i ==> kvs[i - 1].key < t) && (i < |kvs| ==> t <= kvs[i].key)
  }

  /** Children j and j + 1 of n are of one kind and may be rotated or merged. */
  ghost predicate Pair(n: Node, j: nat)
  {
    && !n.leaf && Shaped(n) && j < |n.kvs|
    && Shaped(n.children[j]) && Shaped(n.children[j + 1])
    && n.children[j].leaf == n.children[j + 1].leaf
  }

  lemma DelStart(t: Node, key: int, h: nat, m: nat)
    requires 3 <= m && Tree(t, h, m)
    ensures DelState(Inorder(t), key, key, None, [], t, h, m)
  {
  }

  /** An internal node of the descent is shaped and holds an entry. */
  lemma DelInternal(e0: seq<Entry>, key: int, target: int, res: Option<int>,
                    path: seq<Frame>, cur: Node, hc: nat, m: nat)
    requires DelState(e0, key, target, res, path, cur, hc, m) && !cur.leaf
    ensures Shaped(cur) && 1 <= |cur.kvs| && 1 <= hc
  {
  }

  lemma ChildPair(n: Node, j: nat, h: nat, m: nat, root: bool)
    requires Good(n, h, m, root) && !n.leaf && j < |n.kvs|
    ensures Pair(n, j)
    ensures Good(n.children[j], h - 1, m, false) && Good(n.children[j + 1], h - 1, m, false)
  {
  }

  /** Everything in child j is below separator j, everything in child j + 1
      above it. */
  lemma Fences(n: Node, j: nat)
    requires Pair(n, j) && Sorted(Inorder(n))
    ensures |n.children[j].kvs| > 0 ==>
              n.children[j].kvs[|n.children[j].kvs| - 1].key < n.kvs[j].key
    ensures |n.children[j + 1].kvs| > 0 ==> n.kvs[j].key < n.children[j + 1].kvs[0].key
    ensures Sorted(n.kvs)
  {
    Separates(n, j);
    KeysSorted(n);
    var x, y := n.children[j], n.children[j + 1];
    if |x.kvs| > 0 {
      KeysInInorder(x, |x.kvs| - 1);
      MemberBelow(Inorder(x), x.kvs[|x.kvs| - 1], n.kvs[j].key);
    }
    if |y.kvs| > 0 {
      KeysInInorder(y, 0);
      MemberAbove(Inorder(y), y.kvs[0], n.kvs[j].key);
    }
  }

  lemma MemberBelow(s: seq<Entry>, e: Entry, t: int)
    requires AllBelow(s, t) && e in s
    ensures e.key < t
  {
  }

  lemma MemberAbove(s: seq<Entry>, e: Entry, t: int)
    requires AllAbove(s, t) && e in s
    ensures t < e.key
  {
  }

  // ---------------------------------------------------------------------------
  // Descending

  /** Entering child k of n, a rearrangement of cur that lists the same
      entries, whose separators enclose the target and which can give up an
      entry, keeps the state. */
  lemma DelDescend(e0: seq<Entry>, key: int, target: int, res: Option<int>, path: seq<Frame>,
                cur: Node, n: Node, hc: nat, m: nat, k: nat)
    requires DelState(e0, key, target, res, path, cur, hc, m)
    requires !n.leaf && Good(n, hc, m, path == []) && Inorder(n) == Inorder(cur)
    requires k < |n.children| && MinOcc(m) < |n.children[k].kvs|
    requires 0 < k ==> n.kvs[k - 1].key < target
    requires k < |n.kvs| ==> target < n.kvs[k].key
    ensures 1 <= hc && FrameOk(Frame(n, k))
    ensures DelState(e0, key, target, res, path + [Frame(n, k)], n.children[k], hc - 1, m)
  {
    DelDescendShape(path, n, hc, m, k);
    DelDescendOrder(e0, key, target, res, path, cur, n, k);
  }

  lemma DelDescendShape(path: seq<Frame>, n: Node, hc: nat, m: nat, k: nat)
    requires 3 <= m && CtxGood(path, hc, m, true) && Good(n, hc, m, path == [])
    requires !n.leaf && k < |n.children| && MinOcc(m) < |n.children[k].kvs|
    ensures 1 <= hc && DelShape(path + [Frame(n, k)], n.children[k], hc - 1, m)
  {
    FrameOfGood(n, k, hc, m, path == []);
    CtxGoodExtend(path, Frame(n, k), hc - 1, m, true);
  }

  lemma DelDescendOrder(e0: seq<Entry>, key: int, target: int, res: Option<int>, path: seq<Frame>,
                     cur: Node, n: Node, k: nat)
    requires DelOrder(e0, key, target, res, path, cur)
    requires !n.leaf && Shaped(n) && Inorder(n) == Inorder(cur) && k < |n.children|
    requires 0 < k ==> n.kvs[k - 1].key < target
    requires k < |n.kvs| ==> target < n.kvs[k].key
    ensures FrameOk(Frame(n, k))
    ensures DelOrder(e0, key, target, res, path + [Frame(n, k)], n.children[k])
  {
    var f := Frame(n, k);
    var l, r := CtxL(path), CtxR(path);
    var a, x, b := Left(n, k), Inorder(n.children[k]), Right(n, k);
    Route(n, k, target);
    InorderAt(n, k);
    CtxExtend(path, f);
    RemoveInContext(l, a, x, b, r, target);
    if res.None? {
      Reassociate(l, a, x, b, r);
      KeySetConcat(l, a);
      KeySetConcat(b, r);
    }
  }

  /** The child the key routes to is rich (src/btree.c:248 not taken): it can
      already give up an entry and is entered as it is. */
  lemma StepDown(e0: seq<Entry>, key: int, target: int, res: Option<int>, path: seq<Frame>,
                 cur: Node, hc: nat, m: nat, i: nat)
    requires DelState(e0, key, target, res, path, cur, hc, m) && !cur.leaf
    requires Slot(cur.kvs, target, i) && !(i < |cur.kvs| && cur.kvs[i].key == target)
    requires Ceil(m) < |cur.children[i].kvs|
    ensures 1 <= hc && FrameOk(Frame(cur, i))
    ensures DelState(e0, key, target, res, path + [Frame(cur, i)], cur.children[i], hc - 1, m)
  {
    DelDescend(e0, key, target, res, path, cur, cur, hc, m, i);
  }

  // ---------------------------------------------------------------------------
  // Rotations and merges on the way down

  /** A right rotation through separator j, then entering child j + 1: either
      the key is separator j (found, j == i) and moves down into child j + 1,
      or the key routes to child i == j + 1, which borrows from its left
      sibling. The donor must be rich and the receiver have room. */
  lemma StepRotateRight(e0: seq<Entry>, key: int, target: int, res: Option<int>, path: seq<Frame>,
                        cur: Node, hc: nat, m: nat, i: nat, j: nat)
    requires DelState(e0, key, target, res, path, cur, hc, m) && !cur.leaf
    requires Slot(cur.kvs, target, i)
    requires (j == i && i < |cur.kvs| && cur.kvs[i].key == target)
          || (j + 1 == i && !(i < |cur.kvs| && cur.kvs[i].key == target))
    requires j < |cur.kvs|
    requires Ceil(m) < |cur.children[j].kvs| && |cur.children[j + 1].kvs| < m
    ensures Pair(cur, j) && |cur.children[j].kvs| > 0
    ensures 1 <= hc && FrameOk(Frame(RotateRight(cur, j), j + 1))
    ensures DelState(e0, key, target, res, path + [Frame(RotateRight(cur, j), j + 1)],
                     RotateRight(cur, j).children[j + 1], hc - 1, m)
  {
    RotateRightEnclosing(cur, target, hc, m, path == [], i, j);
    DelDescend(e0, key, target, res, path, cur, RotateRight(cur, j), hc, m, j + 1);
  }

  /** The right rotation keeps the node good and its entries, and the child
      that received the separator can give up an entry and encloses the
      target. */
  lemma RotateRightEnclosing(cur: Node, target: int, hc: nat, m: nat, root: bool, i: nat, j: nat)
    requires Good(cur, hc, m, root) && Sorted(Inorder(cur)) && !cur.leaf && 3 <= m
    requires Slot(cur.kvs, target, i)
    requires (j == i && i < |cur.kvs| && cur.kvs[i].key == target)
          || (j + 1 == i && !(i < |cur.kvs| && cur.kvs[i].key == target))
    requires j < |cur.kvs|
    requires Ceil(m) < |cur.children[j].kvs| && |cur.children[j + 1].kvs| < m
    ensures Pair(cur, j) && |cur.children[j].kvs| > 0
    ensures var n := RotateRight(cur, j);
            && !n.leaf && Good(n, hc, m, root) && Inorder(n) == Inorder(cur)
            && j + 1 < |n.children| && MinOcc(m) < |n.children[j + 1].kvs|
            && n.kvs[j].key < target
            && (j + 1 < |n.kvs| ==> target < n.kvs[j + 1].key)
  {
    ChildPair(cur, j, hc, m, root);
    Fences(cur, j);
    RotateRightGood(cur, j, hc, m, root);
    RotateRightInorder(cur, j);
  }

  /** A left rotation through separator i, then entering child i: either the
      key is separator i (found) and moves down into child i, or the key
      routes to child i, which borrows from its right sibling. */
  lemma StepRotateLeft(e0: seq<Entry>, key: int, target: int, res: Option<int>, path: seq<Frame>,
                       cur: Node, hc: nat, m: nat, i: nat)
    requires DelState(e0, key, target, res, path, cur, hc, m) && !cur.leaf
    requires Slot(cur.kvs, target, i) && i < |cur.kvs|
    requires Ceil(m) < |cur.children[i + 1].kvs| && |cur.children[i].kvs| < m
    ensures Pair(cur, i) && |cur.children[i + 1].kvs| > 0
    ensures 1 <= hc && FrameOk(Frame(RotateLeft(cur, i), i))
    ensures DelState(e0, key, target, res, path + [Frame(RotateLeft(cur, i), i)],
                     RotateLeft(cur, i).children[i], hc - 1, m)
  {
    RotateLeftEnclosing(cur, target, hc, m, path == [], i);
    DelDescend(e0, key, target, res, path, cur, RotateLeft(cur, i), hc, m, i);
  }

  /** The left rotation keeps the node good and its entries, and the child
      that received the separator can give up an entry and encloses the
      target. */
  lemma RotateLeftEnclosing(cur: Node, target: int, hc: nat, m: nat, root: bool, i: nat)
    requires Good(cur, hc, m, root) && Sorted(Inorder(cur)) && !cur.leaf && 3 <= m
    requires Slot(cur.kvs, target, i) && i < |cur.kvs|
    requires Ceil(m) < |cur.children[i + 1].kvs| && |cur.children[i].kvs| < m
    ensures Pair(cur, i) && |cur.children[i + 1].kvs| > 0
    ensures var n := RotateLeft(cur, i);
            && !n.leaf && Good(n, hc, m, root) && Inorder(n) == Inorder(cur)
            && i < |n.children| && MinOcc(m) < |n.children[i].kvs|
            && (0 < i ==> n.kvs[i - 1].key < target)
            && target < n.kvs[i].key
  {
    ChildPair(cur, i, hc, m, root);
    Fences(cur, i);
    RotateLeftGood(cur, i, hc, m, root);
    RotateLeftInorder(cur, i);
  }

  /** btree_merge of children j and j + 1, both poor, with the parent keeping
      at least one entry, then entering the merged child: the key is separator
      j (found, j == i), or routes to child j (j == i) or to child j + 1
      (j + 1 == i). */
  lemma StepMerge(e0: seq<Entry>, key: int, target: int, res: Option<int>, path: seq<Frame>,
                  cur: Node, hc: nat, m: nat, i: nat, j: nat)
    requires DelState(e0, key, target, res, path, cur, hc, m) && !cur.leaf
    requires Slot(cur.kvs, target, i)
    requires j == i || (j + 1 == i && !(i < |cur.kvs| && cur.kvs[i].key == target))
    requires j < |cur.kvs| && !(path == [] && |cur.kvs| == 1)
    requires |cur.children[j].kvs| <= Ceil(m) && |cur.children[j + 1].kvs| <= Ceil(m)
    ensures Pair(cur, j)
    ensures 1 <= hc && FrameOk(Frame(Merge(cur, j), j))
    ensures DelState(e0, key, target, res, path + [Frame(Merge(cur, j), j)],
                     Merge(cur, j).children[j], hc - 1, m)
  {
    ChildPair(cur, j, hc, m, path == []);
    KeysSorted(cur);
    var n := Merge(cur, j);
    MergeGood(cur, j, hc, m, path == []);
    MergeInorder(cur, j);
    assert 0 < j ==> n.kvs[j - 1] == cur.kvs[j - 1];
    assert j < |n.kvs| ==> n.kvs[j] == cur.kvs[j + 1];
    DelDescend(e0, key, target, res, path, cur, n, hc, m, j);
  }

  /** The root with one entry whose two children are merged: the merged child
      becomes the root and the tree is one level lower (src/btree.c:186-189
      with the test corrected to the root, see Findings). */
  lemma StepCollapse(e0: seq<Entry>, key: int, target: int, res: Option<int>,
                     cur: Node, hc: nat, m: nat)
    requires DelState(e0, key, target, res, [], cur, hc, m) && !cur.leaf && |cur.kvs| == 1
    requires |cur.children[0].kvs| <= Ceil(m) && |cur.children[1].kvs| <= Ceil(m)
    ensures Pair(cur, 0) && 1 <= hc
    ensures DelState(e0, key, target, res, [], Merge(cur, 0).children[0], hc - 1, m)
  {
    ChildPair(cur, 0, hc, m, true);
    var n := Merge(cur, 0);
    MergedGood(cur, 0, hc, m, true);
    GoodAsRoot(n.children[0], hc - 1, m);
    MergeInorder(cur, 0);
    InorderSingle(n);
  }

  /** When both children around the key are full, neither can take the key
      and they cannot merge: the key is replaced by its predecessor, the last
      entry of the left child, and the deletion goes on for the predecessor in
      the left child. The value of key is kept in res. */
  lemma StepPredecessor(e0: seq<Entry>, key: int, target: int, res: Option<int>, path: seq<Frame>,
                        cur: Node, hc: nat, m: nat, i: nat)
    requires DelState(e0, key, target, res, path, cur, hc, m) && !cur.leaf
    requires i < |cur.kvs| && cur.kvs[i].key == target
    requires MinOcc(m) < |cur.children[i].kvs|
    ensures |Inorder(cur.children[i])| > 0
    ensures 1 <= hc
    ensures var xs := Inorder(cur.children[i]);
            var n := Node(false, cur.kvs[i := xs[|xs| - 1]], cur.children);
            && FrameOk(Frame(n, i))
            && DelState(e0, key, xs[|xs| - 1].key, if res.None? then Some(cur.kvs[i].value) else res,
                        path + [Frame(n, i)], cur.children[i], hc - 1, m)
  {
    ChildPair(cur, i, hc, m, path == []);
    KeysInInorder(cur.children[i], 0);
    var xs := Inorder(cur.children[i]);
    var n := Node(false, cur.kvs[i := xs[|xs| - 1]], cur.children);
    SetEntryGood(cur, i, xs[|xs| - 1], hc, m, path == []);
    DelDescendShape(path, n, hc, m, i);
    PredecessorOrder(e0, key, target, res, path, cur, i);
  }

  lemma Regroup6(l: seq<Entry>, a: seq<Entry>, u: seq<Entry>, p: Entry, b: seq<Entry>, r: seq<Entry>)
    ensures l + ((a + (u + [p])) + b) + r == (l + a) + u + (([p] + b) + r)
  {
  }

  lemma PredecessorOrder(e0: seq<Entry>, key: int, target: int, res: Option<int>, path: seq<Frame>,
                         cur: Node, i: nat)
    requires DelOrder(e0, key, target, res, path, cur) && !cur.leaf && Shaped(cur)
    requires i < |cur.kvs| && cur.kvs[i].key == target && |Inorder(cur.children[i])| > 0
    ensures var xs := Inorder(cur.children[i]);
            var n := Node(false, cur.kvs[i := xs[|xs| - 1]], cur.children);
            && FrameOk(Frame(n, i))
            && DelOrder(e0, key, xs[|xs| - 1].key, if res.None? then Some(cur.kvs[i].value) else res,
                        path + [Frame(n, i)], cur.children[i])
  {
    var e := cur.kvs[i];
    var xs := Inorder(cur.children[i]);
    var last := |xs| - 1;
    var p := xs[last];
    var n := Node(false, cur.kvs[i := p], cur.children);
    var f := Frame(n, i);
    var l, r := CtxL(path), CtxR(path);
    var a := Left(cur, i);
    var b := Inorder(cur.children[i + 1]) + Right(cur, i + 1);
    // cur lists a, then child i, then the key, then the rest
    assert RemoveKey(Inorder(cur), target) == (a + xs) + b by {
      EntryAt(cur, i);
      RemoveEntry(a + xs, e, b);
    }
    // the new node lists the same except that p stands where the key stood
    CtxExtend(path, f);
    Replaced(cur, i, p);
    assert CtxL(path + [f]) == l + a;
    assert CtxR(path + [f]) == ([p] + b) + r;
    // the predecessor is the last entry of child i, which is sorted
    Separates(cur, i);
    assert RemoveKey(xs, p.key) == xs[..last] by {
      RemoveKeyAt(xs, last);
    }
    assert xs[..last] + [p] == xs;
    Regroup6(l, a, xs[..last], p, b, r);
    assert p.key in KeySet(xs);
    if res.None? {
      EntryAt(cur, i);
      ValueInContext(l, a + xs, e, b, r);
    }
  }

  /** Putting p in place of entry i changes neither what comes before child i
      nor what follows child i + 1. */
  lemma Replaced(cur: Node, i: nat, p: Entry)
    requires !cur.leaf && Shaped(cur) && i < |cur.kvs|
    ensures var n := Node(false, cur.kvs[i := p], cur.children);
            && Left(n, i) == Left(cur, i)
            && Right(n, i) == [p] + (Inorder(cur.children[i + 1]) + Right(cur, i + 1))
  {
    var n := Node(false, cur.kvs[i := p], cur.children);
    assert n.kvs[..i] == cur.kvs[..i];
    LeftSame(cur, n, i);
    RightStep(n, i);
    assert n.kvs[i + 1..] == cur.kvs[i + 1..];
    RightSame(cur, i + 1, n, i + 1);
  }

  // ---------------------------------------------------------------------------
  // At the leaf

  /** The target found at slot i of the leaf reached: taking it out leaves a
      tree without key, one entry smaller, and the value key had is the one
      kept in res or, without a replacement, the one in the leaf. */
  lemma LeafRemove(e0: seq<Entry>, key: int, target: int, res: Option<int>, path: seq<Frame>,
                   cur: Node, hc: nat, m: nat, i: nat)
    requires var ok := DelState(e0, key, target, res, path, cur, hc, m); ok && cur.leaf
    requires i < |cur.kvs| && cur.kvs[i].key == target
    ensures PathOk(path)
    ensures Tree(Zip(path, Node(true, cur.kvs[..i] + cur.kvs[i + 1..], [])), hc + |path|, m)
    ensures Inorder(Zip(path, Node(true, cur.kvs[..i] + cur.kvs[i + 1..], []))) == RemoveKey(e0, key)
    ensures key in ToMap(e0)
    ensures ToMap(e0)[key] == if res.Some? then res.value else cur.kvs[i].value
  {
    LeafRemoveShape(path, cur, hc, m, i);
    LeafRemoveOrder(e0, key, target, res, path, cur, i);
  }

  lemma LeafRemoveShape(path: seq<Frame>, cur: Node, hc: nat, m: nat, i: nat)
    requires DelShape(path, cur, hc, m) && cur.leaf && i < |cur.kvs|
    ensures PathOk(path)
    ensures Good(Zip(path, Node(true, cur.kvs[..i] + cur.kvs[i + 1..], [])), hc + |path|, m, true)
  {
    var c := Node(true, cur.kvs[..i] + cur.kvs[i + 1..], []);
    assert Good(c, hc, m, path == []);
    ZipGood(path, c, hc, m, true);
  }

  lemma LeafRemoveOrder(e0: seq<Entry>, key: int, target: int, res: Option<int>, path: seq<Frame>,
                        cur: Node, i: nat)
    requires DelOrder(e0, key, target, res, path, cur) && cur.leaf
    requires i < |cur.kvs| && cur.kvs[i].key == target
    ensures Inorder(Zip(path, Node(true, cur.kvs[..i] + cur.kvs[i + 1..], []))) == RemoveKey(e0, key)
    ensures Sorted(RemoveKey(e0, key))
    ensures key in ToMap(e0)
    ensures ToMap(e0)[key] == if res.Some? then res.value else cur.kvs[i].value
  {
    var c := Node(true, cur.kvs[..i] + cur.kvs[i + 1..], []);
    ZipInorder(path, c);
    RemoveKeyAt(cur.kvs, i);
    RemoveKeySorted(e0, key);
    if res.None? {
      assert cur.kvs == cur.kvs[..i] + [cur.kvs[i]] + cur.kvs[i + 1..];
      ValueInContext(CtxL(path), cur.kvs[..i], cur.kvs[i], cur.kvs[i + 1..], CtxR(path));
    }
  }

  /** The target not in the leaf reached: the key was in no node, and the tree,
      with whatever rearranging happened on the way, lists the same entries. */
  lemma LeafMiss(e0: seq<Entry>, key: int, target: int, res: Option<int>, path: seq<Frame>,
                 cur: Node, hc: nat, m: nat, i: nat)
    requires var ok := DelState(e0, key, target, res, path, cur, hc, m); ok && cur.leaf
    requires Slot(cur.kvs, target, i) && !(i < |cur.kvs| && cur.kvs[i].key == target)
    ensures PathOk(path)
    ensures Tree(Zip(path, cur), hc + |path|, m) && Inorder(Zip(path, cur)) == e0
    ensures key !in ToMap(e0)
  {
    ZipGood(path, cur, hc, m, true);
    LeafMissOrder(e0, key, target, res, path, cur, i);
  }

  lemma LeafMissOrder(e0: seq<Entry>, key: int, target: int, res: Option<int>, path: seq<Frame>,
                      cur: Node, i: nat)
    requires DelOrder(e0, key, target, res, path, cur) && cur.leaf
    requires Slot(cur.kvs, target, i) && !(i < |cur.kvs| && cur.kvs[i].key == target)
    ensures Inorder(Zip(path, cur)) == e0
    ensures key !in ToMap(e0)
  {
    ZipInorder(path, cur);
    assert Sorted(cur.kvs);
    assert target !in KeySet(cur.kvs) by {
      assert forall k :: 0 <= k < i ==> cur.kvs[k].key < target;
      assert forall k :: i <= k < |cur.kvs| ==> target < cur.kvs[k].key;
    }
    assert res.None?;
    KeySetConcat(CtxL(path), cur.kvs);
    KeySetConcat(CtxL(path) + cur.kvs, CtxR(path));
    ToMapKeys(e0);
  }
}
