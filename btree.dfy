/** The B-tree of src/btree.c: a map from integer keys to integer values kept
    in nodes of one block each. The tree object holds the order M derived from
    the block size, the root node, the number of entries (`count`), and, for
    the proofs, the height of the tree.

    Several contracts below bind a tree or descent-state predicate as
    `var ok := P(..); ok` instead of writing `P(..)`. The binding keeps the
    verifier from unfolding P into its conjuncts at every use, which keeps
    the proof obligations small; it means the same as `P(..)`. */
module BTrees {
  import opened Entries
  import opened Nodes
  import opened Restructure
  import opened Zipper
  import opened KeySearch
  import opened Create
  import opened InsertSteps
  import opened DeleteSteps

  class BTree {
    /** M(block_size): the most entries a node holds; a block has M + 1 slots. */
    const M: nat
    var root: Node
    var count: nat
    ghost var height: nat

    /** The tree invariant: a valid order, every node within bounds with all
        leaves at one depth, the entries in strictly increasing key order, and
        count the number of entries. */
    ghost predicate Valid()
      reads this
    {
      2 < M < 0x8000_0000 && count == |Inorder(root)| && var ok := Tree(root, height, M); ok
    }

    /** The map the tree stands for. */
    ghost function Contents(): map<int, int>
      reads this
    {
      ToMap(Inorder(root))
    }

    /** The state btree_create leaves: no entries and the root an empty leaf. */
    constructor (m: nat)
      requires 2 < m < 0x8000_0000
      ensures Valid() && M == m && root == Node(true, [], [])
      ensures count == 0 && Contents() == map[]
    {
      M := m;
      root := Node(true, [], []);
      count := 0;
      height := 0;
    }

    /** btree_create (src/btree.c:43-66): -1 when the block size is refused,
        otherwise 0 and an empty tree of order M(block_size). */
    static method New(blockSize: nat, nodeSize: nat, entrySize: nat) returns (status: int, t: BTree?)
      requires blockSize < SizeLimit && 0 < entrySize
      ensures status == 0 <==> CheckBlockSize(blockSize, nodeSize, entrySize).Order?
      ensures status == 0 || status == -1
      ensures status == -1 ==> t == null
      ensures status == 0 ==> && t != null && fresh(t) && t.Valid()
                              && t.M == CheckBlockSize(blockSize, nodeSize, entrySize).m
                              && t.count == 0 && t.Contents() == map[]
    {
      var checked := CheckBlockSize(blockSize, nodeSize, entrySize);
      if checked.Rejected? {
        return -1, null;
      }
      t := new BTree(checked.m);
      status := 0;
    }

    /** btree_count (src/btree.c:349-351): the number of keys in the tree. */
    function Count(): (r: nat)
      reads this
      requires Valid()
      ensures r == |Contents()|
    {
      ToMapSize(Inorder(root));
      count
    }

    /** btree_search (src/btree.c:310-325): 1 and the value when key is in the
        tree, 0 when it is not. */
    method Search(key: int) returns (found: int, value: int)
      requires Valid()
      ensures found == (if key in Contents() then 1 else 0)
      ensures found == 1 ==> value == Contents()[key]
    {
      ghost var e0 := Inorder(root);
      ghost var path: seq<Frame> := [];
      ghost var hc: nat := height;
      var node := root;
      Start(root, key, height, M);
      while true
        invariant Descent(e0, key, path, node, hc, M)
        decreases hc
      {
        var i := KeyBinarySearch(node.kvs, key);
        if i < |node.kvs| && node.kvs[i].key == key {
          SearchHit(e0, key, path, node, hc, M, i);
          return 1, node.kvs[i].value;
        }
        if node.leaf {
          SearchMiss(e0, key, path, node, hc, M, i);
          return 0, 0;
        }
        Descend(e0, key, path, node, hc, M, i);
        path := path + [Frame(node, i)];
        node := node.children[i];
        hc := hc - 1;
      }
    }

    /** btree_insert (src/btree.c:110-169). With the key present: 1 after
        overwriting its value when overwrite is set, 0 and the same map
        otherwise; with the key absent: 1, the key mapped to value and one entry
        more. Full nodes on the way down are split first, the root by growing
        the tree one level. */
    method Insert(key: int, value: int, overwrite: bool) returns (r: int)
      requires Valid()
      modifies this
      ensures Valid()
      ensures key in old(Contents()) ==>
                && r == (if overwrite then 1 else 0) && count == old(count)
                && Contents() == (if overwrite then old(Contents())[key := value] else old(Contents()))
      ensures key !in old(Contents()) ==>
                r == 1 && count == old(count) + 1 && Contents() == old(Contents())[key := value]
    {
      ghost var e0 := Inorder(root);
      if |root.kvs| >= M - 1 {
        Grow();
      }
      var path: seq<Frame> := [];
      var cur := root;
      ghost var hc: nat := height;
      Start(root, key, height, M);
      while !cur.leaf
        invariant var ok := Descent(e0, key, path, cur, hc, M); ok && |cur.kvs| < M - 1
        invariant hc + |path| == height && count == |e0| && e0 == old(Inorder(root))
        decreases hc
      {
        var found, n, i := InsertStep(e0, key, path, cur, hc, M);
        if found {
          r := Found(e0, key, value, overwrite, path, n, hc, i);
          return;
        }
        Descend(e0, key, path, n, hc, M, i);
        path, cur, hc := path + [Frame(n, i)], n.children[i], hc - 1;
      }
      r := InsertLeaf(e0, key, value, overwrite, path, cur, hc);
    }

    /** Root growth (src/btree.c:115-122): a root with M - 1 entries or more
        goes below a new root, and is split there; the tree is one level
        higher and holds the same entries. */
    method Grow()
      requires Valid() && M - 1 <= |root.kvs|
      modifies this
      ensures Valid() && Inorder(root) == old(Inorder(root)) && count == old(count)
      ensures height == old(height) + 1 && |root.kvs| == 1 && |root.children| == 2
    {
      GrowRoot(root, height, M);
      root := SplitChild(Node(false, [], [root]), 0, M);
      height := height + 1;
    }

    /** The leaf reached by an insertion (src/btree.c:151-168): the key found
        there is handled as in an internal node, an absent key goes into the
        slot the search gives, and the tree has one entry more. */
    method InsertLeaf(ghost e0: seq<Entry>, key: int, value: int, overwrite: bool,
                      path: seq<Frame>, cur: Node, ghost hc: nat) returns (r: int)
      requires Descent(e0, key, path, cur, hc, M) && cur.leaf && |cur.kvs| < M - 1
      requires hc + |path| == height && count == |e0| && 2 < M < 0x8000_0000
      modifies this
      ensures Valid() && count == old(count) + (if key in ToMap(e0) then 0 else 1)
      ensures key in ToMap(e0) ==> r == (if overwrite then 1 else 0)
      ensures key in ToMap(e0) ==> Contents() == if overwrite then ToMap(e0)[key := value] else ToMap(e0)
      ensures key !in ToMap(e0) ==> r == 1 && Contents() == ToMap(e0)[key := value]
    {
      var i := KeyBinarySearch(cur.kvs, key);
      if i < |cur.kvs| && cur.kvs[i].key == key {
        r := Found(e0, key, value, overwrite, path, cur, hc, i);
        return;
      }
      LeafInsert(e0, key, value, path, cur, hc, M, i);
      root := Zip(path, Node(true, cur.kvs[..i] + [Entry(key, value)] + cur.kvs[i..], []));
      count := count + 1;
      r := 1;
    }

    /** The key found at slot i of cur during an insertion: the value is
        overwritten when overwrite is set, and the tree is put back together. */
    method Found(ghost e0: seq<Entry>, key: int, value: int, overwrite: bool,
                 path: seq<Frame>, cur: Node, ghost hc: nat, i: nat) returns (r: int)
      requires Descent(e0, key, path, cur, hc, M) && i < |cur.kvs| && cur.kvs[i].key == key
      requires hc + |path| == height && count == |e0| && 2 < M < 0x8000_0000
      modifies this
      ensures Valid() && key in ToMap(e0) && count == old(count) && height == old(height)
      ensures r == (if overwrite then 1 else 0)
      ensures Contents() == if overwrite then ToMap(e0)[key := value] else ToMap(e0)
    {
      if overwrite {
        Overwrite(e0, key, value, path, cur, hc, M, i);
        root := Zip(path, Node(cur.leaf, cur.kvs[i := Entry(key, value)], cur.children));
        r := 1;
      } else {
        Keep(e0, key, path, cur, hc, M, i);
        root := Zip(path, cur);
        r := 0;
      }
    }

    /** btree_delete (src/btree.c:192-308): 1 and the value key had when it was
        in the tree, which then no longer maps it and has one entry fewer; 0
        and the same map when it was not. On the way down every node entered
        is first topped up by a rotation from a rich sibling or a merge with a
        poor one, so that the leaf reached can lose an entry. */
    method Delete(key: int) returns (r: int, value: int)
      requires Valid()
      modifies this
      ensures Valid()
      ensures Contents() == old(Contents()) - {key}
      ensures key in old(Contents()) ==> r == 1 && value == old(Contents())[key] && count == old(count) - 1
      ensures key !in old(Contents()) ==> r == 0 && count == old(count)
    {
      ghost var e0 := Inorder(root);
      ghost var hc: nat := height;
      var path: seq<Frame> := [];
      var cur := root;
      var target := key;
      var res: Option<int> := None;
      DelStart(root, key, height, M);
      while !cur.leaf
        invariant var ok := DelState(e0, key, target, res, path, cur, hc, M); ok
        invariant count == |e0| && e0 == old(Inorder(root))
        decreases hc
      {
        var i := KeyBinarySearch(cur.kvs, target);
        if i < |cur.kvs| && cur.kvs[i].key == target {
          target, res, path, cur, hc := DeleteFoundStep(e0, key, target, res, path, cur, hc, M, i);
        } else {
          path, cur, hc := DeleteMissStep(e0, key, target, res, path, cur, hc, M, i);
        }
      }
      r, value := DeleteLeaf(e0, key, target, res, path, cur, hc);
    }

    /** The leaf reached by a deletion (src/btree.c:298-307): the target found
        there is removed, otherwise key was in no node on the way. */
    method DeleteLeaf(ghost e0: seq<Entry>, key: int, target: int, res: Option<int>,
                      path: seq<Frame>, cur: Node, ghost hc: nat) returns (r: int, value: int)
      requires DelState(e0, key, target, res, path, cur, hc, M) && cur.leaf
      requires count == |e0| && 2 < M < 0x8000_0000
      modifies this
      ensures Valid() && Contents() == ToMap(e0) - {key}
      ensures key in ToMap(e0) ==> r == 1 && value == ToMap(e0)[key] && count == old(count) - 1
      ensures key !in ToMap(e0) ==> r == 0 && count == old(count)
    {
      var i := KeyBinarySearch(cur.kvs, target);
      if i < |cur.kvs| && cur.kvs[i].key == target {
        value := RemoveAt(e0, key, target, res, path, cur, hc, i);
        r := 1;
      } else {
        KeepAt(e0, key, target, res, path, cur, hc, i);
        r, value := 0, 0;
      }
    }

    /** The target absent from the leaf: key was in no node, and the tree is
        put back together with the same entries. */
    method KeepAt(ghost e0: seq<Entry>, key: int, target: int, res: Option<int>,
                  path: seq<Frame>, cur: Node, ghost hc: nat, i: nat)
      requires DelState(e0, key, target, res, path, cur, hc, M) && cur.leaf
      requires Slot(cur.kvs, target, i) && !(i < |cur.kvs| && cur.kvs[i].key == target)
      requires count == |e0| && 2 < M < 0x8000_0000
      modifies this
      ensures Valid() && Contents() == ToMap(e0) - {key}
      ensures key !in ToMap(e0) && count == old(count)
    {
      LeafMiss(e0, key, target, res, path, cur, hc, M, i);
      WithoutAbsent(ToMap(e0), key);
      root := Zip(path, cur);
      height := hc + |path|;
    }

    /** The target found at slot i of the leaf: the entry is removed, the tree
        has one entry fewer and no longer maps key, and the value returned is
        the one key had. */
    method RemoveAt(ghost e0: seq<Entry>, key: int, target: int, res: Option<int>,
                    path: seq<Frame>, cur: Node, ghost hc: nat, i: nat) returns (value: int)
      requires DelState(e0, key, target, res, path, cur, hc, M) && cur.leaf
      requires i < |cur.kvs| && cur.kvs[i].key == target
      requires count == |e0| && 2 < M < 0x8000_0000
      modifies this
      ensures Valid() && Contents() == ToMap(e0) - {key}
      ensures key in ToMap(e0) && value == ToMap(e0)[key] && count == old(count) - 1
    {
      LeafRemove(e0, key, target, res, path, cur, hc, M, i);
      value := if res.Some? then res.value else cur.kvs[i].value;
      root := Zip(path, Node(true, cur.kvs[..i] + cur.kvs[i + 1..], []));
      height := hc + |path|;
      ToMapRemoveKey(e0, key);
      ToMapKeys(e0);
      RemoveKeySize(e0, key);
      count := count - 1;
    }
  }

  /** One pass of the loop of btree_insert through an internal node
      (src/btree.c:126-149): the key is found at slot i of the node, or the
      child it routes to is split first when it holds m - 1 entries or more,
      and the key is compared with the median that comes up into the node,
      which it may equal. Otherwise i is the child to enter, which has room. */
  method InsertStep(ghost e0: seq<Entry>, key: int, path: seq<Frame>, cur: Node, ghost hc: nat, m: nat)
    returns (found: bool, cur': Node, i: nat)
    requires Descent(e0, key, path, cur, hc, m) && !cur.leaf && |cur.kvs| < m - 1
    ensures var ok := Descent(e0, key, path, cur', hc, m); ok && !cur'.leaf && Shaped(cur')
    ensures found ==> i < |cur'.kvs| && cur'.kvs[i].key == key
    ensures !found ==> && i < |cur'.children| && |cur'.children[i].kvs| < m - 1
                       && (0 < i ==> cur'.kvs[i - 1].key < key)
                       && (i < |cur'.kvs| ==> key < cur'.kvs[i].key)
  {
    i := KeyBinarySearch(cur.kvs, key);
    cur' := cur;
    assert Shaped(cur);
    if i < |cur.kvs| && cur.kvs[i].key == key {
      return true, cur, i;
    }
    found := false;
    if |cur.children[i].kvs| >= m - 1 {
      found, cur', i := SplitDown(e0, key, path, cur, hc, m, i);
    } else {
      GoodChildBelow(cur, i, hc, m, path == []);
    }
  }

  /** btree_split_child of the full child i the key routes to, and the
      comparison of the key with the median that comes up into slot i
      (src/btree.c:135-147). */
  method SplitDown(ghost e0: seq<Entry>, key: int, path: seq<Frame>, cur: Node, ghost hc: nat, m: nat, i: nat)
    returns (found: bool, cur': Node, i': nat)
    requires Descent(e0, key, path, cur, hc, m) && !cur.leaf && |cur.kvs| < m - 1
    requires i < |cur.children| && m - 1 <= |cur.children[i].kvs|
    requires 0 < i ==> cur.kvs[i - 1].key < key
    requires i < |cur.kvs| ==> key < cur.kvs[i].key
    ensures var ok := Descent(e0, key, path, cur', hc, m); ok && !cur'.leaf && Shaped(cur')
    ensures found ==> i' < |cur'.kvs| && cur'.kvs[i'].key == key
    ensures !found ==> && i' < |cur'.children| && |cur'.children[i'].kvs| < m - 1
                       && (0 < i' ==> cur'.kvs[i' - 1].key < key)
                       && (i' < |cur'.kvs| ==> key < cur'.kvs[i'].key)
  {
    SplitStep(e0, key, path, cur, hc, m, i);
    cur' := SplitChild(cur, i, m);
    found, i' := false, i;
    if key == cur'.kvs[i].key {
      found := true;
    } else if key > cur'.kvs[i].key {
      i' := i + 1;
    }
  }

  lemma GoodChildBelow(n: Node, i: nat, h: nat, m: nat, root: bool)
    requires Good(n, h, m, root) && !n.leaf && i < |n.children|
    ensures Good(n.children[i], h - 1, m, false)
  {
  }

  /** One pass of the loop of btree_delete through an internal node holding
      the target at slot i (src/btree.c:200-243): the target moves down into a
      child that can lose an entry, by a rotation from the richer side, by a
      merge of the two poor children around it, or, when both children are
      full, by its replacement with its predecessor. */
  method DeleteFoundStep(ghost e0: seq<Entry>, key: int, target: int, res: Option<int>,
                         path: seq<Frame>, cur: Node, ghost hc: nat, m: nat, i: nat)
    returns (target': int, res': Option<int>, path': seq<Frame>, cur': Node, ghost hc': nat)
    requires var ok := DelState(e0, key, target, res, path, cur, hc, m); ok && !cur.leaf
    requires Slot(cur.kvs, target, i) && i < |cur.kvs| && cur.kvs[i].key == target
    ensures var ok := DelState(e0, key, target', res', path', cur', hc', m); ok && hc' < hc
  {
    assert Shaped(cur);
    var x, y := cur.children[i], cur.children[i + 1];
    target', res', hc' := target, res, hc - 1;
    if |x.kvs| > Ceil(m) && |y.kvs| < m {
      path', cur' := RotateRightDown(e0, key, target, res, path, cur, hc, m, i, i);
    } else if |y.kvs| > Ceil(m) && |x.kvs| < m {
      path', cur' := RotateLeftDown(e0, key, target, res, path, cur, hc, m, i);
    } else if |x.kvs| <= Ceil(m) && |y.kvs| <= Ceil(m) {
      path', cur' := MergeDown(e0, key, target, res, path, cur, hc, m, i, i);
    } else {
      target', res', path', cur' := ReplaceDown(e0, key, target, res, path, cur, hc, m, i);
    }
  }

  /** One pass of the loop of btree_delete through an internal node whose
      child i the target routes to (src/btree.c:245-295): a rich child is
      entered as it is, a poor one is filled first. */
  method DeleteMissStep(ghost e0: seq<Entry>, key: int, target: int, res: Option<int>,
                        path: seq<Frame>, cur: Node, ghost hc: nat, m: nat, i: nat)
    returns (path': seq<Frame>, cur': Node, ghost hc': nat)
    requires var ok := DelState(e0, key, target, res, path, cur, hc, m); ok && !cur.leaf
    requires Slot(cur.kvs, target, i) && !(i < |cur.kvs| && cur.kvs[i].key == target)
    ensures var ok := DelState(e0, key, target, res, path', cur', hc', m); ok && hc' < hc
  {
    DelInternal(e0, key, target, res, path, cur, hc, m);
    hc' := hc - 1;
    if |cur.children[i].kvs| <= Ceil(m) {
      path', cur' := FillDown(e0, key, target, res, path, cur, hc, m, i);
    } else {
      StepDown(e0, key, target, res, path, cur, hc, m, i);
      path', cur' := path + [Frame(cur, i)], cur.children[i];
    }
  }

  /** The child i the target routes to is poor (src/btree.c:248-294): it
      borrows from its right sibling when that one is rich and richer than the
      left one, else from a rich left sibling, else merges with its left
      sibling, or its right one when it has none, and the descent enters the
      child that then holds the target's range. */
  method FillDown(ghost e0: seq<Entry>, key: int, target: int, res: Option<int>,
                  path: seq<Frame>, cur: Node, ghost hc: nat, m: nat, i: nat)
    returns (path': seq<Frame>, cur': Node)
    requires var ok := DelState(e0, key, target, res, path, cur, hc, m); ok && !cur.leaf
    requires Slot(cur.kvs, target, i) && !(i < |cur.kvs| && cur.kvs[i].key == target)
    requires Shaped(cur) && 1 <= |cur.kvs| && |cur.children[i].kvs| <= Ceil(m)
    ensures var ok := DelState(e0, key, target, res, path', cur', hc - 1, m); ok && 1 <= hc
  {
    var hasLeft, hasRight := 0 < i, i < |cur.kvs|;
    var richR := hasRight && (!hasLeft || |cur.children[i + 1].kvs| > |cur.children[i - 1].kvs|);
    if hasRight && |cur.children[i + 1].kvs| > Ceil(m) && richR {
      path', cur' := RotateLeftDown(e0, key, target, res, path, cur, hc, m, i);
    } else if hasLeft && |cur.children[i - 1].kvs| > Ceil(m) {
      path', cur' := RotateRightDown(e0, key, target, res, path, cur, hc, m, i, i - 1);
    } else {
      var j := if hasLeft then i - 1 else i;
      path', cur' := MergeDown(e0, key, target, res, path, cur, hc, m, i, j);
    }
  }

  /** The right rotation through separator j, and the step into child j + 1
      that received the separator: the found key moving down (j == i), or the
      borrow of child i == j + 1 from its left sibling. */
  method RotateRightDown(ghost e0: seq<Entry>, key: int, target: int, res: Option<int>,
                         path: seq<Frame>, cur: Node, ghost hc: nat, m: nat, i: nat, j: nat)
    returns (path': seq<Frame>, cur': Node)
    requires var ok := DelState(e0, key, target, res, path, cur, hc, m); ok && !cur.leaf
    requires Slot(cur.kvs, target, i)
    requires (j == i && i < |cur.kvs| && cur.kvs[i].key == target)
          || (j + 1 == i && !(i < |cur.kvs| && cur.kvs[i].key == target))
    requires j < |cur.kvs|
    requires Ceil(m) < |cur.children[j].kvs| && |cur.children[j + 1].kvs| < m
    ensures 1 <= hc && DelState(e0, key, target, res, path', cur', hc - 1, m)
  {
    StepRotateRight(e0, key, target, res, path, cur, hc, m, i, j);
    var n := RotateRight(cur, j);
    path', cur' := path + [Frame(n, j + 1)], n.children[j + 1];
  }

  /** The left rotation through separator i, and the step into child i that
      received the separator: the found key moving down, or the borrow of
      child i from its right sibling. */
  method RotateLeftDown(ghost e0: seq<Entry>, key: int, target: int, res: Option<int>,
                        path: seq<Frame>, cur: Node, ghost hc: nat, m: nat, i: nat)
    returns (path': seq<Frame>, cur': Node)
    requires var ok := DelState(e0, key, target, res, path, cur, hc, m); ok && !cur.leaf
    requires Slot(cur.kvs, target, i) && i < |cur.kvs|
    requires Ceil(m) < |cur.children[i + 1].kvs| && |cur.children[i].kvs| < m
    ensures 1 <= hc && DelState(e0, key, target, res, path', cur', hc - 1, m)
  {
    StepRotateLeft(e0, key, target, res, path, cur, hc, m, i);
    var n := RotateLeft(cur, i);
    path', cur' := path + [Frame(n, i)], n.children[i];
  }

  /** btree_merge of children j and j + 1 and the step into the merged child;
      when the root loses its only entry the merged child becomes the root. */
  method MergeDown(ghost e0: seq<Entry>, key: int, target: int, res: Option<int>,
                   path: seq<Frame>, cur: Node, ghost hc: nat, m: nat, i: nat, j: nat)
    returns (path': seq<Frame>, cur': Node)
    requires var ok := DelState(e0, key, target, res, path, cur, hc, m); ok && !cur.leaf
    requires Slot(cur.kvs, target, i)
    requires j == i || (j + 1 == i && !(i < |cur.kvs| && cur.kvs[i].key == target))
    requires j < |cur.kvs|
    requires |cur.children[j].kvs| <= Ceil(m) && |cur.children[j + 1].kvs| <= Ceil(m)
    ensures 1 <= hc && DelState(e0, key, target, res, path', cur', hc - 1, m)
  {
    if Collapses(path, cur) {
      StepCollapse(e0, key, target, res, cur, hc, m);
      path', cur' := path, Merge(cur, 0).children[0];
    } else {
      StepMerge(e0, key, target, res, path, cur, hc, m, i, j);
      var n := Merge(cur, j);
      path', cur' := path + [Frame(n, j)], n.children[j];
    }
  }

  /** Both children around the found key full: the key's slot takes its
      predecessor, the last entry of the left child, and the deletion goes on
      for the predecessor in that child, keeping the value the key had. */
  method ReplaceDown(ghost e0: seq<Entry>, key: int, target: int, res: Option<int>,
                     path: seq<Frame>, cur: Node, ghost hc: nat, m: nat, i: nat)
    returns (target': int, res': Option<int>, path': seq<Frame>, cur': Node)
    requires var ok := DelState(e0, key, target, res, path, cur, hc, m); ok && !cur.leaf
    requires i < |cur.kvs| && cur.kvs[i].key == target
    requires MinOcc(m) < |cur.children[i].kvs|
    ensures 1 <= hc && DelState(e0, key, target', res', path', cur', hc - 1, m)
  {
    StepPredecessor(e0, key, target, res, path, cur, hc, m, i);
    var xs := Inorder(cur.children[i]);
    var p := xs[|xs| - 1];
    res' := if res.None? then Some(cur.kvs[i].value) else res;
    var n := Node(false, cur.kvs[i := p], cur.children);
    target', path', cur' := p.key, path + [Frame(n, i)], cur.children[i];
  }

  /** The merge of the only two children of the root makes the merged child
      the new root. */
  function Collapses(path: seq<Frame>, cur: Node): bool
  {
    path == [] && |cur.kvs| == 1
  }

  /** A key found at slot i on the way down is mapped to the entry's value. */
  lemma SearchHit(e0: seq<Entry>, key: int, path: seq<Frame>, cur: Node, hc: nat, m: nat, i: nat)
    requires Descent(e0, key, path, cur, hc, m) && i < |cur.kvs| && cur.kvs[i].key == key
    ensures key in ToMap(e0) && ToMap(e0)[key] == cur.kvs[i].value
  {
    EntryAt(cur, i);
    ValueInContext(CtxL(path), Before(cur, i), cur.kvs[i], After(cur, i), CtxR(path));
  }

  /** A key not in the leaf its search reaches is not in the tree. */
  lemma SearchMiss(e0: seq<Entry>, key: int, path: seq<Frame>, cur: Node, hc: nat, m: nat, i: nat)
    requires Descent(e0, key, path, cur, hc, m) && cur.leaf && i <= |cur.kvs|
    requires 0 < i ==> cur.kvs[i - 1].key < key
    requires i < |cur.kvs| ==> key <= cur.kvs[i].key
    requires !(i < |cur.kvs| && cur.kvs[i].key == key)
    ensures key !in ToMap(e0)
  {
    assert Sorted(cur.kvs) by {
      SortedParts(CtxL(path), cur.kvs, CtxR(path));
    }
    LowerBoundFinds(cur.kvs, key, i);
    BoundNotIn(CtxL(path), key);
    BoundNotIn(CtxR(path), key);
    KeySetConcat(CtxL(path), cur.kvs);
    KeySetConcat(CtxL(path) + cur.kvs, CtxR(path));
    ToMapKeys(e0);
  }
}
