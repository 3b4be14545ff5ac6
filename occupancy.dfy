/** The occupancy invariant under the restructurings: a split, a rotation and
    a merge each leave every node of the subtree within its bounds (at most m
    entries, at least MinOcc(m) below the root, all leaves at one depth),
    under the conditions the source checks before it performs them. */
module Occupancy {
  import opened Entries
  import opened Nodes
  import opened Restructure

  /** Every node of cs is a non-root subtree of height h. */
  ghost predicate AllGood(cs: seq<Node>, h: nat, m: nat)
  {
    forall j :: 0 <= j < |cs| ==> Good(cs[j], h, m, false)
  }

  lemma GoodChildren(n: Node, h: nat, m: nat, root: bool)
    requires Good(n, h, m, root) && !n.leaf
    ensures h >= 1 && AllGood(n.children, h - 1, m)
  {
  }

  /** A non-root subtree that is a leaf or holds an entry may serve as the root. */
  lemma GoodAsRoot(n: Node, h: nat, m: nat)
    requires Good(n, h, m, false) && (n.leaf || 1 <= |n.kvs|)
    ensures Good(n, h, m, true)
  {
  }

  /** A root holding at least MinOcc(m) entries may hang below a new root. */
  lemma GoodNotRoot(n: Node, h: nat, m: nat)
    requires Good(n, h, m, true) && MinOcc(m) <= |n.kvs|
    ensures Good(n, h, m, false)
  {
  }

  /** A run of entries a..b of a node, with the children around them, is a
      node of the same height if it holds at least MinOcc(m) entries. */
  lemma SliceGood(x: Node, a: nat, b: nat, h: nat, m: nat)
    requires Good(x, h, m, false) && a <= b <= |x.kvs| && MinOcc(m) <= b - a
    ensures Good(Node(x.leaf, x.kvs[a..b], if x.leaf then [] else x.children[a..b + 1]), h, m, false)
  {
    if !x.leaf {
      var cs := x.children[a..b + 1];
      forall k | 0 <= k < |cs| ensures Good(cs[k], h - 1, m, false) {
        assert cs[k] == x.children[a + k];
      }
    }
  }

  /** Overwriting one entry keeps every bound. */
  lemma SetEntryGood(n: Node, i: nat, e: Entry, h: nat, m: nat, root: bool)
    requires Good(n, h, m, root) && i < |n.kvs|
    ensures Good(Node(n.leaf, n.kvs[i := e], n.children), h, m, root)
  {
    var r := Node(n.leaf, n.kvs[i := e], n.children);
    if !n.leaf {
      assert forall k :: 0 <= k < |r.children| ==> r.children[k] == n.children[k];
    }
  }

  /** A node that differs from a good one only in two adjacent children, both
      good, and in its entries but not their number, is good. */
  lemma ReplaceTwoGood(n: Node, r: Node, j: nat, h: nat, m: nat, root: bool)
    requires Good(n, h, m, root) && !n.leaf && j < |n.kvs|
    requires Good(n.children[j], h - 1, m, false) && Good(n.children[j + 1], h - 1, m, false)
    requires !r.leaf && Shaped(r) && |r.kvs| == |n.kvs|
    requires forall k :: 0 <= k < |n.children| && k != j && k != j + 1 ==> r.children[k] == n.children[k]
    requires Good(r.children[j], h - 1, m, false) && Good(r.children[j + 1], h - 1, m, false)
    ensures Good(r, h, m, root)
  {
    forall k | 0 <= k < |r.children| ensures Good(r.children[k], h - 1, m, false) {
      if k != j && k != j + 1 {
        assert r.children[k] == n.children[k];
      }
    }
  }

  /** The node built from x's entries followed by e, with c after x's last child. */
  lemma PushBackGood(x: Node, e: Entry, c: Node, h: nat, m: nat)
    requires Good(x, h, m, false) && |x.kvs| < m
    requires !x.leaf ==> Good(c, h - 1, m, false)
    ensures Good(Node(x.leaf, x.kvs + [e], if x.leaf then [] else x.children + [c]), h, m, false)
  {
    if !x.leaf {
      var cs := x.children + [c];
      forall k | 0 <= k < |cs| ensures Good(cs[k], h - 1, m, false) {
        if k < |x.children| {
          assert cs[k] == x.children[k];
        }
      }
    }
  }

  /** The node built from e followed by y's entries, with c before y's first child. */
  lemma PushFrontGood(e: Entry, y: Node, c: Node, h: nat, m: nat)
    requires Good(y, h, m, false) && |y.kvs| < m
    requires !y.leaf ==> Good(c, h - 1, m, false)
    ensures Good(Node(y.leaf, [e] + y.kvs, if y.leaf then [] else [c] + y.children), h, m, false)
  {
    if !y.leaf {
      var cs := [c] + y.children;
      forall k | 0 <= k < |cs| ensures Good(cs[k], h - 1, m, false) {
        if 0 < k {
          assert cs[k] == y.children[k - 1];
        }
      }
    }
  }

  /** btree_split_child on a child holding at least m - 1 entries, below a
      node with room for one more: every bound holds after it, and both
      halves have fewer than m - 1 entries. */
  lemma SplitChildGood(n: Node, i: nat, h: nat, m: nat, root: bool)
    requires 3 <= m && !n.leaf && Shaped(n) && i < |n.children| && 1 <= h
    requires |n.kvs| < m && (!root ==> MinOcc(m) <= |n.kvs|)
    requires AllGood(n.children, h - 1, m) && m - 1 <= |n.children[i].kvs|
    ensures Good(SplitChild(n, i, m), h, m, root)
    ensures |SplitChild(n, i, m).children[i].kvs| < m - 1
    ensures |SplitChild(n, i, m).children[i + 1].kvs| < m - 1
  {
    var r := SplitChild(n, i, m);
    var x := n.children[i];
    var c := Ceil(m);
    assert x.kvs[..c] == x.kvs[0..c] && x.kvs[c + 1..] == x.kvs[c + 1..|x.kvs|];
    assert !x.leaf ==> x.children[..c + 1] == x.children[0..c + 1];
    assert !x.leaf ==> x.children[c + 1..] == x.children[c + 1..|x.kvs| + 1];
    assert r.children[i] == Node(x.leaf, x.kvs[0..c], if x.leaf then [] else x.children[0..c + 1]);
    assert r.children[i + 1] == Node(x.leaf, x.kvs[c + 1..|x.kvs|], if x.leaf then [] else x.children[c + 1..|x.kvs| + 1]);
    SliceGood(x, 0, c, h - 1, m);
    SliceGood(x, c + 1, |x.kvs|, h - 1, m);
    forall k | 0 <= k < |r.children| ensures Good(r.children[k], h - 1, m, false) {
      if k < i {
        assert r.children[k] == r.children[..i][k];
      } else if i + 1 < k {
        assert r.children[k] == r.children[i + 2..][k - i - 2];
      }
    }
  }

  /** The right rotation through separator j, when child j can spare an entry
      and child j + 1 has room for one, keeps every bound. */
  lemma RotateRightGood(n: Node, j: nat, h: nat, m: nat, root: bool)
    requires Good(n, h, m, root) && !n.leaf && j < |n.kvs|
    requires Good(n.children[j], h - 1, m, false) && Good(n.children[j + 1], h - 1, m, false)
    requires 3 <= m && MinOcc(m) < |n.children[j].kvs| && |n.children[j + 1].kvs| < m
    ensures Good(RotateRight(n, j), h, m, root)
  {
    var r := RotateRight(n, j);
    var x, y := n.children[j], n.children[j + 1];
    var last := |x.kvs| - 1;
    assert x.kvs[..last] == x.kvs[0..last];
    assert !x.leaf ==> x.children[..last + 1] == x.children[0..last + 1];
    assert r.children[j] == Node(x.leaf, x.kvs[0..last], if x.leaf then [] else x.children[0..last + 1]);
    var c := if x.leaf then y else x.children[last + 1];
    assert r.children[j + 1] == Node(y.leaf, [n.kvs[j]] + y.kvs, if y.leaf then [] else [c] + y.children);
    SliceGood(x, 0, last, h - 1, m);
    PushFrontGood(n.kvs[j], y, c, h - 1, m);
    ReplaceTwoGood(n, r, j, h, m, root);
  }

  /** The left rotation through separator j, when child j + 1 can spare an
      entry and child j has room for one, keeps every bound. */
  lemma RotateLeftGood(n: Node, j: nat, h: nat, m: nat, root: bool)
    requires Good(n, h, m, root) && !n.leaf && j < |n.kvs|
    requires Good(n.children[j], h - 1, m, false) && Good(n.children[j + 1], h - 1, m, false)
    requires 3 <= m && MinOcc(m) < |n.children[j + 1].kvs| && |n.children[j].kvs| < m
    ensures Good(RotateLeft(n, j), h, m, root)
  {
    var r := RotateLeft(n, j);
    var x, y := n.children[j], n.children[j + 1];
    var c := if y.leaf then x else y.children[0];
    assert r.children[j] == Node(x.leaf, x.kvs + [n.kvs[j]], if x.leaf then [] else x.children + [c]);
    assert y.kvs[1..] == y.kvs[1..|y.kvs|];
    assert !y.leaf ==> y.children[1..] == y.children[1..|y.kvs| + 1];
    assert r.children[j + 1] == Node(y.leaf, y.kvs[1..|y.kvs|], if y.leaf then [] else y.children[1..|y.kvs| + 1]);
    PushBackGood(x, n.kvs[j], c, h - 1, m);
    SliceGood(y, 1, |y.kvs|, h - 1, m);
    ReplaceTwoGood(n, r, j, h, m, root);
  }

  /** The node btree_merge builds from children j and j + 1 is within bounds
      when the two and their separator fit in m entries. */
  lemma MergedGood(n: Node, j: nat, h: nat, m: nat, root: bool)
    requires Good(n, h, m, root) && !n.leaf && j < |n.kvs|
    requires Good(n.children[j], h - 1, m, false) && Good(n.children[j + 1], h - 1, m, false)
    requires |n.children[j].kvs| + 1 + |n.children[j + 1].kvs| <= m
    ensures Good(Merge(n, j).children[j], h - 1, m, false)
    ensures 1 <= |Merge(n, j).children[j].kvs|
  {
    var x, y := n.children[j], n.children[j + 1];
    var z := Merge(n, j).children[j];
    assert z == Node(x.leaf, x.kvs + [n.kvs[j]] + y.kvs, x.children + y.children);
    if !x.leaf {
      forall k | 0 <= k < |z.children| ensures Good(z.children[k], h - 2, m, false) {
        if k < |x.children| {
          assert z.children[k] == x.children[k];
        } else {
          assert z.children[k] == y.children[k - |x.children|];
        }
      }
    }
  }

  /** btree_merge keeps every bound when the parent can lose a separator: a
      non-root parent has more than MinOcc(m) entries, a root at least two
      (with one, the root is replaced by the merged node instead). */
  lemma MergeGood(n: Node, j: nat, h: nat, m: nat, root: bool)
    requires Good(n, h, m, root) && !n.leaf && j < |n.kvs|
    requires Good(n.children[j], h - 1, m, false) && Good(n.children[j + 1], h - 1, m, false)
    requires |n.children[j].kvs| + 1 + |n.children[j + 1].kvs| <= m
    requires if root then 2 <= |n.kvs| else MinOcc(m) < |n.kvs|
    ensures Good(Merge(n, j), h, m, root)
  {
    var r := Merge(n, j);
    MergedGood(n, j, h, m, root);
    forall k | 0 <= k < |r.children| ensures Good(r.children[k], h - 1, m, false) {
      if k < j {
        assert r.children[k] == r.children[..j][k];
        assert n.children[k] == n.children[..j][k];
      } else if j < k {
        assert r.children[k] == r.children[j + 1..][k - j - 1];
        assert n.children[k + 1] == n.children[j + 2..][k - j - 1];
      }
    }
  }
}
