/** The descent from the root that btree_insert and btree_delete make, one
    child pointer at a time, as a path of frames: each frame is a node passed
    through and the slot of the child taken. The source changes the nodes on
    the way in place; here the changed node at the bottom of the path is put
    back into its ancestors with Zip. */
module Zipper {
  import opened Entries
  import opened Nodes
  import opened Occupancy

  datatype Frame = Frame(node: Node, idx: nat)

  ghost predicate FrameOk(f: Frame)
  {
    !f.node.leaf && Shaped(f.node) && f.idx < |f.node.children|
  }

  ghost predicate PathOk(path: seq<Frame>)
  {
    forall k :: 0 <= k < |path| ==> FrameOk(path[k])
  }

  /** The frame's node with c in the slot the descent took. */
  function Plug(f: Frame, c: Node): (r: Node)
    requires FrameOk(f)
    ensures !r.leaf && Shaped(r) && r.kvs == f.node.kvs && r.children[f.idx] == c
  {
    Node(false, f.node.kvs, f.node.children[f.idx := c])
  }

  /** The whole tree, with c in place of the node the path leads to. */
  function Zip(path: seq<Frame>, c: Node): Node
    requires PathOk(path)
    decreases |path|
  {
    if |path| == 0 then c
    else
      assert forall k :: 0 <= k < |path| - 1 ==> path[1..][k] == path[k + 1];
      Plug(path[0], Zip(path[1..], c))
  }

  /** The entries of the tree before the node the path leads to. */
  ghost function CtxL(path: seq<Frame>): seq<Entry>
    requires PathOk(path)
    decreases |path|
  {
    if |path| == 0 then []
    else
      assert forall k :: 0 <= k < |path| - 1 ==> path[1..][k] == path[k + 1];
      Left(path[0].node, path[0].idx) + CtxL(path[1..])
  }

  /** The entries of the tree after the node the path leads to. */
  ghost function CtxR(path: seq<Frame>): seq<Entry>
    requires PathOk(path)
    decreases |path|
  {
    if |path| == 0 then []
    else
      assert forall k :: 0 <= k < |path| - 1 ==> path[1..][k] == path[k + 1];
      CtxR(path[1..]) + Right(path[0].node, path[0].idx)
  }

  lemma PlugInorder(f: Frame, c: Node)
    requires FrameOk(f)
    ensures Inorder(Plug(f, c)) == Left(f.node, f.idx) + Inorder(c) + Right(f.node, f.idx)
  {
    var r := Plug(f, c);
    InorderAt(r, f.idx);
    assert r.children[..f.idx] == f.node.children[..f.idx];
    LeftSame(f.node, r, f.idx);
    assert r.children[f.idx + 1..] == f.node.children[f.idx + 1..];
    RightSame(f.node, f.idx, r, f.idx);
  }

  /** The tree lists the entries before the path's node, the node's own, and
      those after it. */
  lemma {:induction false} ZipInorder(path: seq<Frame>, c: Node)
    requires PathOk(path)
    ensures Inorder(Zip(path, c)) == CtxL(path) + Inorder(c) + CtxR(path)
    decreases |path|
  {
    if |path| > 0 {
      var tail := path[1..];
      assert forall k :: 0 <= k < |tail| ==> tail[k] == path[k + 1];
      ZipInorder(tail, c);
      PlugInorder(path[0], Zip(tail, c));
      Reassociate(Left(path[0].node, path[0].idx), CtxL(tail), Inorder(c), CtxR(tail),
                  Right(path[0].node, path[0].idx));
    }
  }

  lemma PathExtend(path: seq<Frame>, f: Frame)
    requires PathOk(path) && FrameOk(f)
    ensures PathOk(path + [f])
    ensures |path| > 0 ==> (path + [f])[0] == path[0] && (path + [f])[1..] == path[1..] + [f]
    ensures |path| > 0 ==> PathOk(path[1..])
  {
    var p := path + [f];
    assert forall k :: 0 <= k < |p| ==> p[k] == if k < |path| then path[k] else f;
    if |path| > 0 {
      assert p[1..] == path[1..] + [f];
      assert forall k :: 0 <= k < |path| - 1 ==> path[1..][k] == path[k + 1];
    }
  }

  /** One more step down: the path grows by the frame just passed. */
  lemma {:induction false} ZipExtend(path: seq<Frame>, f: Frame, c: Node)
    requires PathOk(path) && FrameOk(f)
    ensures PathOk(path + [f])
    ensures Zip(path + [f], c) == Zip(path, Plug(f, c))
    decreases |path|
  {
    PathExtend(path, f);
    if |path| > 0 {
      ZipExtend(path[1..], f, c);
    } else {
      assert (path + [f])[1..] == [];
    }
  }

  lemma {:induction false} CtxExtend(path: seq<Frame>, f: Frame)
    requires PathOk(path) && FrameOk(f)
    ensures PathOk(path + [f])
    ensures CtxL(path + [f]) == CtxL(path) + Left(f.node, f.idx)
    ensures CtxR(path + [f]) == Right(f.node, f.idx) + CtxR(path)
    decreases |path|
  {
    PathExtend(path, f);
    if |path| > 0 {
      CtxExtend(path[1..], f);
    } else {
      assert (path + [f])[1..] == [];
    }
  }

  // ---------------------------------------------------------------------------
  // Occupancy along the path

  /** A frame whose node, with a good subtree of height h - 1 in the slot
      taken, is a good node of height h. */
  ghost predicate FrameGood(f: Frame, h: nat, m: nat, root: bool)
  {
    && FrameOk(f) && 1 <= h && |f.node.kvs| <= m
    && (if root then 1 <= |f.node.kvs| else MinOcc(m) <= |f.node.kvs|)
    && forall k :: 0 <= k < |f.node.children| && k != f.idx ==> Good(f.node.children[k], h - 1, m, false)
  }

  /** Every frame of the path is good at its height, for a node of height h
      at the bottom; only the first frame is the root. */
  ghost predicate CtxGood(path: seq<Frame>, h: nat, m: nat, root: bool)
    decreases |path|
  {
    |path| == 0 || (FrameGood(path[0], h + |path|, m, root) && CtxGood(path[1..], h, m, false))
  }

  lemma {:induction false} CtxGoodPath(path: seq<Frame>, h: nat, m: nat, root: bool)
    requires CtxGood(path, h, m, root)
    ensures PathOk(path)
    decreases |path|
  {
    if |path| > 0 {
      CtxGoodPath(path[1..], h, m, false);
      assert forall k :: 0 < k < |path| ==> path[k] == path[1..][k - 1];
    }
  }

  lemma FrameOfGood(n: Node, k: nat, h: nat, m: nat, root: bool)
    requires Good(n, h, m, root) && !n.leaf && k < |n.children|
    ensures FrameGood(Frame(n, k), h, m, root) && Good(n.children[k], h - 1, m, false)
  {
  }

  lemma PlugGood(f: Frame, c: Node, h: nat, m: nat, root: bool)
    requires FrameGood(f, h, m, root) && Good(c, h - 1, m, false)
    ensures Good(Plug(f, c), h, m, root)
  {
    var r := Plug(f, c);
    forall k | 0 <= k < |r.children| ensures Good(r.children[k], h - 1, m, false) {
      if k != f.idx {
        assert r.children[k] == f.node.children[k];
      }
    }
  }

  /** Putting a good node back along a good path gives a good tree. */
  lemma {:induction false} ZipGood(path: seq<Frame>, c: Node, h: nat, m: nat, root: bool)
    requires CtxGood(path, h, m, root) && Good(c, h, m, root && path == [])
    requires path != [] ==> Good(c, h, m, false)
    ensures PathOk(path) && Good(Zip(path, c), h + |path|, m, root)
    decreases |path|
  {
    CtxGoodPath(path, h, m, root);
    if |path| > 0 {
      var tail := path[1..];
      assert forall k :: 0 <= k < |tail| ==> tail[k] == path[k + 1];
      ZipGood(tail, c, h, m, false);
      PlugGood(path[0], Zip(tail, c), h + |path|, m, root);
    }
  }

  /** One more step down keeps the path good. */
  lemma {:induction false} CtxGoodExtend(path: seq<Frame>, f: Frame, h: nat, m: nat, root: bool)
    requires CtxGood(path, h + 1, m, root) && FrameGood(f, h + 1, m, root && path == [])
    ensures CtxGood(path + [f], h, m, root)
    decreases |path|
  {
    var p := path + [f];
    if |path| > 0 {
      var tail := path[1..];
      assert p[1..] == tail + [f];
      assert p[0] == path[0];
      CtxGoodExtend(tail, f, h, m, false);
    } else {
      assert p[1..] == [];
    }
  }
}
