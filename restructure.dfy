/** The in-place restructurings of the source, one node level at a time: the
    split of a full child (btree_split_child), the two rotations through a
    separator that the deletion uses to top up a child, and the merge of two
    children around their separator (btree_merge). Each keeps the in-order
    sequence of the node it works on, so the stored entries never change. */
module Restructure {
  import opened Entries
  import opened Nodes

  lemma PartsPrefix(cs: seq<Node>, b: nat)
    requires b <= |cs|
    ensures Parts(cs[..b]) == Parts(cs)[..b]
  {
    assert forall k :: 0 <= k < b ==> cs[..b][k] == cs[k];
  }

  lemma PartsSuffix(cs: seq<Node>, a: nat)
    requires a <= |cs|
    ensures Parts(cs[a..]) == Parts(cs)[a..]
  {
    assert forall k :: 0 <= k < |cs| - a ==> cs[a..][k] == cs[a + k];
  }

  lemma PartsConcat(c1: seq<Node>, c2: seq<Node>)
    ensures Parts(c1 + c2) == Parts(c1) + Parts(c2)
  {
    assert forall k :: 0 <= k < |c1| ==> (c1 + c2)[k] == c1[k];
    assert forall k :: |c1| <= k < |c1| + |c2| ==> (c1 + c2)[k] == c2[k - |c1|];
  }

  /** btree_split_child: the full child x at slot i keeps its first Ceil(m)
      entries, a new sibling y takes those after the median, and the median
      moves up into n at position i with x on its left and y on its right. */
  function SplitChild(n: Node, i: nat, m: int): (r: Node)
    requires !n.leaf && Shaped(n) && i < |n.children|
    requires Shaped(n.children[i]) && 0 <= Ceil(m) < |n.children[i].kvs|
    ensures !r.leaf && Shaped(r) && |r.kvs| == |n.kvs| + 1
    ensures r.kvs == n.kvs[..i] + [n.children[i].kvs[Ceil(m)]] + n.kvs[i..]
    ensures r.children[..i] == n.children[..i] && r.children[i + 2..] == n.children[i + 1..]
    ensures Shaped(r.children[i]) && Shaped(r.children[i + 1])
    ensures r.children[i].leaf == n.children[i].leaf && r.children[i + 1].leaf == n.children[i].leaf
    ensures |r.children[i].kvs| == Ceil(m)
    ensures |r.children[i + 1].kvs| == |n.children[i].kvs| - Ceil(m) - 1
  {
    var x := n.children[i];
    var c := Ceil(m);
    var x' := Node(x.leaf, x.kvs[..c], if x.leaf then [] else x.children[..c + 1]);
    var y := Node(x.leaf, x.kvs[c + 1..], if x.leaf then [] else x.children[c + 1..]);
    Node(false, n.kvs[..i] + [x.kvs[c]] + n.kvs[i..], n.children[..i] + [x', y] + n.children[i + 1..])
  }

  /** Moves the last entry of child j up into separator j and the old
      separator down to the front of child j + 1, together with the last child
      link of child j (src/btree.c:205-214 and 274-282). */
  function RotateRight(n: Node, j: nat): (r: Node)
    requires !n.leaf && Shaped(n) && j < |n.kvs|
    requires Shaped(n.children[j]) && Shaped(n.children[j + 1])
    requires n.children[j].leaf == n.children[j + 1].leaf && |n.children[j].kvs| > 0
    ensures !r.leaf && Shaped(r) && |r.kvs| == |n.kvs|
    ensures r.kvs == n.kvs[j := n.children[j].kvs[|n.children[j].kvs| - 1]]
    ensures |r.children| == |n.children|
    ensures forall k :: 0 <= k < |n.children| && k != j && k != j + 1 ==> r.children[k] == n.children[k]
    ensures Shaped(r.children[j]) && Shaped(r.children[j + 1])
    ensures r.children[j].leaf == n.children[j].leaf && r.children[j + 1].leaf == n.children[j].leaf
    ensures |r.children[j].kvs| == |n.children[j].kvs| - 1
    ensures |r.children[j + 1].kvs| == |n.children[j + 1].kvs| + 1
    ensures r.children[j + 1].kvs[0] == n.kvs[j]
  {
    var x, y := n.children[j], n.children[j + 1];
    var last := |x.kvs| - 1;
    var x' := Node(x.leaf, x.kvs[..last], if x.leaf then [] else x.children[..last + 1]);
    var y' := Node(y.leaf, [n.kvs[j]] + y.kvs, if y.leaf then [] else [x.children[last + 1]] + y.children);
    Node(false, n.kvs[j := x.kvs[last]], n.children[j := x'][j + 1 := y'])
  }

  /** Moves the first entry of child j + 1 up into separator j and the old
      separator down to the end of child j, together with the first child link
      of child j + 1 (src/btree.c:221-230 and 264-272). */
  function RotateLeft(n: Node, j: nat): (r: Node)
    requires !n.leaf && Shaped(n) && j < |n.kvs|
    requires Shaped(n.children[j]) && Shaped(n.children[j + 1])
    requires n.children[j].leaf == n.children[j + 1].leaf && |n.children[j + 1].kvs| > 0
    ensures !r.leaf && Shaped(r) && |r.kvs| == |n.kvs|
    ensures r.kvs == n.kvs[j := n.children[j + 1].kvs[0]]
    ensures |r.children| == |n.children|
    ensures forall k :: 0 <= k < |n.children| && k != j && k != j + 1 ==> r.children[k] == n.children[k]
    ensures Shaped(r.children[j]) && Shaped(r.children[j + 1])
    ensures r.children[j].leaf == n.children[j].leaf && r.children[j + 1].leaf == n.children[j].leaf
    ensures |r.children[j].kvs| == |n.children[j].kvs| + 1
    ensures |r.children[j + 1].kvs| == |n.children[j + 1].kvs| - 1
    ensures r.children[j].kvs[|r.children[j].kvs| - 1] == n.kvs[j]
  {
    var x, y := n.children[j], n.children[j + 1];
    var x' := Node(x.leaf, x.kvs + [n.kvs[j]], if x.leaf then [] else x.children + [y.children[0]]);
    var y' := Node(y.leaf, y.kvs[1..], if y.leaf then [] else y.children[1..]);
    Node(false, n.kvs[j := y.kvs[0]], n.children[j := x'][j + 1 := y'])
  }

  /** btree_merge: children j and j + 1 and the separator between them become
      one node (x's entries, the separator, y's entries) in slot j, and n
      loses that separator and the slot of y. */
  function Merge(n: Node, j: nat): (r: Node)
    requires !n.leaf && Shaped(n) && j < |n.kvs|
    requires Shaped(n.children[j]) && Shaped(n.children[j + 1])
    requires n.children[j].leaf == n.children[j + 1].leaf
    ensures !r.leaf && Shaped(r) && |r.kvs| == |n.kvs| - 1
    ensures r.kvs == n.kvs[..j] + n.kvs[j + 1..]
    ensures r.children[..j] == n.children[..j] && r.children[j + 1..] == n.children[j + 2..]
    ensures Shaped(r.children[j]) && r.children[j].leaf == n.children[j].leaf
    ensures r.children[j].kvs == n.children[j].kvs + [n.kvs[j]] + n.children[j + 1].kvs
  {
    var x, y := n.children[j], n.children[j + 1];
    var x' := Node(x.leaf, x.kvs + [n.kvs[j]] + y.kvs, x.children + y.children);
    Node(false, n.kvs[..j] + n.kvs[j + 1..], n.children[..j] + [x'] + n.children[j + 2..])
  }

  // ---------------------------------------------------------------------------
  // The restructurings keep the in-order sequence

  lemma InorderInternal(n: Node)
    requires !n.leaf && Shaped(n)
    ensures Inorder(n) == Weave(n.kvs, Parts(n.children))
  {
  }

  lemma SplitNodeInorder(x: Node, c: nat)
    requires Shaped(x) && c < |x.kvs|
    ensures Inorder(x) == Inorder(Node(x.leaf, x.kvs[..c], if x.leaf then [] else x.children[..c + 1]))
                          + [x.kvs[c]]
                          + Inorder(Node(x.leaf, x.kvs[c + 1..], if x.leaf then [] else x.children[c + 1..]))
  {
    assert x.kvs == x.kvs[..c] + [x.kvs[c]] + x.kvs[c + 1..];
    if !x.leaf {
      SplitInternalInorder(x, c);
    }
  }

  lemma SplitInternalInorder(x: Node, c: nat)
    requires !x.leaf && Shaped(x) && c < |x.kvs|
    requires x.kvs == x.kvs[..c] + [x.kvs[c]] + x.kvs[c + 1..]
    ensures Inorder(x) == Inorder(Node(false, x.kvs[..c], x.children[..c + 1]))
                          + [x.kvs[c]]
                          + Inorder(Node(false, x.kvs[c + 1..], x.children[c + 1..]))
  {
    var a := Node(false, x.kvs[..c], x.children[..c + 1]);
    var b := Node(false, x.kvs[c + 1..], x.children[c + 1..]);
    var ps := Parts(x.children);
    assert ps == ps[..c + 1] + ps[c + 1..];
    WeaveConcat(x.kvs[..c], x.kvs[c], x.kvs[c + 1..], ps[..c + 1], ps[c + 1..]);
    PartsPrefix(x.children, c + 1);
    PartsSuffix(x.children, c + 1);
    InorderInternal(a);
    InorderInternal(b);
    InorderInternal(x);
  }

  lemma SplitChildInorder(n: Node, i: nat, m: int)
    requires !n.leaf && Shaped(n) && i < |n.children|
    requires Shaped(n.children[i]) && 0 <= Ceil(m) < |n.children[i].kvs|
    ensures Inorder(SplitChild(n, i, m)) == Inorder(n)
    ensures Inorder(n.children[i]) == Inorder(SplitChild(n, i, m).children[i]) + [SplitChild(n, i, m).kvs[i]]
                                      + Inorder(SplitChild(n, i, m).children[i + 1])
  {
    var r := SplitChild(n, i, m);
    SplitChildHalves(n, i, m);
    InorderAt(n, i);
    InorderAtPair(r, i);
    LeftSame(n, r, i);
    assert r.kvs[i + 1..] == n.kvs[i..];
    RightSame(n, i, r, i + 1);
  }

  /** After btree_split_child the median that came up into slot i is above
      every key left in x and below every key moved to y. */
  lemma SplitChildSeparates(n: Node, i: nat, m: int)
    requires !n.leaf && Shaped(n) && i < |n.children| && Sorted(Inorder(n))
    requires Shaped(n.children[i]) && 0 <= Ceil(m) < |n.children[i].kvs|
    ensures AllBelow(Inorder(SplitChild(n, i, m).children[i]), SplitChild(n, i, m).kvs[i].key)
    ensures AllAbove(Inorder(SplitChild(n, i, m).children[i + 1]), SplitChild(n, i, m).kvs[i].key)
  {
    SplitChildInorder(n, i, m);
    Separates(SplitChild(n, i, m), i);
  }

  /** The two halves of the split child with the median between them list
      what the child listed. */
  lemma SplitChildHalves(n: Node, i: nat, m: int)
    requires !n.leaf && Shaped(n) && i < |n.children|
    requires Shaped(n.children[i]) && 0 <= Ceil(m) < |n.children[i].kvs|
    ensures Inorder(n.children[i]) == Inorder(SplitChild(n, i, m).children[i]) + [SplitChild(n, i, m).kvs[i]]
                                      + Inorder(SplitChild(n, i, m).children[i + 1])
  {
    var r := SplitChild(n, i, m);
    var x := n.children[i];
    var c := Ceil(m);
    assert r.children[i] == Node(x.leaf, x.kvs[..c], if x.leaf then [] else x.children[..c + 1]);
    assert r.children[i + 1] == Node(x.leaf, x.kvs[c + 1..], if x.leaf then [] else x.children[c + 1..]);
    assert r.kvs[i] == x.kvs[c];
    SplitNodeInorder(x, c);
  }

  /** Taking the last entry off a node: what remains, that entry, then what
      hung below and after it. */
  lemma DropLastInorder(x: Node)
    requires Shaped(x) && |x.kvs| > 0
    ensures var last := |x.kvs| - 1;
            Inorder(x) == Inorder(Node(x.leaf, x.kvs[..last], if x.leaf then [] else x.children[..last + 1]))
                          + [x.kvs[last]] + (if x.leaf then [] else Inorder(x.children[last + 1]))
  {
    var last := |x.kvs| - 1;
    if x.leaf {
      assert x.kvs == x.kvs[..last] + [x.kvs[last]];
    } else {
      DropLastInternal(x);
    }
  }

  lemma DropLastInternal(x: Node)
    requires !x.leaf && Shaped(x) && |x.kvs| > 0
    ensures var last := |x.kvs| - 1;
            Inorder(x) == Inorder(Node(false, x.kvs[..last], x.children[..last + 1]))
                          + [x.kvs[last]] + Inorder(x.children[last + 1])
  {
    var last := |x.kvs| - 1;
    assert x.kvs == x.kvs[..last] + [x.kvs[last]] + x.kvs[last + 1..];
    SplitInternalInorder(x, last);
    var t := Node(false, x.kvs[last + 1..], x.children[last + 1..]);
    assert t.kvs == [] && t.children == [x.children[last + 1]];
    InorderInternal(t);
    assert Parts(t.children) == [Inorder(x.children[last + 1])];
  }

  /** Putting an entry and a subtree in front of a node. */
  lemma PushFrontInorder(e: Entry, y: Node, c: Node)
    requires Shaped(y)
    ensures Inorder(Node(y.leaf, [e] + y.kvs, if y.leaf then [] else [c] + y.children))
            == (if y.leaf then [] else Inorder(c)) + [e] + Inorder(y)
  {
    var y' := Node(y.leaf, [e] + y.kvs, if y.leaf then [] else [c] + y.children);
    if !y.leaf {
      PartsConcat([c], y.children);
      assert Parts([c]) == [Inorder(c)];
      InorderInternal(y');
      InorderInternal(y);
      assert y'.kvs[1..] == y.kvs;
      assert Parts(y'.children)[1..] == Parts(y.children);
    }
  }

  /** Putting a subtree and an entry behind a node. */
  lemma PushBackInorder(x: Node, e: Entry, c: Node)
    requires Shaped(x)
    ensures Inorder(Node(x.leaf, x.kvs + [e], if x.leaf then [] else x.children + [c]))
            == Inorder(x) + [e] + (if x.leaf then [] else Inorder(c))
  {
    var x' := Node(x.leaf, x.kvs + [e], if x.leaf then [] else x.children + [c]);
    if !x.leaf {
      PartsConcat(x.children, [c]);
      assert Parts([c]) == [Inorder(c)];
      WeaveConcat(x.kvs, e, [], Parts(x.children), [Inorder(c)]);
      assert x'.kvs == x.kvs + [e] + [];
      InorderInternal(x');
      InorderInternal(x);
    }
  }

  /** Taking the first entry off a node: what hung before it, that entry,
      then the rest. */
  lemma DropFirstInorder(y: Node)
    requires Shaped(y) && |y.kvs| > 0
    ensures Inorder(y) == (if y.leaf then [] else Inorder(y.children[0])) + [y.kvs[0]]
                          + Inorder(Node(y.leaf, y.kvs[1..], if y.leaf then [] else y.children[1..]))
  {
    var y' := Node(y.leaf, y.kvs[1..], if y.leaf then [] else y.children[1..]);
    if y.leaf {
      assert y.kvs == [y.kvs[0]] + y.kvs[1..];
    } else {
      PartsSuffix(y.children, 1);
      InorderInternal(y');
      InorderInternal(y);
    }
  }

  lemma Regroup<T>(a: seq<T>, b: seq<T>, c: seq<T>, d: seq<T>, e: seq<T>)
    ensures (a + b + c) + d + e == a + b + (c + d + e)
  {
  }

  /** Two nodes that differ only in separator j and the children on either
      side of it list the same entries when that window lists the same. */
  lemma WindowSame(n: Node, r: Node, j: nat)
    requires !n.leaf && Shaped(n) && !r.leaf && Shaped(r) && j < |n.kvs| == |r.kvs|
    requires forall k :: 0 <= k < |n.children| && k != j && k != j + 1 ==> r.children[k] == n.children[k]
    requires forall k :: 0 <= k < |n.kvs| && k != j ==> r.kvs[k] == n.kvs[k]
    requires Inorder(n.children[j]) + [n.kvs[j]] + Inorder(n.children[j + 1])
             == Inorder(r.children[j]) + [r.kvs[j]] + Inorder(r.children[j + 1])
    ensures Inorder(r) == Inorder(n)
  {
    InorderAtPair(n, j);
    InorderAtPair(r, j);
    WindowLeft(n, r, j);
    WindowRight(n, r, j);
  }

  lemma WindowLeft(n: Node, r: Node, j: nat)
    requires !n.leaf && Shaped(n) && !r.leaf && Shaped(r) && j < |n.kvs| == |r.kvs|
    requires forall k :: 0 <= k < |n.children| && k != j && k != j + 1 ==> r.children[k] == n.children[k]
    requires forall k :: 0 <= k < |n.kvs| && k != j ==> r.kvs[k] == n.kvs[k]
    ensures Left(r, j) == Left(n, j)
  {
    assert r.kvs[..j] == n.kvs[..j];
    assert r.children[..j] == n.children[..j];
    LeftSame(n, r, j);
  }

  lemma WindowRight(n: Node, r: Node, j: nat)
    requires !n.leaf && Shaped(n) && !r.leaf && Shaped(r) && j < |n.kvs| == |r.kvs|
    requires forall k :: 0 <= k < |n.children| && k != j && k != j + 1 ==> r.children[k] == n.children[k]
    requires forall k :: 0 <= k < |n.kvs| && k != j ==> r.kvs[k] == n.kvs[k]
    ensures Right(r, j + 1) == Right(n, j + 1)
  {
    assert r.kvs[j + 1..] == n.kvs[j + 1..];
    assert r.children[j + 2..] == n.children[j + 2..];
    RightSame(n, j + 1, r, j + 1);
  }

  lemma RotateRightInorder(n: Node, j: nat)
    requires !n.leaf && Shaped(n) && j < |n.kvs|
    requires Shaped(n.children[j]) && Shaped(n.children[j + 1])
    requires n.children[j].leaf == n.children[j + 1].leaf && |n.children[j].kvs| > 0
    ensures Inorder(RotateRight(n, j)) == Inorder(n)
  {
    var r := RotateRight(n, j);
    var x, y := n.children[j], n.children[j + 1];
    var last := |x.kvs| - 1;
    var c := if x.leaf then y else x.children[last + 1];
    assert r.children[j] == Node(x.leaf, x.kvs[..last], if x.leaf then [] else x.children[..last + 1]);
    assert r.children[j + 1] == Node(y.leaf, [n.kvs[j]] + y.kvs, if y.leaf then [] else [c] + y.children);
    var x', y' := r.children[j], r.children[j + 1];
    DropLastInorder(x);
    PushFrontInorder(n.kvs[j], y, c);
    var mid := if x.leaf then [] else Inorder(c);
    Regroup(Inorder(x'), [r.kvs[j]], mid, [n.kvs[j]], Inorder(y));
    WindowSame(n, r, j);
  }

  lemma RotateLeftInorder(n: Node, j: nat)
    requires !n.leaf && Shaped(n) && j < |n.kvs|
    requires Shaped(n.children[j]) && Shaped(n.children[j + 1])
    requires n.children[j].leaf == n.children[j + 1].leaf && |n.children[j + 1].kvs| > 0
    ensures Inorder(RotateLeft(n, j)) == Inorder(n)
  {
    var r := RotateLeft(n, j);
    var x, y := n.children[j], n.children[j + 1];
    var c := if y.leaf then x else y.children[0];
    assert r.children[j] == Node(x.leaf, x.kvs + [n.kvs[j]], if x.leaf then [] else x.children + [c]);
    assert r.children[j + 1] == Node(y.leaf, y.kvs[1..], if y.leaf then [] else y.children[1..]);
    var x', y' := r.children[j], r.children[j + 1];
    PushBackInorder(x, n.kvs[j], c);
    DropFirstInorder(y);
    var mid := if y.leaf then [] else Inorder(c);
    Regroup(Inorder(x), [n.kvs[j]], mid, [r.kvs[j]], Inorder(y'));
    WindowSame(n, r, j);
  }

  lemma MergeInorder(n: Node, j: nat)
    requires !n.leaf && Shaped(n) && j < |n.kvs|
    requires Shaped(n.children[j]) && Shaped(n.children[j + 1])
    requires n.children[j].leaf == n.children[j + 1].leaf
    ensures Inorder(Merge(n, j)) == Inorder(n)
    ensures Inorder(Merge(n, j).children[j])
            == Inorder(n.children[j]) + [n.kvs[j]] + Inorder(n.children[j + 1])
  {
    var r := Merge(n, j);
    var x, y := n.children[j], n.children[j + 1];
    if !x.leaf {
      PartsConcat(x.children, y.children);
      WeaveConcat(x.kvs, n.kvs[j], y.kvs, Parts(x.children), Parts(y.children));
    }
    InorderAtPair(n, j);
    InorderAt(r, j);
    LeftSame(n, r, j);
    RightSame(n, j + 1, r, j);
  }

  // ---------------------------------------------------------------------------
  // One entry of a node in the node's in-order sequence

  /** What a node lists before its entry i. */
  ghost function Before(n: Node, i: nat): seq<Entry>
    requires Shaped(n) && i < |n.kvs|
  {
    if n.leaf then n.kvs[..i] else Left(n, i) + Inorder(n.children[i])
  }

  /** What a node lists after its entry i. */
  ghost function After(n: Node, i: nat): seq<Entry>
    requires Shaped(n) && i < |n.kvs|
  {
    if n.leaf then n.kvs[i + 1..] else Inorder(n.children[i + 1]) + Right(n, i + 1)
  }

  lemma EntryAt(n: Node, i: nat)
    requires Shaped(n) && i < |n.kvs|
    ensures Inorder(n) == Before(n, i) + [n.kvs[i]] + After(n, i)
  {
    if n.leaf {
      assert n.kvs == n.kvs[..i] + [n.kvs[i]] + n.kvs[i + 1..];
    } else {
      InorderAtPair(n, i);
    }
  }

  /** Overwriting entry i changes that entry of the in-order sequence only
      (the value update of btree_insert, src/btree.c:130, 141 and 156). */
  lemma SetEntryInorder(n: Node, i: nat, e: Entry)
    requires Shaped(n) && i < |n.kvs|
    ensures Shaped(Node(n.leaf, n.kvs[i := e], n.children))
    ensures Inorder(Node(n.leaf, n.kvs[i := e], n.children)) == Before(n, i) + [e] + After(n, i)
  {
    var r := Node(n.leaf, n.kvs[i := e], n.children);
    if n.leaf {
      assert r.kvs == n.kvs[..i] + [e] + n.kvs[i + 1..];
    } else {
      InorderAtPair(r, i);
      assert r.kvs[..i] == n.kvs[..i];
      LeftSame(n, r, i);
      assert r.kvs[i + 1..] == n.kvs[i + 1..];
      RightSame(n, i + 1, r, i + 1);
    }
  }
}
